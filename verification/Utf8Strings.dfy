/** Strings unescaped from valid UTF-8 text are valid UTF-8, so the parser may keep them without checking them again. */
module Utf8Strings {
  import opened CString
  import opened JsonParse
  import opened JsonParseFacts
  import opened JsonParser
  import opened Utf8

  predicate Ascii(c: char) {
    c as int < 0x80
  }

  lemma PrependScalar(cp: nat, s: string)
    requires Scalar(cp) && IsUtf8(s)
    ensures IsUtf8(Utf8Bytes(cp) + s)
  {
    hide Utf8Bytes;
    var cps: seq<nat> :| (forall i :: 0 <= i < |cps| ==> Scalar(cps[i])) && EncodeAll(cps) == s;
    assert ([cp] + cps)[1..] == cps;
    assert EncodeAll([cp] + cps) == Utf8Bytes(cp) + s;
  }

  lemma {:induction false} AsciiRun(text: string, i: nat, next: nat)
    requires i <= next <= |text| && ValidFrom(text, i) && forall k :: i <= k < next ==> Ascii(text[k])
    ensures ValidFrom(text, next)
    decreases next - i
  {
    if i < next {
      assert Verify(text, i) == Some(1);
      AsciiRun(text, i + 1, next);
    }
  }

  /**
   * parse_utf16 emits the one UTF-8 encoding of the code point a `\u` escape or surrogate pair denotes (section 7 of
   * RFC 8259).
   */
  lemma Utf16Code(text: string, pos: nat) returns (cp: nat)
    requires pos < |text| && text[pos] == 'u' && Utf16Piece(text, pos).Piece?
    ensures Scalar(cp) && Utf16Piece(text, pos).bytes == Utf8Bytes(cp)
    ensures var first := Hex4(text, pos + 1).value;
      if 0xD800 <= first <= 0xDBFF then
        Hex4(text, pos + 7).Some? && 0xDC00 <= Hex4(text, pos + 7).value <= 0xDFFF
        && cp == 0x10000 + (first - 0xD800) * 0x400 + (Hex4(text, pos + 7).value - 0xDC00)
      else cp == first
    ensures forall k :: pos <= k < Utf16Piece(text, pos).next ==> Ascii(text[k])
  {
    hide Utf8Bytes;
    HexIsAscii(text, pos + 1);
    cp := Hex4(text, pos + 1).value;
    if Utf16Piece(text, pos).next == pos + 11 {
      HexIsAscii(text, pos + 7);
      cp := (cp - 0xD800) * 1024 + (Hex4(text, pos + 7).value - 0xDC00) + 0x10000;
    }
    hide Hex4;
  }

  lemma HexIsAscii(text: string, pos: nat)
    requires pos <= |text|
    ensures Hex4(text, pos).Some? ==> forall k :: pos <= k < pos + 4 ==> Ascii(text[k])
  {
    if Hex4(text, pos).Some? {
      forall k | pos <= k < pos + 4
        ensures Ascii(text[k])
      {
        assert HexValue(text[k]) != -1;
      }
    }
  }

  /** A piece read at an ASCII byte covers ASCII bytes only and writes the encoding of one scalar value. */
  lemma AsciiPiece(text: string, i: nat) returns (cp: nat)
    requires i < |text| && Ascii(text[i]) && NextPiece(text, i).Piece?
    ensures Scalar(cp) && NextPiece(text, i).bytes == Utf8Bytes(cp)
    ensures forall k :: i <= k < NextPiece(text, i).next ==> Ascii(text[k])
  {
    hide Utf16Piece;
    if text[i] == '\\' && At(text, i + 1) == 'u' {
      cp := Utf16Code(text, i + 1);
    } else {
      cp := NextPiece(text, i).bytes[0] as nat;
    }
  }

  lemma {:induction false} HighRun(text: string, i: nat, next: nat, end: nat)
    requires i <= next <= |text| && next <= end && forall k :: i <= k < next ==> !Ascii(text[k])
    ensures Process(text, i, end) == Prepend(text[i..next], Process(text, next, end))
    decreases next - i
  {
    if i < next {
      ProcessStep(text, i, end);
      HighRun(text, i + 1, next, end);
      PrependTwice([text[i]], text[i + 1..next], Process(text, next, end));
      assert [text[i]] + text[i + 1..next] == text[i..next];
    } else {
      assert text[i..next] == "";
      PrependTwice("", "", Process(text, next, end));
    }
  }

  /**
   * A sequence that does not start with an ASCII byte holds none, and neither quote nor backslash: both scanners step
   * through it.
   */
  lemma HighSequence(text: string, i: nat, end: nat) returns (cp: nat, next: nat)
    requires IsBytes(text) && i < end < |text| && ValidFrom(text, i) && !Ascii(text[i])
      && SkipBody(text, i) == Some(end + 1)
    ensures Scalar(cp) && i < next <= end && text[i..next] == Utf8Bytes(cp)
    ensures ValidFrom(text, next) && SkipBody(text, next) == Some(end + 1)
    ensures Process(text, i, end) == Prepend(Utf8Bytes(cp), Process(text, next, end))
  {
    next := i + Verify(text, i).value;
    cp := VerifiedIsEncoded(text, i);
    HighBytes(cp);
    assert text[i] == text[i..next][0];
    forall k | i <= k < next
      ensures !Ascii(text[k])
    {
      assert text[k] == text[i..next][k - i];
    }
    SkipHigh(text, i, next);
    HighRun(text, i, next, end);
  }

  lemma HighBytes(cp: nat)
    requires Scalar(cp)
    ensures if cp < 0x80 then Utf8Bytes(cp) == [cp as char] else forall k ::
      0 <= k < |Utf8Bytes(cp)| ==> !Ascii(Utf8Bytes(cp)[k])
    ensures 0 < |Utf8Bytes(cp)|
  {
  }

  lemma {:induction false} SkipHigh(text: string, i: nat, next: nat)
    requires i <= next <= |text| && forall k :: i <= k < next ==> !Ascii(text[k])
    ensures SkipBody(text, i) == SkipBody(text, next)
    ensures SkipBody(text, next).Some? ==> next < SkipBody(text, next).value
    decreases next - i
  {
    if i < next {
      SkipHigh(text, i + 1, next);
    }
  }

  lemma {:induction false} ProcessKeepsUtf8(text: string, i: nat, end: nat)
    requires IsBytes(text) && i <= end < |text| && ValidFrom(text, i) && SkipBody(text, i) == Some(end + 1)
    requires Process(text, i, end).Done?
    ensures IsUtf8(Process(text, i, end).output)
    decreases end - i
  {
    hide NextPiece, Utf8Bytes, Verify, ValidFrom;
    if i == end || text[i] == NUL {
      assert EncodeAll([]) == "";
    } else if Ascii(text[i]) {
      var cp := AsciiPiece(text, i);
      var next := NextPiece(text, i).next;
      PieceStaysInside(text, i, end);
      AsciiRun(text, i, next);
      ProcessStep(text, i, end);
      ProcessKeepsUtf8(text, next, end);
      PrependScalar(cp, Process(text, next, end).output);
    } else {
      var cp, next := HighSequence(text, i, end);
      ProcessKeepsUtf8(text, next, end);
      PrependScalar(cp, Process(text, next, end).output);
    }
  }

  lemma {:induction false} UpToNulConcat(a: string, b: string)
    requires NulFree(a)
    ensures UpToNul(a + b) == a + UpToNul(b)
  {
    if a == "" {
      assert a + b == b && "" + UpToNul(b) == UpToNul(b);
    } else {
      assert (a + b)[1..] == a[1..] + b;
      UpToNulConcat(a[1..], b);
      assert [a[0]] + (a[1..] + UpToNul(b)) == a + UpToNul(b);
    }
  }

  lemma {:induction false} UpToNulKeepsUtf8(cps: seq<nat>)
    requires forall i :: 0 <= i < |cps| ==> Scalar(cps[i])
    ensures IsUtf8(UpToNul(EncodeAll(cps)))
  {
    hide Utf8Bytes;
    if cps == [] || cps[0] == 0 {
      assert EncodeAll([]) == "";
      if cps != [] {
        HighBytes(0);
      }
    } else {
      HighBytes(cps[0]);
      UpToNulConcat(Utf8Bytes(cps[0]), EncodeAll(cps[1..]));
      UpToNulKeepsUtf8(cps[1..]);
      PrependScalar(cps[0], UpToNul(EncodeAll(cps[1..])));
    }
  }

  /** A string or name read from valid UTF-8 text passes the check json_value_init_string makes. */
  lemma QuotedIsUtf8(text: string, pos: nat)
    requires IsBytes(text) && pos < |text| && ValidFrom(text, pos) && QuotedString(text, pos).Ok?
    ensures IsUtf8(QuotedString(text, pos).value)
  {
    var end := QuotedString(text, pos).next - 1;
    AsciiRun(text, pos, pos + 1);
    ProcessKeepsUtf8(text, pos + 1, end);
    var output := Process(text, pos + 1, end).output;
    var cps: seq<nat> :| (forall i :: 0 <= i < |cps| ==> Scalar(cps[i])) && EncodeAll(cps) == output;
    UpToNulKeepsUtf8(cps);
  }
}
