/** UTF-8 validation (sections 3 and 4 of RFC 3629) and what unescaping does to valid text. */
module Utf8 {
  import opened CString
  import opened JsonParse

  /** A Unicode scalar value: a code point that is not a surrogate half. */
  predicate Scalar(cp: nat) {
    cp <= 0x10FFFF && !(0xD800 <= cp <= 0xDFFF)
  }

  function EncodeAll(cps: seq<nat>): string
    requires forall i :: 0 <= i < |cps| ==> Scalar(cps[i])
  {
    if |cps| == 0 then ""
    else
      assert Scalar(cps[0]);
      Utf8Bytes(cps[0]) + EncodeAll(cps[1..])
  }

  /** A byte string is UTF-8 when it is a concatenation of encodings of scalar values. */
  ghost predicate IsUtf8(s: string) {
    exists cps: seq<nat> :: (forall i :: 0 <= i < |cps| ==> Scalar(cps[i])) && EncodeAll(cps) == s
  }

  predicate IsBytes(s: string) {
    forall i :: 0 <= i < |s| ==> s[i] as int < 256
  }

  // ---- The check ----

  /** IS_CONT: the two top bits are 10. */
  predicate IsCont(c: char) {
    c as int / 64 == 2
  }

  /** num_bytes_in_utf8_sequence. */
  function SequenceLength(c: char): (n: nat)
    ensures n <= 4
  {
    var b := c as int;
    if b == 0xC0 || b == 0xC1 || b > 0xF4 || IsCont(c) then 0
    else if b < 0x80 then 1
    else if b / 32 == 6 then 2
    else if b / 16 == 14 then 3
    else if b / 8 == 30 then 4
    else 0
  }

  function Bits(s: string, i: nat, modulus: nat): nat
    requires i <= |s| && modulus > 0
  {
    At(s, i) as int % modulus
  }

  /**
   * The code point verify_utf8_sequence puts together, before its range tests; None when a continuation byte is
   * missing.
   */
  function RawCodePoint(s: string, i: nat): (r: Option<nat>)
    requires i < |s|
    ensures r.Some? ==> 0 < SequenceLength(s[i]) && i + SequenceLength(s[i]) <= |s|
  {
    var n := SequenceLength(s[i]);
    if n == 1 then Some(s[i] as nat)
    else if n == 2 && IsCont(At(s, i + 1)) then Some(Bits(s, i, 32) * 64 + Bits(s, i + 1, 64))
    else if n == 3 && IsCont(At(s, i + 1)) && IsCont(At(s, i + 2)) then
      Some((Bits(s, i, 16) * 64 + Bits(s, i + 1, 64)) * 64 + Bits(s, i + 2, 64))
    else if n == 4 && IsCont(At(s, i + 1)) && IsCont(At(s, i + 2)) && IsCont(At(s, i + 3)) then
      Some(((Bits(s, i, 8) * 64 + Bits(s, i + 1, 64)) * 64 + Bits(s, i + 2, 64)) * 64 + Bits(s, i + 3, 64))
    else None
  }

  /** verify_utf8_sequence: the length of the sequence at `i`, or None when it is rejected. */
  function Verify(s: string, i: nat): (r: Option<nat>)
    requires i < |s|
    ensures r.Some? ==> 0 < r.value && i + r.value <= |s|
  {
    var n := SequenceLength(s[i]);
    match RawCodePoint(s, i)
    case None => None
    case Some(cp) =>
      if (cp < 0x80 && n > 1) || (cp < 0x800 && n > 2) || (cp < 0x10000 && n > 3) then None
      else if cp > 0x10FFFF || 0xD800 <= cp <= 0xDFFF then None
      else Some(n)
  }

  /** What the loop of is_valid_utf8 answers when it has reached `i`. */
  predicate ValidFrom(s: string, i: nat)
    requires i <= |s|
    decreases |s| - i
  {
    i == |s| || (Verify(s, i).Some? && ValidFrom(s, i + Verify(s, i).value))
  }

  /** is_valid_utf8 accepts exactly the concatenations of encodings of scalar values. */
  method IsValidUtf8(s: string) returns (valid: bool)
    requires IsBytes(s)
    ensures valid <==> IsUtf8(s)
  {
    ValidIffUtf8(s);
    var i := 0;
    while i < |s|
      invariant i <= |s| && ValidFrom(s, 0) == ValidFrom(s, i)
    {
      var n := Verify(s, i);
      if n.None? {
        return false;
      }
      i := i + n.value;
    }
    return true;
  }

  // The bit fields of two-, three- and four-byte sequences.

  lemma LowBits(n: nat, high: nat, low: nat)
    requires low < 64
    ensures n == high * 64 + low <==> n / 64 == high && n % 64 == low
  {
  }

  lemma SixAtATime(n: nat)
    ensures n / 4096 == n / 64 / 64 && n / 262144 == n / 64 / 64 / 64
  {
  }

  lemma Fields2(cp: nat, b0: int, b1: int)
    requires 0xC0 <= b0 < 0xE0 && 0x80 <= b1 < 0xC0
    ensures cp == b0 % 32 * 64 + b1 % 64 <==> (cp < 0x800 && b0 == cp / 64 % 32 + 0xC0 && b1 == cp % 64 + 0x80)
  {
    LowBits(cp, b0 - 0xC0, b1 - 0x80);
  }

  lemma Fields3(cp: nat, b0: int, b1: int, b2: int)
    requires 0xE0 <= b0 < 0xF0 && 0x80 <= b1 < 0xC0 && 0x80 <= b2 < 0xC0
    ensures cp == (b0 % 16 * 64 + b1 % 64) * 64 + b2 % 64
      <==> (cp < 0x10000 && b0 == cp / 4096 % 16 + 0xE0 && b1 == cp / 64 % 64 + 0x80 && b2 == cp % 64 + 0x80)
  {
    var (x, y, z) := (b0 - 0xE0, b1 - 0x80, b2 - 0x80);
    assert b0 % 16 == x && b1 % 64 == y && b2 % 64 == z;
    LowBits(cp, x * 64 + y, z);
    LowBits(cp / 64, x, y);
    SixAtATime(cp);
  }

  lemma Fields4(cp: nat, b0: int, b1: int, b2: int, b3: int)
    requires 0xF0 <= b0 < 0xF8 && 0x80 <= b1 < 0xC0 && 0x80 <= b2 < 0xC0 && 0x80 <= b3 < 0xC0
    ensures cp == ((b0 % 8 * 64 + b1 % 64) * 64 + b2 % 64) * 64 + b3 % 64
      <==> (cp < 0x200000 && b0 == cp / 262144 % 8 + 0xF0 && b1 == cp / 4096 % 64 + 0x80
            && b2 == cp / 64 % 64 + 0x80 && b3 == cp % 64 + 0x80)
  {
    var (w, x, y, z) := (b0 - 0xF0, b1 - 0x80, b2 - 0x80, b3 - 0x80);
    assert b0 % 8 == w && b1 % 64 == x && b2 % 64 == y && b3 % 64 == z;
    FourDigits(cp, w, x, y, z);
    assert cp < 0x200000 ==> cp / 262144 < 8;
  }

  lemma FourDigits(cp: nat, w: nat, x: nat, y: nat, z: nat)
    requires w < 8 && x < 64 && y < 64 && z < 64
    ensures cp == ((w * 64 + x) * 64 + y) * 64 + z
      <==> (cp / 262144 == w && cp / 4096 % 64 == x && cp / 64 % 64 == y && cp % 64 == z)
    ensures cp == ((w * 64 + x) * 64 + y) * 64 + z ==> cp < 0x200000
  {
    LowBits(cp, (w * 64 + x) * 64 + y, z);
    LowBits(cp / 64, w * 64 + x, y);
    LowBits(cp / 64 / 64, w, x);
    SixAtATime(cp);
  }

  /** The code point the bytes of an encoding are put back into. */
  lemma EncodedBits(s: string, i: nat, cp: nat)
    requires cp <= 0x10FFFF && i < |s| && StartsWith(s, i, Utf8Bytes(cp))
    ensures SequenceLength(s[i]) == |Utf8Bytes(cp)| && RawCodePoint(s, i) == Some(cp)
  {
    hide *;
    EncodedBytes(s, i, cp);
    if cp < 0x80 {
      CodePoint1(s, i);
    } else if cp < 0x800 {
      EncodedBits2(s, i, cp);
    } else if cp < 0x10000 {
      EncodedBits3(s, i, cp);
    } else {
      EncodedBits4(s, i, cp);
    }
  }

  lemma EncodedBits2(s: string, i: nat, cp: nat)
    requires 0x80 <= cp < 0x800 && i + 1 < |s|
    requires s[i] as int == cp / 64 % 32 + 0xC0 && s[i + 1] as int == cp % 64 + 0x80
    ensures SequenceLength(s[i]) == 2 && RawCodePoint(s, i) == Some(cp)
  {
    hide SequenceLength, RawCodePoint;
    Fields2(cp, s[i] as int, s[i + 1] as int);
    CodePoint2(s, i);
  }

  lemma EncodedBits3(s: string, i: nat, cp: nat)
    requires 0x800 <= cp < 0x10000 && i + 2 < |s|
    requires s[i] as int == cp / 4096 % 16 + 0xE0 && s[i + 1] as int == cp / 64 % 64 + 0x80
    requires s[i + 2] as int == cp % 64 + 0x80
    ensures SequenceLength(s[i]) == 3 && RawCodePoint(s, i) == Some(cp)
  {
    hide SequenceLength, RawCodePoint;
    Fields3(cp, s[i] as int, s[i + 1] as int, s[i + 2] as int);
    CodePoint3(s, i);
  }

  lemma EncodedBits4(s: string, i: nat, cp: nat)
    requires 0x10000 <= cp <= 0x10FFFF && i + 3 < |s|
    requires s[i] as int == cp / 262144 % 8 + 0xF0 && s[i + 1] as int == cp / 4096 % 64 + 0x80
    requires s[i + 2] as int == cp / 64 % 64 + 0x80 && s[i + 3] as int == cp % 64 + 0x80
    ensures SequenceLength(s[i]) == 4 && RawCodePoint(s, i) == Some(cp)
  {
    hide SequenceLength, RawCodePoint;
    Fields4(cp, s[i] as int, s[i + 1] as int, s[i + 2] as int, s[i + 3] as int);
    CodePoint4(s, i);
  }

  // The length and the code point of a sequence, by its first byte, when all continuation bytes are there.

  lemma CodePoint1(s: string, i: nat)
    requires i < |s| && s[i] as int < 0x80
    ensures SequenceLength(s[i]) == 1 && RawCodePoint(s, i) == Some(s[i] as int)
  {
  }

  lemma CodePoint2(s: string, i: nat)
    requires i + 1 < |s| && 0xC2 <= s[i] as int < 0xE0 && IsCont(s[i + 1])
    ensures SequenceLength(s[i]) == 2 && RawCodePoint(s, i) == Some(s[i] as int % 32 * 64 + s[i + 1] as int % 64)
  {
  }

  lemma CodePoint3(s: string, i: nat)
    requires i + 2 < |s| && 0xE0 <= s[i] as int < 0xF0 && IsCont(s[i + 1]) && IsCont(s[i + 2])
    ensures SequenceLength(s[i]) == 3
    ensures RawCodePoint(s, i) == Some((s[i] as int % 16 * 64 + s[i + 1] as int % 64) * 64 + s[i + 2] as int % 64)
  {
  }

  lemma CodePoint4(s: string, i: nat)
    requires i + 3 < |s| && 0xF0 <= s[i] as int <= 0xF4 && IsCont(s[i + 1]) && IsCont(s[i + 2]) && IsCont(s[i + 3])
    ensures SequenceLength(s[i]) == 4
    ensures RawCodePoint(s, i) ==
      Some(((s[i] as int % 8 * 64 + s[i + 1] as int % 64) * 64 + s[i + 2] as int % 64) * 64 + s[i + 3] as int % 64)
  {
  }

  /** The bytes of an encoding, one by one. */
  lemma EncodedBytes(s: string, i: nat, cp: nat)
    requires cp <= 0x10FFFF && i < |s| && StartsWith(s, i, Utf8Bytes(cp))
    ensures var n := |Utf8Bytes(cp)|;
      && i + n <= |s| && n == (if cp < 0x80 then 1 else if cp < 0x800 then 2 else if cp < 0x10000 then 3 else 4)
      && (n == 1 ==> s[i] as int == cp)
      && (n == 2 ==> s[i] as int == cp / 64 % 32 + 0xC0 && s[i + 1] as int == cp % 64 + 0x80)
      && (n == 3 ==> s[i] as int == cp / 4096 % 16 + 0xE0 && s[i + 1] as int == cp / 64 % 64 + 0x80
                     && s[i + 2] as int == cp % 64 + 0x80)
      && (n == 4 ==> s[i] as int == cp / 262144 % 8 + 0xF0 && s[i + 1] as int == cp / 4096 % 64 + 0x80
                     && s[i + 2] as int == cp / 64 % 64 + 0x80 && s[i + 3] as int == cp % 64 + 0x80)
  {
    var e := Utf8Bytes(cp);
    forall k | 0 <= k < |e|
      ensures i + k < |s| && s[i + k] == e[k]
    {
      StartsWithAt(s, i, e, k);
    }
    assert s[i + 0] == e[0];
  }

  /** An encoded scalar value is accepted, with its own length. */
  lemma EncodedIsVerified(s: string, i: nat, cp: nat)
    requires Scalar(cp) && StartsWith(s, i, Utf8Bytes(cp))
    ensures i < |s| && Verify(s, i) == Some(|Utf8Bytes(cp)|)
  {
    StartsWithAt(s, i, Utf8Bytes(cp), 0);
    EncodedBits(s, i, cp);
    hide SequenceLength, RawCodePoint;
  }

  /** An accepted sequence is the encoding of a scalar value. */
  lemma VerifiedIsEncoded(s: string, i: nat) returns (cp: nat)
    requires i < |s| && s[i] as int < 256 && Verify(s, i).Some?
    ensures RawCodePoint(s, i) == Some(cp)
    ensures Scalar(cp) && Utf8Bytes(cp) == s[i..i + Verify(s, i).value]
  {
    cp := RawCodePoint(s, i).value;
    VerifiedBits(s, i, cp);
    hide RawCodePoint, Utf8Bytes, SequenceLength;
  }

  lemma VerifiedBits(s: string, i: nat, cp: nat)
    requires i < |s| && s[i] as int < 256 && RawCodePoint(s, i) == Some(cp) && cp <= 0x10FFFF
    requires var n := SequenceLength(s[i]);
      (n > 1 ==> cp >= 0x80) && (n > 2 ==> cp >= 0x800) && (n > 3 ==> cp >= 0x10000)
    ensures Utf8Bytes(cp) == s[i..i + SequenceLength(s[i])]
  {
    var n := SequenceLength(s[i]);
    if n == 1 {
      assert s[i..i + 1] == [s[i]];
    } else if n == 2 {
      TwoBytes(s, i, cp);
    } else if n == 3 {
      ThreeBytes(s, i, cp);
    } else {
      FourBytes(s, i, cp);
    }
  }

  lemma TwoBytes(s: string, i: nat, cp: nat)
    requires i < |s| && SequenceLength(s[i]) == 2 && RawCodePoint(s, i) == Some(cp) && cp >= 0x80
    ensures Utf8Bytes(cp) == s[i..i + 2]
  {
    Fields2(cp, s[i] as int, s[i + 1] as int);
    assert s[i..i + 2] == [s[i], s[i + 1]];
    hide RawCodePoint, SequenceLength;
  }

  lemma ThreeBytes(s: string, i: nat, cp: nat)
    requires i < |s| && SequenceLength(s[i]) == 3 && RawCodePoint(s, i) == Some(cp) && cp >= 0x800
    ensures Utf8Bytes(cp) == s[i..i + 3]
  {
    Fields3(cp, s[i] as int, s[i + 1] as int, s[i + 2] as int);
    assert s[i..i + 3] == [s[i], s[i + 1], s[i + 2]];
    hide RawCodePoint, SequenceLength;
  }

  lemma FourBytes(s: string, i: nat, cp: nat)
    requires i < |s| && SequenceLength(s[i]) == 4 && RawCodePoint(s, i) == Some(cp) && 0x10000 <= cp <= 0x10FFFF
    ensures Utf8Bytes(cp) == s[i..i + 4]
  {
    Fields4(cp, s[i] as int, s[i + 1] as int, s[i + 2] as int, s[i + 3] as int);
    assert s[i..i + 4] == [s[i], s[i + 1], s[i + 2], s[i + 3]];
    hide RawCodePoint, SequenceLength;
  }

  lemma ValidIffUtf8(s: string)
    requires IsBytes(s)
    ensures ValidFrom(s, 0) <==> IsUtf8(s)
  {
    if ValidFrom(s, 0) {
      var cps := Decode(s, 0);
      assert s[0..] == s;
    }
    if IsUtf8(s) {
      var cps: seq<nat> :| (forall i :: 0 <= i < |cps| ==> Scalar(cps[i])) && EncodeAll(cps) == s;
      EncodedIsValid(s, 0, cps);
    }
  }

  lemma {:induction false} Decode(s: string, i: nat) returns (cps: seq<nat>)
    requires IsBytes(s) && i <= |s| && ValidFrom(s, i)
    ensures forall k :: 0 <= k < |cps| ==> Scalar(cps[k])
    ensures EncodeAll(cps) == s[i..]
    decreases |s| - i
  {
    hide Verify, Utf8Bytes;
    if i == |s| {
      cps := [];
    } else {
      var n := Verify(s, i).value;
      var cp := VerifiedIsEncoded(s, i);
      var rest := Decode(s, i + n);
      cps := [cp] + rest;
      assert cps[1..] == rest;
      assert s[i..] == s[i..i + n] + s[i + n..];
    }
  }

  lemma {:induction false} EncodedIsValid(s: string, i: nat, cps: seq<nat>)
    requires forall k :: 0 <= k < |cps| ==> Scalar(cps[k])
    requires i <= |s| && s[i..] == EncodeAll(cps)
    ensures ValidFrom(s, i)
    decreases |cps|
  {
    hide Verify, Utf8Bytes;
    if cps != [] {
      var e := Utf8Bytes(cps[0]);
      assert s[i..i + |e|] == s[i..][..|e|] == e;
      EncodedIsVerified(s, i, cps[0]);
      assert s[i + |e|..] == s[i..][|e|..] == EncodeAll(cps[1..]);
      EncodedIsValid(s, i + |e|, cps[1..]);
    }
  }

  /** The encoding of a code point is the only sequence accepted for it. */
  lemma {:induction false} EncodingIsUnique(s: string, cp: nat)
    requires IsBytes(s) && s != "" && Verify(s, 0) == Some(|s|) && RawCodePoint(s, 0) == Some(cp)
    ensures Scalar(cp) && s == Utf8Bytes(cp)
  {
    hide RawCodePoint, Utf8Bytes, Verify;
    var _ := VerifiedIsEncoded(s, 0);
    assert s[0..|s|] == s;
  }
}
