/** The recursive-descent parser: a cursor that its methods push forward over the text. */
module JsonParser {
  import opened CString
  import opened JsonValue
  import opened JsonParse
  import opened JsonParseFacts

  class Parser {
    const text: string
    const lib: LibC
    var pos: nat

    predicate Valid()
      reads this
    {
      pos <= |text|
    }

    constructor (lib: LibC, text: string)
      ensures Valid() && this.lib == lib && this.text == text && pos == 0
    {
      this.lib, this.text, pos := lib, text, 0;
    }

    method SkipWhitespaces()
      requires Valid()
      modifies this
      ensures Valid() && pos == SkipSpaces(text, old(pos))
    {
      while pos < |text| && IsSpace(text[pos])
        invariant Valid() && SkipSpaces(text, pos) == SkipSpaces(text, old(pos))
        decreases |text| - pos
      {
        pos := pos + 1;
      }
    }

    method SkipQuotedText() returns (ok: bool)
      requires Valid()
      modifies this
      ensures Valid()
      ensures ok == SkipQuotes(text, old(pos)).Some?
      ensures ok ==> SkipQuotes(text, old(pos)) == Some(pos)
    {
      if At(text, pos) != '\"' {
        return false;
      }
      pos := pos + 1;
      while At(text, pos) != '\"'
        invariant Valid() && SkipBody(text, pos) == SkipBody(text, old(pos) + 1)
        decreases |text| - pos
      {
        if At(text, pos) == NUL {
          return false;
        } else if text[pos] == '\\' {
          pos := pos + 1;
          if At(text, pos) == NUL {
            return false;
          }
        }
        pos := pos + 1;
      }
      pos := pos + 1;
      return true;
    }

    method GetQuotedString() returns (r: Option<string>)
      requires Valid()
      modifies this
      ensures Valid()
      ensures r.None? <==> QuotedString(text, old(pos)).Fail?
      ensures r.Some? ==> QuotedString(text, old(pos)) == Ok(r.value, pos)
    {
      var start := pos;
      var ok := SkipQuotedText();
      if !ok {
        return None;
      }
      r := ProcessString(text, start + 1, pos - start - 2);
    }

    method ParseJson(nesting: nat) returns (r: Option<Json>)
      requires Valid()
      modifies this
      ensures Valid() && Yields(old(pos), ParseValue(lib, text, old(pos), nesting), r)
      decreases |text| - pos, 2
    {
      hide SkipSpaces;
      if nesting > MAX_NESTING {
        return None;
      }
      SkipWhitespaces();
      var c := At(text, pos);
      if c == '{' {
        r := ParseJsonObject(nesting + 1);
      } else if c == '[' {
        r := ParseJsonArray(nesting + 1);
      } else if c == '\"' {
        var s := GetQuotedString();
        r := if s.Some? then Some(Str(s.value)) else None;
      } else if c == 't' || c == 'f' {
        r := ParseJsonBoolean();
      } else if c == '-' || IsDigit(c) {
        var number := ParseNumber(lib, text, pos);
        if number.Fail? {
          return None;
        }
        pos := number.next;
        r := Some(number.value);
      } else if c == 'n' {
        r := ParseJsonNull();
      } else {
        r := None;
      }
    }

    /** A method result agrees with what the specification says about the position the method started from. */
    ghost predicate Yields(start: nat, spec: Parsed<Json>, r: Option<Json>)
      reads this
    {
      && (r.None? <==> spec.Fail?)
      && (r.Some? ==> spec == Ok(r.value, pos))
    }

    method ParseJsonBoolean() returns (r: Option<Json>)
      requires Valid() && (At(text, pos) == 't' || At(text, pos) == 'f')
      modifies this
      ensures Valid()
      ensures Yields(old(pos), if text[old(pos)] == 't' then ParseWord(text, old(pos), "true", Bool(true))
                               else ParseWord(text, old(pos), "false", Bool(false)), r)
    {
      if StartsWith(text, pos, "true") {
        StartsWithAt(text, pos, "true", 0);
        pos := pos + 4;
        return Some(Bool(true));
      } else if StartsWith(text, pos, "false") {
        StartsWithAt(text, pos, "false", 0);
        pos := pos + 5;
        return Some(Bool(false));
      }
      return None;
    }

    method ParseJsonNull() returns (r: Option<Json>)
      requires Valid()
      modifies this
      ensures Valid() && Yields(old(pos), ParseWord(text, old(pos), "null", Null), r)
    {
      if StartsWith(text, pos, "null") {
        pos := pos + 4;
        return Some(Null);
      }
      return None;
    }

    method ParseJsonArray(nesting: nat) returns (r: Option<Json>)
      requires Valid() && At(text, pos) == '['
      modifies this
      ensures Valid() && Yields(old(pos), ParseArray(lib, text, old(pos), nesting), r)
      decreases |text| - pos, 1
    {
      hide SkipSpaces, ParseValue;
      ghost var start := pos;
      pos := pos + 1;
      SkipWhitespaces();
      if At(text, pos) == ']' {
        pos := pos + 1;
        return Some(Arr([]));
      }
      var items := [];
      while At(text, pos) != NUL
        invariant Valid() && start < pos
        invariant ParseItems(lib, text, pos, nesting, items) == ParseArray(lib, text, start, nesting)
        decreases |text| - pos
      {
        var item := ParseJson(nesting);
        if item.None? {
          return None;
        }
        items := items + [item.value];
        ghost var next := pos;
        SkipWhitespaces();
        SkipTwice(text, next);
        if At(text, pos) != ',' {
          break;
        }
        pos := pos + 1;
        SkipWhitespaces();
      }
      TerminatorIsNotSpace(text, pos);
      SkipWhitespaces();
      if At(text, pos) != ']' || |items| == 0 {
        return None;
      }
      pos := pos + 1;
      return Some(Arr(items));
    }

    method ParseJsonObject(nesting: nat) returns (r: Option<Json>)
      requires Valid() && At(text, pos) == '{'
      modifies this
      ensures Valid() && Yields(old(pos), ParseObject(lib, text, old(pos), nesting), r)
      decreases |text| - pos, 1
    {
      hide SkipSpaces, ParseField;
      ghost var start := pos;
      pos := pos + 1;
      SkipWhitespaces();
      if At(text, pos) == '}' {
        pos := pos + 1;
        return Some(Obj([]));
      }
      var fields := [];
      while At(text, pos) != NUL
        invariant Valid() && start < pos
        invariant ParseFields(lib, text, pos, nesting, fields) == ParseObject(lib, text, start, nesting)
        decreases |text| - pos
      {
        var field := ParseJsonField(nesting);
        if field.None? || HasName(fields, field.value.name) {
          return None;
        }
        fields := fields + [field.value];
        ghost var next := pos;
        SkipWhitespaces();
        SkipTwice(text, next);
        if At(text, pos) != ',' {
          break;
        }
        pos := pos + 1;
        SkipWhitespaces();
      }
      TerminatorIsNotSpace(text, pos);
      SkipWhitespaces();
      if At(text, pos) != '}' || |fields| == 0 {
        return None;
      }
      pos := pos + 1;
      return Some(Obj(fields));
    }

    /** The first half of the loop body of parse_object_value. */
    method ParseJsonField(nesting: nat) returns (r: Option<Field>)
      requires Valid()
      modifies this
      ensures Valid()
      ensures r.None? <==> ParseField(lib, text, old(pos), nesting).Fail?
      ensures r.Some? ==> ParseField(lib, text, old(pos), nesting) == Ok(r.value, pos)
      decreases |text| - pos, 3
    {
      hide SkipSpaces, QuotedString, ParseValue;
      var name := GetQuotedString();
      if name.None? {
        return None;
      }
      SkipWhitespaces();
      if At(text, pos) != ':' {
        return None;
      }
      pos := pos + 1;
      var value := ParseJson(nesting);
      if value.None? {
        return None;
      }
      return Some(Field(name.value, value.value));
    }
  }

  /** json_parse_string. */
  method ParseString(lib: LibC, text: string) returns (r: Option<Json>)
    ensures r == match ParseText(lib, text) case Fail => None case Ok(v, _) => Some(v)
  {
    hide ParseValue;
    var parser := new Parser(lib, text);
    if StartsWith(text, 0, BOM) {
      parser.pos := 3;
    }
    r := parser.ParseJson(0);
  }

  lemma {:induction false} SkipTwice(text: string, pos: nat)
    requires pos <= |text|
    ensures SkipSpaces(text, SkipSpaces(text, pos)) == SkipSpaces(text, pos)
    decreases |text| - pos
  {
    if pos < |text| && IsSpace(text[pos]) {
      SkipTwice(text, pos + 1);
    }
  }

  lemma TerminatorIsNotSpace(text: string, pos: nat)
    requires pos <= |text|
    ensures At(text, pos) == NUL ==> SkipSpaces(text, pos) == pos
  {
  }

  // ---- Unescaping into a buffer ----

  /** The byte stores of parse_utf16 for one code point. */
  method WriteUtf8(cp: nat, output: array<char>, at: nat) returns (last: nat)
    requires cp <= 0x10FFFF && at + |Utf8Bytes(cp)| <= output.Length
    modifies output
    ensures last + 1 == at + |Utf8Bytes(cp)|
    ensures output[..last + 1] == old(output[..at]) + Utf8Bytes(cp)
    ensures forall k :: last < k < output.Length ==> output[k] == old(output[k])
  {
    last := at;
    if cp < 0x80 {
      output[at] := cp as char;
    } else if cp < 0x800 {
      output[at] := (cp / 64 % 32 + 0xC0) as char;
      output[at + 1] := (cp % 64 + 0x80) as char;
      last := at + 1;
    } else if cp < 0x10000 {
      output[at] := (cp / 4096 % 16 + 0xE0) as char;
      output[at + 1] := (cp / 64 % 64 + 0x80) as char;
      output[at + 2] := (cp % 64 + 0x80) as char;
      last := at + 2;
    } else {
      output[at] := (cp / 262144 % 8 + 0xF0) as char;
      output[at + 1] := (cp / 4096 % 64 + 0x80) as char;
      output[at + 2] := (cp / 64 % 64 + 0x80) as char;
      output[at + 3] := (cp % 64 + 0x80) as char;
      last := at + 3;
    }
  }

  /** parse_utf16: writes the UTF-8 bytes at `processed` and leaves both cursors on the last byte read and written. */
  method ParseUtf16(text: string, unprocessed: nat, output: array<char>, processed: nat)
    returns (ok: bool, lastRead: nat, lastWritten: nat)
    requires unprocessed < |text| && text[unprocessed] == 'u'
    requires match Utf16Piece(text, unprocessed) case BadPiece => true
      case Piece(bytes, _) => processed + |bytes| <= output.Length
    modifies output
    ensures ok <==> Utf16Piece(text, unprocessed).Piece?
    ensures match Utf16Piece(text, unprocessed)
      case BadPiece => output[..] == old(output[..])
      case Piece(bytes, next) =>
        && lastRead + 1 == next && lastWritten + 1 == processed + |bytes|
        && output[..lastWritten + 1] == old(output[..processed]) + bytes
        && forall k :: lastWritten < k < output.Length ==> output[k] == old(output[k])
  {
    hide Hex4;
    lastRead, lastWritten := unprocessed, processed;
    var cp;
    ok, cp, lastRead := DecodeUtf16(text, unprocessed);
    hide Utf8Bytes, Utf16Piece;
    if ok {
      lastWritten := WriteUtf8(cp, output, processed);
    }
  }

  /** The code point of an escape or surrogate pair, and the position of its last digit. */
  method DecodeUtf16(text: string, unprocessed: nat) returns (ok: bool, cp: nat, last: nat)
    requires unprocessed < |text| && text[unprocessed] == 'u'
    ensures ok <==> Utf16Piece(text, unprocessed).Piece?
    ensures ok ==> cp <= 0x10FFFF && Utf16Piece(text, unprocessed) == Piece(Utf8Bytes(cp), last + 1)
  {
    var hex := unprocessed + 1;
    last, cp := unprocessed, 0;
    var first := Hex4(text, hex);
    if first.None? {
      return false, cp, last;
    }
    hide Hex4, Utf8Bytes;
    cp := first.value;
    if 0xD800 <= cp <= 0xDBFF {
      var lead := cp;
      hex := hex + 4;
      if At(text, hex) != '\\' || At(text, hex + 1) != 'u' {
        return false, cp, last;
      }
      hex := hex + 2;
      var second := Hex4(text, hex);
      if second.None? || second.value < 0xDC00 || second.value > 0xDFFF {
        return false, cp, last;
      }
      cp := (lead - 0xD800) * 1024 + (second.value - 0xDC00) + 0x10000;
    } else if 0xDC00 <= cp <= 0xDFFF {
      return false, cp, last;
    }
    return true, cp, hex + 3;
  }

  function Prepend(written: string, rest: Processed): Processed {
    match rest
    case Bad => Bad
    case Done(output, stop) => Done(written + output, stop)
  }

  lemma PrependTwice(a: string, b: string, rest: Processed)
    ensures Prepend(a, Prepend(b, rest)) == Prepend(a + b, rest)
    ensures Prepend("", rest) == rest
  {
    if rest.Done? {
      Associate(a, b, rest.output);
      assert "" + rest.output == rest.output;
    }
  }

  lemma PrependBad(written: string)
    ensures Prepend(written, Bad) == Bad
  {
  }

  lemma ProcessStep(text: string, pos: nat, end: nat)
    requires pos < end && pos < |text| && text[pos] != NUL
    ensures Process(text, pos, end)
      == if NextPiece(text, pos).BadPiece? then Bad
         else Prepend(NextPiece(text, pos).bytes, Process(text, NextPiece(text, pos).next, end))
  {
    hide NextPiece;
  }

  lemma ProcessEnds(text: string, pos: nat, end: nat, written: string)
    requires pos <= |text| && (At(text, pos) == NUL || pos >= end)
    ensures Prepend(written, Process(text, pos, end)) == Done(written, pos)
  {
    assert written + "" == written;
  }

  /**
   * process_string with its scratch buffer of `length + 1` bytes: no write leaves the buffer and no read passes the
   * closing quote.
   */
  method ProcessString(text: string, start: nat, length: nat) returns (r: Option<string>)
    requires start + length < |text| && SkipBody(text, start) == Some(start + length + 1)
    ensures r == match Process(text, start, start + length) case Bad => None
      case Done(output, _) => Some(UpToNul(output))
  {
    var output := new char[length + 1];
    var end := start + length;
    var input: nat, written: nat := start, 0;
    PrependTwice("", "", Process(text, start, end));
    hide SkipBody, NextPiece, UpToNul, Process, Prepend;
    while At(text, input) != NUL && input - start < length
      invariant start <= input <= end && written <= input - start
      invariant SkipBody(text, input) == Some(end + 1)
      invariant Process(text, start, end) == Prepend(output[..written], Process(text, input, end))
      decreases end - input
    {
      ghost var (before, from) := (output[..written], input);
      ProcessOneMore(before, text, from, end);
      var ok;
      ok, input, written := ProcessOne(text, input, output, written, end);
      if !ok {
        return None;
      }
    }
    ProcessEnds(text, input, end, output[..written]);
    output[written] := NUL;
    r := Some(UpToNul(output[..written]));
  }

  /** What has been written and what is still to be processed, before and after one piece. */
  lemma ProcessOneMore(before: string, text: string, from: nat, end: nat)
    requires from < end && from < |text| && text[from] != NUL
    ensures var piece := NextPiece(text, from);
      Prepend(before, Process(text, from, end)) ==
        if piece.BadPiece? then Bad else Prepend(before + piece.bytes, Process(text, piece.next, end))
  {
    ProcessStep(text, from, end);
    PrependBad(before);
    hide Process, Prepend;
    var piece := NextPiece(text, from);
    hide NextPiece;
    if piece.Piece? {
      PrependTwice(before, piece.bytes, Process(text, piece.next, end));
    }
  }

  /** The loop body of process_string. */
  method ProcessOne(text: string, from: nat, output: array<char>, at: nat, end: nat)
    returns (ok: bool, input: nat, written: nat)
    requires from < end < |text| && SkipBody(text, from) == Some(end + 1)
    requires at + (end - from) < output.Length
    modifies output
    ensures ok <==> NextPiece(text, from).Piece?
    ensures match NextPiece(text, from)
      case BadPiece => true
      case Piece(bytes, next) =>
        && input == next <= end && SkipBody(text, next) == Some(end + 1)
        && written == at + |bytes| && written - at <= next - from && output[..written] == old(output[..at]) + bytes
  {
    hide Utf16Piece, SkipBody;
    if NextPiece(text, from).Piece? {
      PieceStaysInside(text, from, end);
    }
    ok, input, written := true, from, at;
    if text[input] == '\\' {
      input := input + 1;
      var c := At(text, input);
      if c == 'u' {
        ok, input, written := ParseUtf16(text, input, output, written);
      } else if SimpleEscape(c).Some? {
        output[written] := SimpleEscape(c).value;
      } else {
        ok := false;
      }
    } else if text[input] < ' ' {
      ok := false;
    } else {
      output[written] := text[input];
    }
    if ok {
      input, written := input + 1, written + 1;
    }
  }
}
