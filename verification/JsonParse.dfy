/** What Parson's parser computes, as functions of the text and a position in it. */
module JsonParse {
  import opened CString
  import opened JsonValue

  /** A NULL return, or a value and the position of the cursor after it. */
  datatype Parsed<+T> = Fail | Ok(value: T, next: nat)

  predicate IsSpace(c: char) {
    c == ' ' || c == '\t' || c == '\n' || c == 11 as char || c == 12 as char || c == '\r'
  }

  predicate IsDigit(c: char) {
    '0' <= c <= '9'
  }

  function SkipSpaces(text: string, pos: nat): (r: nat)
    requires pos <= |text|
    ensures pos <= r <= |text|
    decreases |text| - pos
  {
    if pos < |text| && IsSpace(text[pos]) then SkipSpaces(text, pos + 1) else pos
  }

  // ---- Strings ----

  /** The position just past the closing quote that skip_quotes finds when it scans from `pos` inside a string. */
  function SkipBody(text: string, pos: nat): (r: Option<nat>)
    requires pos <= |text|
    ensures r.Some? ==> pos < r.value <= |text| && text[r.value - 1] == '\"'
    decreases |text| - pos
  {
    var c := At(text, pos);
    if c == '\"' then Some(pos + 1)
    else if c == NUL then None
    else if c == '\\' then
      if At(text, pos + 1) == NUL then None else SkipBody(text, pos + 2)
    else SkipBody(text, pos + 1)
  }

  function SkipQuotes(text: string, pos: nat): (r: Option<nat>)
    requires pos <= |text|
    ensures r.Some? ==> pos + 1 < r.value <= |text|
  {
    if At(text, pos) != '\"' then None else SkipBody(text, pos + 1)
  }

  function HexValue(c: char): int {
    if '0' <= c <= '9' then c as int - '0' as int
    else if 'a' <= c <= 'f' then c as int - 'a' as int + 10
    else if 'A' <= c <= 'F' then c as int - 'A' as int + 10
    else -1
  }

  /** Four hexadecimal digits at `pos`, none of them past the terminator. */
  function Hex4(text: string, pos: nat): (r: Option<nat>)
    requires pos <= |text|
    ensures r.Some? ==> pos + 4 <= |text| && r.value < 0x10000
    ensures r.Some? ==> forall k :: pos <= k < pos + 4 ==> HexValue(text[k]) != -1
  {
    if At(text, pos) == NUL || At(text, pos + 1) == NUL || At(text, pos + 2) == NUL || At(text, pos + 3) == NUL
      then None
    else
      var (x1, x2, x3, x4) := (HexValue(text[pos]), HexValue(text[pos + 1]), HexValue(text[pos + 2]),
                               HexValue(text[pos + 3]));
      if x1 == -1 || x2 == -1 || x3 == -1 || x4 == -1 then None
      else Some(x1 * 4096 + x2 * 256 + x3 * 16 + x4)
  }

  /** One step of process_string: the bytes it writes and the position it reads next. */
  datatype Piece = BadPiece | Piece(bytes: string, next: nat)

  /** The bytes parse_utf16 writes for a code point; a lone surrogate writes none. */
  function Utf8Bytes(cp: nat): string
    requires cp <= 0x10FFFF
  {
    if cp < 0x80 then [cp as char]
    else if cp < 0x800 then [(cp / 64 % 32 + 0xC0) as char, (cp % 64 + 0x80) as char]
    else if cp < 0x10000 then
      [(cp / 4096 % 16 + 0xE0) as char, (cp / 64 % 64 + 0x80) as char, (cp % 64 + 0x80) as char]
    else
      [(cp / 262144 % 8 + 0xF0) as char, (cp / 4096 % 64 + 0x80) as char,
       (cp / 64 % 64 + 0x80) as char, (cp % 64 + 0x80) as char]
  }

  /** parse_utf16 with its cursor on the `u` of an escape. */
  function Utf16Piece(text: string, pos: nat): (r: Piece)
    requires pos < |text|
    ensures r.Piece? ==> r.next == pos + 5 || r.next == pos + 11
    ensures r.Piece? ==> r.next <= |text| && |r.bytes| < r.next - pos
  {
    match Hex4(text, pos + 1)
    case None => BadPiece
    case Some(cp) =>
      if cp < 0xD800 || cp > 0xDFFF then Piece(Utf8Bytes(cp), pos + 5)
      else if cp <= 0xDBFF then
        if At(text, pos + 5) != '\\' || At(text, pos + 6) != 'u' then BadPiece
        else
          match Hex4(text, pos + 7)
          case None => BadPiece
          case Some(trail) =>
            if trail < 0xDC00 || trail > 0xDFFF then BadPiece
            else Piece(Utf8Bytes((cp - 0xD800) * 1024 + (trail - 0xDC00) + 0x10000), pos + 11)
      else BadPiece
  }

  function SimpleEscape(c: char): Option<char> {
    if c == '\"' || c == '\\' || c == '/' then Some(c)
    else if c == 'b' then Some(8 as char)
    else if c == 'f' then Some(12 as char)
    else if c == 'n' then Some('\n')
    else if c == 'r' then Some('\r')
    else if c == 't' then Some('\t')
    else None
  }

  function NextPiece(text: string, pos: nat): (r: Piece)
    requires pos < |text|
    ensures r.Piece? ==> pos < r.next <= |text| && |r.bytes| <= r.next - pos
  {
    if text[pos] == '\\' then
      if At(text, pos + 1) == 'u' then Utf16Piece(text, pos + 1)
      else
        match SimpleEscape(At(text, pos + 1))
        case None => BadPiece
        case Some(c) => Piece([c], pos + 2)
    else if text[pos] < ' ' then BadPiece
    else Piece([text[pos]], pos + 1)
  }

  /** What process_string writes from `pos` until its cursor reaches `end` or a terminator, and where it stops. */
  datatype Processed = Bad | Done(output: string, stop: nat)

  function Process(text: string, pos: nat, end: nat): (r: Processed)
    requires pos <= |text|
    ensures r.Done? ==> pos <= r.stop <= |text|
    ensures r.Done? ==> |r.output| <= r.stop - pos
    decreases |text| - pos
  {
    if At(text, pos) == NUL || pos >= end then Done("", pos)
    else
      var piece := NextPiece(text, pos);
      if piece.BadPiece? then Bad
      else
        match Process(text, piece.next, end)
        case Bad => Bad
        case Done(rest, stop) => Done(piece.bytes + rest, stop)
  }

  /** get_quoted_string: find the closing quote, then unescape what lies between the quotes. */
  function QuotedString(text: string, pos: nat): (r: Parsed<string>)
    requires pos <= |text|
    ensures r.Ok? ==> pos + 1 < r.next <= |text| && NulFree(r.value)
  {
    match SkipQuotes(text, pos)
    case None => Fail
    case Some(next) =>
      match Process(text, pos + 1, next - 1)
      case Bad => Fail
      case Done(output, _) => Ok(UpToNul(output), next)
  }

  // ---- Numbers ----

  function DigitsEnd(text: string, pos: nat): (r: nat)
    requires pos <= |text|
    ensures pos <= r <= |text|
    ensures forall k :: pos <= k < r ==> IsDigit(text[k])
    ensures r < |text| ==> !IsDigit(text[r])
    decreases |text| - pos
  {
    if pos < |text| && IsDigit(text[pos]) then DigitsEnd(text, pos + 1) else pos
  }

  function DigitsValue(s: string): nat {
    if s == "" then 0
    else DigitsValue(s[..|s| - 1]) * 10 + (if IsDigit(s[|s| - 1]) then s[|s| - 1] as int - '0' as int else 0)
  }

  /**
   * strtoull(text + pos, &end, 10): where it stops, and its value unless it set ERANGE. A minus sign negates modulo
   * 2^64.
   */
  function Strtoull(text: string, pos: nat): (r: (nat, Option<nat>))
    requires pos <= |text|
    ensures r.1.Some? ==> r.1.value <= UINT64_MAX
  {
    var start := SkipSpaces(text, pos);
    var signed := At(text, start) == '-' || At(text, start) == '+';
    var first := if signed then start + 1 else start;
    var end := DigitsEnd(text, first);
    if end == first then (pos, Some(0))
    else
      var value := DigitsValue(text[first..end]);
      if value > UINT64_MAX then (end, None)
      else if At(text, start) == '-' && value > 0 then (end, Some(UINT64_MAX + 1 - value))
      else (end, Some(value))
  }

  /** is_decimal: no superfluous leading zero and no hexadecimal marker. */
  predicate IsDecimal(token: string) {
    && !(|token| > 1 && token[0] == '0' && token[1] != '.')
    && !(|token| > 2 && token[0] == '-' && token[1] == '0' && token[2] != '.')
    && 'x' !in token && 'X' !in token
  }

  /**
   * parse_number_value. When neither library call consumes anything ("-" alone) the value is 0 and the cursor stays.
   */
  function ParseNumber(lib: LibC, text: string, pos: nat): (r: Parsed<Json>)
    requires pos <= |text|
    ensures r.Ok? ==> pos <= r.next <= |text|
    ensures r.Ok? ==> r.value.Uint? || r.value.Number?
    ensures r.Ok? && r.value.Uint? ==> r.value.n <= UINT64_MAX
  {
    var d := lib.strtod(text, pos);
    // strtod stays inside the string it is given
    var stop := if pos + d.length <= |text| then pos + d.length else |text|;
    if !d.clean || !IsDecimal(text[pos..stop]) then Fail
    else
      var (end, value) := Strtoull(text, pos);
      if value.Some? && end == stop then Ok(Uint(value.value), stop) else Ok(Number(d.value), stop)
  }

  // ---- Values ----

  function ParseWord(text: string, pos: nat, word: string, value: Json): (r: Parsed<Json>)
    ensures r.Ok? ==> r.value == value && r.next == pos + |word| <= |text|
  {
    if StartsWith(text, pos, word) then Ok(value, pos + |word|) else Fail
  }

  /** parse_value. The nesting starts at 0; below 0 it describes a parser that allows more than MAX_NESTING levels. */
  function ParseValue(lib: LibC, text: string, pos: nat, nesting: int): (r: Parsed<Json>)
    requires pos <= |text|
    ensures r.Ok? ==> pos <= r.next <= |text|
    decreases |text| - pos, 2
  {
    if nesting > MAX_NESTING then Fail
    else
      var start := SkipSpaces(text, pos);
      var c := At(text, start);
      if c == '{' then ParseObject(lib, text, start, nesting + 1)
      else if c == '[' then ParseArray(lib, text, start, nesting + 1)
      else if c == '\"' then
        match QuotedString(text, start)
        case Fail => Fail
        case Ok(s, next) => Ok(Str(s), next)
      else if c == 't' then ParseWord(text, start, "true", Bool(true))
      else if c == 'f' then ParseWord(text, start, "false", Bool(false))
      else if c == '-' || IsDigit(c) then ParseNumber(lib, text, start)
      else if c == 'n' then ParseWord(text, start, "null", Null)
      else Fail
  }

  function ParseArray(lib: LibC, text: string, pos: nat, nesting: int): (r: Parsed<Json>)
    requires pos < |text| && text[pos] == '['
    ensures r.Ok? ==> pos < r.next <= |text|
    decreases |text| - pos, 1
  {
    var first := SkipSpaces(text, pos + 1);
    if At(text, first) == ']' then Ok(Arr([]), first + 1) else ParseItems(lib, text, first, nesting, [])
  }

  /** The loop of parse_array_value, entered at `pos` with the elements read so far. */
  function ParseItems(lib: LibC, text: string, pos: nat, nesting: int, acc: seq<Json>): (r: Parsed<Json>)
    requires pos <= |text|
    ensures r.Ok? ==> pos < r.next <= |text|
    decreases |text| - pos, 3
  {
    if At(text, pos) == NUL then Fail
    else
      match ParseValue(lib, text, pos, nesting)
      case Fail => Fail
      case Ok(item, next) =>
        var after := SkipSpaces(text, next);
        if At(text, after) == ',' then ParseItems(lib, text, SkipSpaces(text, after + 1), nesting, acc + [item])
        else if At(text, after) == ']' then Ok(Arr(acc + [item]), after + 1)
        else Fail
  }

  function ParseObject(lib: LibC, text: string, pos: nat, nesting: int): (r: Parsed<Json>)
    requires pos < |text| && text[pos] == '{'
    ensures r.Ok? ==> pos < r.next <= |text|
    decreases |text| - pos, 1
  {
    var first := SkipSpaces(text, pos + 1);
    if At(text, first) == '}' then Ok(Obj([]), first + 1) else ParseFields(lib, text, first, nesting, [])
  }

  /** One round of the loop of parse_object_value: a quoted name, a colon and a value. */
  function ParseField(lib: LibC, text: string, pos: nat, nesting: int): (r: Parsed<Field>)
    requires pos <= |text|
    ensures r.Ok? ==> pos < r.next <= |text|
    decreases |text| - pos, 3
  {
    match QuotedString(text, pos)
    case Fail => Fail
    case Ok(name, next) =>
      var colon := SkipSpaces(text, next);
      if At(text, colon) != ':' then Fail
      else
        match ParseValue(lib, text, colon + 1, nesting)
        case Fail => Fail
        case Ok(value, end) => Ok(Field(name, value), end)
  }

  function ParseFields(lib: LibC, text: string, pos: nat, nesting: int, acc: seq<Field>): (r: Parsed<Json>)
    requires pos <= |text|
    ensures r.Ok? ==> pos < r.next <= |text|
    decreases |text| - pos, 4
  {
    if At(text, pos) == NUL then Fail
    else
      match ParseField(lib, text, pos, nesting)
      case Fail => Fail
      case Ok(field, next) =>
        if HasName(acc, field.name) then Fail
        else
          var after := SkipSpaces(text, next);
          if At(text, after) == ',' then ParseFields(lib, text, SkipSpaces(text, after + 1), nesting, acc + [field])
          else if At(text, after) == '}' then Ok(Obj(acc + [field]), after + 1)
          else Fail
  }

  /** The UTF-8 byte order mark. */
  const BOM: string := [0xEF as char, 0xBB as char, 0xBF as char]

  /** json_parse_string: an optional byte order mark, then one value; the rest of the text is ignored. */
  function ParseText(lib: LibC, text: string): (r: Parsed<Json>)
    ensures r.Ok? ==> r.next <= |text|
  {
    ParseValue(lib, text, if StartsWith(text, 0, BOM) then 3 else 0, 0)
  }
}
