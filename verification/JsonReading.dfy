/** Every spelling of a value is read as that value, up to the last byte of its text and no further. */
module JsonReading {
  import opened CString
  import opened JsonValue
  import opened JsonParse
  import G = JsonGrammar

  // ---- The parser's tests against the tables ----

  lemma SpaceIsInTable(c: char)
    ensures IsSpace(c) <==> c in G.SPACES
  {
    var odd := [11 as char, 12 as char];
    assert c in odd <==> c == 11 as char || c == 12 as char;
    assert c in " \t\n\r" <==> c == ' ' || c == '\t' || c == '\n' || c == '\r';
  }

  lemma DigitIsInTable(c: char)
    ensures IsDigit(c) <==> c in G.DIGITS
    ensures IsDigit(c) ==> G.Place(G.DIGITS, c) == c as int - '0' as int
  {
    forall i | 0 <= i < 10
      ensures G.DIGITS[i] == ('0' as int + i) as char
    {
    }
    if IsDigit(c) {
      assert G.DIGITS[c as int - '0' as int] == c;
    }
  }

  lemma HexTables(d: nat)
    requires d < 16
    ensures G.LOWER_HEX[d] == if d < 10 then ('0' as int + d) as char else ('a' as int + d - 10) as char
    ensures G.UPPER_HEX[d] == if d < 10 then ('0' as int + d) as char else ('A' as int + d - 10) as char
  {
  }

  lemma HexInTable(c: char)
    ensures G.IsHex(c) <==> HexValue(c) != -1
    ensures G.IsHex(c) ==> G.HexDigit(c) == HexValue(c)
    ensures G.IsHex(c) ==> c != '\"' && c != '\\' && c != NUL
  {
    hide G.LOWER_HEX, G.UPPER_HEX;
    assert |G.LOWER_HEX| == 16 && |G.UPPER_HEX| == 16 by {
      TablesAreFull();
    }
    forall d: nat | d < 16
      ensures G.LOWER_HEX[d] == if d < 10 then ('0' as int + d) as char else ('a' as int + d - 10) as char
      ensures G.UPPER_HEX[d] == if d < 10 then ('0' as int + d) as char else ('A' as int + d - 10) as char
    {
      HexTables(d);
    }
    var v := HexValue(c);
    if v != -1 {
      assert c == G.LOWER_HEX[v] || c == G.UPPER_HEX[v];
    }
  }

  lemma TablesAreFull()
    ensures |G.LOWER_HEX| == 16 && |G.UPPER_HEX| == 16
  {
  }

  lemma EscapeIsInTable(c: char)
    ensures SimpleEscape(c).Some? <==> c in G.ESCAPES
    ensures c in G.ESCAPES ==> SimpleEscape(c) == Some(G.MEANT[G.Place(G.ESCAPES, c)])
    ensures c in G.ESCAPES ==> c != NUL && c != 'u'
  {
    var (e, m) := (G.ESCAPES, G.MEANT);
    assert e[0] == '\"' && e[1] == '\\' && e[2] == '/' && e[3] == 'b' && e[4] == 'f' && e[5] == 'n' && e[6] == 'r'
        && e[7] == 't' && |e| == 8;
    assert m[0] == '\"' && m[1] == '\\' && m[2] == '/' && m[3] == 8 as char && m[4] == 12 as char && m[5] == '\n'
        && m[6] == '\r' && m[7] == '\t' && |m| == 8;
  }

  /** The bytes written for a code point are its UTF-8 encoding. */
  lemma BytesAreEncoding(cp: nat)
    requires cp <= 0x10FFFF
    ensures Utf8Bytes(cp) == G.Encoding(cp)
  {
    var (a, b, c) := (cp / 64, cp / 64 / 64, cp / 64 / 64 / 64);
    SixBits(cp);
    ContinuedIs(cp);
    assert G.Leading(cp, 1) == a;
    assert G.Leading(cp, 2) == G.Leading(a, 1) == b;
    assert G.Leading(cp, 3) == G.Leading(a, 2) == G.Leading(b, 1) == c;
    hide G.Continued, G.Leading;
    var (x, y, z) := ((0x80 + cp % 64) as char, (0x80 + a % 64) as char, (0x80 + b % 64) as char);
    if 0x800 <= cp < 0x10000 {
      assert [(0xE0 + b) as char] + [y, x] == [(0xE0 + b) as char, y, x];
    } else if 0x10000 <= cp {
      assert [(0xF0 + c) as char] + [z, y, x] == [(0xF0 + c) as char, z, y, x];
    }
  }

  lemma SixBits(cp: nat)
    requires cp <= 0x10FFFF
    ensures cp / 4096 == cp / 64 / 64 && cp / 262144 == cp / 64 / 64 / 64
    ensures cp < 0x800 ==> cp / 64 % 32 == cp / 64
    ensures cp < 0x10000 ==> cp / 4096 % 16 == cp / 4096
    ensures cp / 262144 % 8 == cp / 262144
  {
  }

  lemma ContinuedIs(cp: nat)
    ensures var (x, y, z) :=
        ((0x80 + cp % 64) as char, (0x80 + cp / 64 % 64) as char, (0x80 + cp / 64 / 64 % 64) as char);
      G.Continued(cp, 1) == [x] && G.Continued(cp, 2) == [y, x] && G.Continued(cp, 3) == [z, y, x]
  {
    var (a, b) := (cp / 64, cp / 64 / 64);
    assert G.Continued(b, 1) == G.Continued(b / 64, 0) + [(0x80 + b % 64) as char];
    assert G.Continued(a, 1) == G.Continued(b, 0) + [(0x80 + a % 64) as char];
    assert G.Continued(a, 2) == G.Continued(b, 1) + [(0x80 + a % 64) as char];
    assert G.Continued(cp, 1) == G.Continued(a, 0) + [(0x80 + cp % 64) as char];
    assert G.Continued(cp, 2) == G.Continued(a, 1) + [(0x80 + cp % 64) as char];
    assert G.Continued(cp, 3) == G.Continued(a, 2) + [(0x80 + cp % 64) as char];
  }

  // ---- White space ----

  lemma {:induction false} SkipGap(text: string, pos: nat, gap: string)
    requires StartsWith(text, pos, gap) && G.IsGap(gap)
    ensures SkipSpaces(text, pos) == SkipSpaces(text, pos + |gap|)
    decreases |gap|
  {
    hide StartsWith, IsSpace;
    if gap != "" {
      SpaceIsInTable(gap[0]);
      assert gap[0] in gap && forall c <- gap[1..] :: c in gap;
      assert gap == [gap[0]] + gap[1..];
      StartsWithConcat(text, pos, [gap[0]], gap[1..]);
      StartsWithAt(text, pos, gap, 0);
      SkipGap(text, pos + 1, gap[1..]);
    } else {
      StartsWithConcat(text, pos, "", "");
    }
  }

  lemma NoSpace(text: string, pos: nat)
    requires pos < |text| && !IsSpace(text[pos])
    ensures SkipSpaces(text, pos) == pos
  {
  }

  /** A gap and then a character that is no space: the cursor stops on it. */
  lemma SkipTo(text: string, pos: nat, gap: string, rest: string)
    requires StartsWith(text, pos, gap + rest) && G.IsGap(gap) && rest != "" && !IsSpace(rest[0])
    ensures var at := pos + |gap|;
      at < |text| && SkipSpaces(text, pos) == at && text[at] == rest[0] && StartsWith(text, at, rest)
  {
    StartsWithConcat(text, pos, gap, rest);
    SkipGap(text, pos, gap);
    StartsWithAt(text, pos + |gap|, rest, 0);
    NoSpace(text, pos + |gap|);
  }

  // ---- Strings ----

  lemma HexIsRead(text: string, pos: nat, hex: string)
    requires G.IsHex4(hex) && StartsWith(text, pos, hex)
    ensures Hex4(text, pos) == Some(G.Hex4(hex)) && SkipBody(text, pos) == SkipBody(text, pos + 4)
  {
    hide G.IsHex, G.HexDigit, HexValue, StartsWith, SkipBody;
    HexDigitAt(text, pos, hex, 0);
    HexDigitAt(text, pos, hex, 1);
    HexDigitAt(text, pos, hex, 2);
    HexDigitAt(text, pos, hex, 3);
  }

  lemma HexDigitAt(text: string, pos: nat, hex: string, k: nat)
    requires |hex| == 4 && StartsWith(text, pos, hex) && k < 4 && G.IsHex(hex[k])
    ensures pos + k < |text| && text[pos + k] == hex[k] && text[pos + k] != NUL
    ensures HexValue(text[pos + k]) == G.HexDigit(hex[k]) != -1
    ensures SkipBody(text, pos + k) == SkipBody(text, pos + k + 1)
  {
    StartsWithAt(text, pos, hex, k);
    HexInTable(hex[k]);
    hide G.IsHex, G.HexDigit, HexValue;
  }

  /** Both scanners take one spelled character, and unescaping writes its bytes. */
  lemma CharIsRead(text: string, pos: nat, ch: G.SpelledChar)
    requires G.CharIsValid(ch) && StartsWith(text, pos, G.CharText(ch))
    ensures var next := pos + |G.CharText(ch)|;
      && pos < next <= |text| && text[pos] != NUL && text[pos] != '"'
      && NextPiece(text, pos) == Piece(G.CharBytes(ch), next) && SkipBody(text, pos) == SkipBody(text, next)
  {
    hide StartsWith, NextPiece, SkipBody, G.IsHex, G.Hex4, G.Encoding;
    match ch
    case Plain(c) => PlainIsRead(text, pos, c);
    case Escaped(c) => TwoCharactersAreRead(text, pos, c);
    case Unicode(hex) =>
      assert "\\u" + hex + "" == "\\u" + hex;
      EscapeIsRead(text, pos, hex, "");
    case Surrogates(high, low) => PairIsRead(text, pos, high, low);
  }

  lemma PlainIsRead(text: string, pos: nat, c: char)
    requires c >= ' ' && c != '"' && c != '\\' && StartsWith(text, pos, [c])
    ensures pos < |text| && text[pos] == c && NextPiece(text, pos) == Piece([c], pos + 1)
    ensures SkipBody(text, pos) == SkipBody(text, pos + 1)
  {
    StartsWithAt(text, pos, [c], 0);
  }

  lemma TwoCharactersAreRead(text: string, pos: nat, c: char)
    requires c in G.ESCAPES && StartsWith(text, pos, "\\" + [c])
    ensures pos + 2 <= |text| && text[pos] == '\\'
    ensures NextPiece(text, pos) == Piece([G.MEANT[G.Place(G.ESCAPES, c)]], pos + 2)
    ensures SkipBody(text, pos) == SkipBody(text, pos + 2)
  {
    StartsWithAt(text, pos, "\\" + [c], 0);
    StartsWithAt(text, pos, "\\" + [c], 1);
    EscapeIsInTable(c);
    hide SimpleEscape, G.Place;
  }

  lemma PairIsRead(text: string, pos: nat, high: string, low: string)
    requires G.CharIsValid(G.Surrogates(high, low)) && StartsWith(text, pos, "\\u" + high + "\\u" + low)
    ensures pos + 12 <= |text| && text[pos] == '\\'
    ensures NextPiece(text, pos) == Piece(G.CharBytes(G.Surrogates(high, low)), pos + 12)
    ensures SkipBody(text, pos) == SkipBody(text, pos + 12)
  {
    hide StartsWith, SkipBody, Hex4, G.Hex4, G.IsHex, Utf8Bytes, G.Encoding;
    assert "\\u" + high + "\\u" + low == "\\u" + high + ("\\u" + low);
    EscapeStarts(text, pos, high, "\\u" + low);
    StartsWithConcat(text, pos, "\\u" + high, "\\u" + low);
    assert "\\u" + low + "" == "\\u" + low && |high| == 4;
    EscapeStarts(text, pos + 6, low, "");
    BytesAreEncoding(0x10000 + (G.Hex4(high) - 0xD800) * 0x400 + (G.Hex4(low) - 0xDC00));
  }

  lemma EscapeStarts(text: string, pos: nat, hex: string, rest: string)
    requires G.IsHex4(hex) && StartsWith(text, pos, "\\u" + hex + rest)
    ensures pos + 6 <= |text| && text[pos] == '\\' && text[pos + 1] == 'u' && Hex4(text, pos + 2) == Some(G.Hex4(hex))
    ensures SkipBody(text, pos) == SkipBody(text, pos + 6)
  {
    hide StartsWith, Hex4, G.Hex4, G.IsHex;
    StartsWithConcat(text, pos, "\\u" + hex, rest);
    StartsWithConcat(text, pos, "\\u", hex);
    StartsWithAt(text, pos, "\\u", 0);
    StartsWithAt(text, pos, "\\u", 1);
    HexIsRead(text, pos + 2, hex);
  }

  lemma EscapeIsRead(text: string, pos: nat, hex: string, rest: string)
    requires G.IsHex4(hex) && StartsWith(text, pos, "\\u" + hex + rest) && !(0xD800 <= G.Hex4(hex) <= 0xDFFF)
    ensures pos + 6 <= |text| && text[pos] == '\\' && NextPiece(text, pos) == Piece(G.Encoding(G.Hex4(hex)), pos + 6)
    ensures SkipBody(text, pos) == SkipBody(text, pos + 6)
  {
    hide StartsWith, SkipBody, Hex4, G.Hex4, G.IsHex, Utf8Bytes, G.Encoding;
    EscapeStarts(text, pos, hex, rest);
    BytesAreEncoding(G.Hex4(hex));
  }

  lemma {:induction false} CharsAreRead(text: string, pos: nat, chars: seq<G.SpelledChar>)
    requires G.CharsAreValid(chars) && StartsWith(text, pos, G.CharsText(chars) + "\"")
    ensures var end := pos + |G.CharsText(chars)|;
      SkipBody(text, pos) == Some(end + 1) && Process(text, pos, end) == Done(G.CharsBytes(chars), end)
    decreases |chars|
  {
    hide NextPiece, G.CharText, G.CharBytes, G.CharIsValid, StartsWith;
    StartsWithConcat(text, pos, G.CharsText(chars), "\"");
    if chars == [] {
      StartsWithAt(text, pos, "\"", 0);
    } else {
      var first := G.CharText(chars[0]);
      StartsWithConcat(text, pos, first, G.CharsText(chars[1..]));
      StartsWithConcat(text, pos + |first|, G.CharsText(chars[1..]), "\"");
      CharIsRead(text, pos, chars[0]);
      CharsAreRead(text, pos + |first|, chars[1..]);
    }
  }

  lemma QuotedIsRead(text: string, pos: nat, chars: seq<G.SpelledChar>)
    requires G.CharsAreValid(chars) && StartsWith(text, pos, G.Quoted(chars))
    ensures QuotedString(text, pos) == Ok(G.StringOf(chars), pos + |G.Quoted(chars)|)
  {
    hide StartsWith, G.CharsText, SkipBody, Process;
    assert G.Quoted(chars) == "\"" + (G.CharsText(chars) + "\"");
    StartsWithConcat(text, pos, "\"", G.CharsText(chars) + "\"");
    StartsWithAt(text, pos, "\"", 0);
    CharsAreRead(text, pos + 1, chars);
  }

  // ---- Integers ----

  /** A character that would make a longer number of the digits before it. */
  predicate ExtendsNumber(c: char) {
    c in "0123456789.eExX"
  }

  /** strtod reads a sign and decimal digits of a number of 64 bits up to the last digit, without error. */
  ghost predicate ReadsIntegers(lib: LibC) {
    forall text: string, pos: nat, negative: bool, digits: string ::
      G.IsNumeral(digits) && StartsWith(text, pos, G.IntegerText(negative, digits))
      && !ExtendsNumber(At(text, pos + |G.IntegerText(negative, digits)|)) ==>
        lib.strtod(text, pos).clean && lib.strtod(text, pos).length == |G.IntegerText(negative, digits)|
  }

  lemma {:induction false} DigitsRun(text: string, pos: nat, end: nat)
    requires pos <= end <= |text|
    requires forall k :: pos <= k < end ==> IsDigit(text[k])
    requires !IsDigit(At(text, end))
    ensures DigitsEnd(text, pos) == end
    decreases end - pos
  {
    if pos < end {
      DigitsRun(text, pos + 1, end);
    }
  }

  lemma {:induction false} DigitsMean(s: string)
    requires G.AreDigits(s)
    ensures DigitsValue(s) == G.Numeral(s)
  {
    if s != "" {
      DigitIsInTable(s[|s| - 1]);
      assert forall c <- s[..|s| - 1] :: c in s;
      DigitsMean(s[..|s| - 1]);
      hide IsDigit;
    }
  }

  lemma NumberEnds(c: char)
    requires !ExtendsNumber(c)
    ensures !IsDigit(c) && c != '.'
  {
    DigitIsInTable(c);
    assert "0123456789.eExX"[10] == '.';
    if IsDigit(c) {
      DigitExtends(c);
    }
  }

  lemma DigitExtends(c: char)
    requires IsDigit(c)
    ensures ExtendsNumber(c)
  {
    var i := c as int - '0' as int;
    assert "0123456789.eExX"[i] == ('0' as int + i) as char;
  }

  lemma IntegerIsRead(lib: LibC, text: string, pos: nat, negative: bool, digits: string)
    requires ReadsIntegers(lib) && G.IsNumeral(digits) && StartsWith(text, pos, G.IntegerText(negative, digits))
    requires !ExtendsNumber(At(text, pos + |G.IntegerText(negative, digits)|))
    ensures var end := pos + |G.IntegerText(negative, digits)|;
      ParseNumber(lib, text, pos) == Ok(Uint(G.IntegerOf(negative, digits)), end)
  {
    hide ExtendsNumber, DigitsValue, G.Numeral, G.AreDigits, IsDigit, IsDecimal, DigitsEnd, G.IntegerText;
    var token := G.IntegerText(negative, digits);
    var (first, end) := (pos + if negative then 1 else 0, pos + |token|);
    NumberEnds(At(text, end));
    DigitsMean(digits);
    DigitsAreRead(text, first, end, digits, negative, token, pos);
    TokenIsDecimal(negative, digits);
  }

  lemma DigitsAreRead(text: string, first: nat, end: nat, digits: string, negative: bool, token: string, pos: nat)
    requires G.IsNumeral(digits) && token == G.IntegerText(negative, digits) && StartsWith(text, pos, token)
    requires first == (pos + if negative then 1 else 0) && end == pos + |token| && !IsDigit(At(text, end))
    ensures pos < first + 1 <= end <= |text| && DigitsEnd(text, first) == end && text[first..end] == digits
    ensures text[pos..end] == token
    ensures SkipSpaces(text, pos) == pos && (text[pos] == '-' <==> negative) && text[pos] != '+'
  {
    forall k | first <= k < end
      ensures IsDigit(text[k]) && text[k] == digits[k - first]
    {
      StartsWithAt(text, pos, token, k - pos);
      DigitIsInTable(digits[k - first]);
    }
    DigitsRun(text, first, end);
    assert text[first..end] == digits;
    StartsWithAt(text, pos, token, 0);
  }

  lemma TokenIsDecimal(negative: bool, digits: string)
    requires G.IsNumeral(digits)
    ensures IsDecimal(G.IntegerText(negative, digits))
  {
    var token := G.IntegerText(negative, digits);
    forall i | 0 <= i < |digits|
      ensures IsDigit(digits[i]) && digits[i] != 'x' && digits[i] != 'X' && digits[i] != '-'
    {
      DigitIsInTable(digits[i]);
    }
    if negative {
      assert token == ['-'] + digits && token[1] == digits[0];
    } else {
      assert token == digits;
    }
  }

  // ---- Values ----

  /** What the parser answers on the text of `v`, whose last byte is just before `end`. */
  function Expected(v: Json, nesting: int, end: nat): Parsed<Json> {
    if nesting + Nesting(v) <= MAX_NESTING then Ok(v, end) else Fail
  }

  /** The first character of a text decides the branch parse_value takes; it is never white space. */
  lemma TextStarts(v: G.Spelling)
    requires G.Valid(v)
    ensures var s := G.Text(v);
      && s != "" && !IsSpace(s[0]) && s[0] != NUL && s[0] != ']' && s[0] != '}'
      && (v.SNull? ==> s[0] == 'n') && (v.STrue? ==> s[0] == 't') && (v.SFalse? ==> s[0] == 'f')
      && (v.SInteger? ==> s[0] == '-' || IsDigit(s[0]))
      && (v.SString? <==> s[0] == '\"') && (v.SArray? <==> s[0] == '[') && (v.SObject? <==> s[0] == '{')
  {
    if v.SInteger? {
      DigitIsInTable(v.digits[0]);
      hide G.Numeral, G.Place;
    } else if v.SArray? {
      hide G.ItemsText;
    } else if v.SObject? {
      hide G.MembersText;
    }
  }

  lemma {:induction false} ValueIsRead(lib: LibC, text: string, pos: nat, v: G.Spelling, nesting: int)
    requires ReadsIntegers(lib) && G.Valid(v) && WellFormed(G.ValueOf(v)) && StartsWith(text, pos, G.Text(v))
    requires v.SInteger? ==> !ExtendsNumber(At(text, pos + |G.Text(v)|))
    ensures ParseValue(lib, text, pos, nesting) == Expected(G.ValueOf(v), nesting, pos + |G.Text(v)|)
    decreases v, 3
  {
    hide StartsWith, SkipSpaces, ParseValue, ParseArray, ParseObject, ReadsIntegers, ExtendsNumber, WellFormed, Nesting,
      IsSpace, G.Text, G.Valid, G.ValueOf;
    TextStarts(v);
    StartsWithAt(text, pos, G.Text(v), 0);
    NoSpace(text, pos);
    Dispatch(lib, text, pos, nesting);
    if nesting <= MAX_NESTING {
      if v.SArray? {
        ArrayIsRead(lib, text, pos, v, nesting + 1);
      } else if v.SObject? {
        ObjectIsRead(lib, text, pos, v, nesting + 1);
      } else {
        LeafIsRead(lib, text, pos, v, nesting);
      }
    }
  }

  lemma Dispatch(lib: LibC, text: string, pos: nat, nesting: int)
    requires pos < |text| && SkipSpaces(text, pos) == pos
    ensures nesting > MAX_NESTING ==> ParseValue(lib, text, pos, nesting) == Fail
    ensures nesting <= MAX_NESTING && text[pos] == '[' ==>
      ParseValue(lib, text, pos, nesting) == ParseArray(lib, text, pos, nesting + 1)
    ensures nesting <= MAX_NESTING && text[pos] == '{' ==>
      ParseValue(lib, text, pos, nesting) == ParseObject(lib, text, pos, nesting + 1)
  {
    hide SkipSpaces, ParseArray, ParseObject;
  }

  lemma LeafIsRead(lib: LibC, text: string, pos: nat, v: G.Spelling, nesting: int)
    requires ReadsIntegers(lib) && G.Valid(v) && StartsWith(text, pos, G.Text(v)) && !v.SArray? && !v.SObject?
    requires v.SInteger? ==> !ExtendsNumber(At(text, pos + |G.Text(v)|))
    requires nesting <= MAX_NESTING
    ensures ParseValue(lib, text, pos, nesting) == Ok(G.ValueOf(v), pos + |G.Text(v)|) && Nesting(G.ValueOf(v)) == 0
  {
    TextStarts(v);
    StartsWithAt(text, pos, G.Text(v), 0);
    NoSpace(text, pos);
    hide StartsWith, ParseNumber, QuotedString, ReadsIntegers, ExtendsNumber, IsSpace, G.Numeral, G.AreDigits, G.Quoted;
    match v
    case SInteger(negative, digits) => IntegerIsRead(lib, text, pos, negative, digits);
    case SString(chars) => QuotedIsRead(text, pos, chars);
    case _ =>
  }

  /** parse_value skips white space first, so only the position it reaches matters. */
  lemma SameAfterSpaces(lib: LibC, text: string, pos: nat, other: nat, nesting: int)
    requires pos <= |text| && other <= |text| && SkipSpaces(text, pos) == SkipSpaces(text, other)
    ensures ParseValue(lib, text, pos, nesting) == ParseValue(lib, text, other, nesting)
  {
    hide QuotedString, ParseNumber, ParseWord, ParseArray, ParseObject, SkipSpaces;
  }

  // ---- Arrays ----

  lemma {:induction false} ArrayIsRead(lib: LibC, text: string, pos: nat, v: G.Spelling, nesting: int)
    requires ReadsIntegers(lib) && v.SArray? && G.Valid(v) && WellFormed(G.ValueOf(v))
      && StartsWith(text, pos, G.Text(v))
    requires nesting <= MAX_NESTING + 1 && pos < |text| && text[pos] == '['
    ensures ParseArray(lib, text, pos, nesting) == Expected(G.ValueOf(v), nesting - 1, pos + |G.Text(v)|)
    decreases v, 2
  {
    hide StartsWith, SkipSpaces, ParseArray, ParseItems, ReadsIntegers, NestingOfItems, G.ItemsText, G.ItemsAreValid;
    if v.items == [] {
      EmptyArray(lib, text, pos, v.gap, nesting);
    } else {
      ArrayOpens(lib, text, pos, v.items, nesting);
      ItemsAreRead(lib, text, pos + 1, v.items, nesting, []);
      ValuesCount(v.items);
      assert [] + G.ValuesOf(v.items) == G.ValuesOf(v.items);
    }
  }

  lemma {:induction false} ValuesCount(items: seq<G.SpelledItem>)
    requires G.ItemsAreValid(items)
    ensures |G.ValuesOf(items)| == |items|
  {
    if items != [] {
      assert G.ItemsAreValid(items[1..]);
      ValuesCount(items[1..]);
    }
  }

  lemma EmptyArray(lib: LibC, text: string, pos: nat, gap: string, nesting: int)
    requires StartsWith(text, pos, "[" + (gap + "]")) && G.IsGap(gap) && pos < |text| && text[pos] == '['
    ensures ParseArray(lib, text, pos, nesting) == Ok(Arr([]), pos + |"[" + (gap + "]")|)
  {
    hide StartsWith, SkipSpaces, ParseItems, G.IsGap;
    StartsWithConcat(text, pos, "[", gap + "]");
    SkipTo(text, pos + 1, gap, "]");
  }

  lemma ArrayOpens(lib: LibC, text: string, pos: nat, items: seq<G.SpelledItem>, nesting: int)
    requires items != [] && G.ItemsAreValid(items) && pos < |text| && text[pos] == '['
    requires StartsWith(text, pos, "[" + G.ItemsText(items))
    ensures StartsWith(text, pos + 1, G.ItemsText(items))
    ensures ParseArray(lib, text, pos, nesting) == ParseItems(lib, text, SkipSpaces(text, pos + 1), nesting, [])
  {
    hide StartsWith, SkipSpaces, ParseItems;
    StartsWithConcat(text, pos, "[", G.ItemsText(items));
    ItemParts(text, pos + 1, items);
  }

  /** The texts of the last element and of one that others follow. */
  lemma ItemsEnd(items: seq<G.SpelledItem>)
    requires |items| == 1 && G.IsGap(items[0].before) && G.Valid(items[0].value) && G.IsGap(items[0].after)
    ensures G.ItemsAreValid(items) && G.ValuesOf(items) == [G.ValueOf(items[0].value)]
    ensures G.ItemsText(items) == items[0].before + (G.Text(items[0].value) + (items[0].after + "]"))
  {
    hide G.Valid, G.IsGap, G.Text, G.ValueOf;
    assert G.ValuesOf(items[1..]) == [];
  }

  lemma ItemsGoOn(items: seq<G.SpelledItem>)
    requires |items| > 1 && G.IsGap(items[0].before) && G.Valid(items[0].value) && G.IsGap(items[0].after)
      && G.ItemsAreValid(items[1..])
    ensures G.ItemsAreValid(items) && G.ValuesOf(items) == [G.ValueOf(items[0].value)] + G.ValuesOf(items[1..])
    ensures G.ItemsText(items)
      == items[0].before + (G.Text(items[0].value) + (items[0].after + ("," + G.ItemsText(items[1..]))))
  {
    hide G.Valid, G.IsGap, G.Text, G.ValueOf;
    assert forall i :: 0 < i < |items| ==> items[i] == items[1..][i - 1];
  }

  /** What follows an item: its gap, and then a comma and the other items, or the bracket. */
  function ItemsTail(items: seq<G.SpelledItem>): string
    requires items != []
  {
    if |items| == 1 then "]" else "," + G.ItemsText(items[1..])
  }

  lemma ItemParts(text: string, pos: nat, items: seq<G.SpelledItem>)
    requires items != [] && G.ItemsAreValid(items) && StartsWith(text, pos, G.ItemsText(items))
    ensures var (start, first) := (pos + |items[0].before|, G.Text(items[0].value));
      && start < |text| && SkipSpaces(text, pos) == start
      && text[start] != ']' && text[start] != NUL
      && StartsWith(text, start, first)
      && AfterElement(text, start + |first|, items[0].after, ItemsTail(items))
      && pos + |G.ItemsText(items)| == start + |first| + |items[0].after| + |ItemsTail(items)|
  {
    hide *;
    ItemShape(items);
    var (first, tail) := (G.Text(items[0].value), ItemsTail(items));
    ElementParts(text, pos, items[0].before, first, items[0].after, tail);
  }

  lemma ItemShape(items: seq<G.SpelledItem>)
    requires items != [] && G.ItemsAreValid(items)
    ensures var (first, tail) := (G.Text(items[0].value), ItemsTail(items));
      && G.IsGap(items[0].before) && G.IsGap(items[0].after)
      && G.ItemsText(items) == items[0].before + (first + (items[0].after + tail))
      && first != "" && !IsSpace(first[0]) && first[0] != ']' && first[0] != NUL
      && tail != "" && (tail[0] == ',' || tail[0] == ']')
  {
    TextStarts(items[0].value);
    hide G.Text, G.Valid, G.IsGap, IsSpace;
  }

  /** Where the parts of an element lie: its gap, the element, the gap after it and the rest. */
  lemma ElementParts(text: string, pos: nat, before: string, first: string, after: string, tail: string)
    requires StartsWith(text, pos, before + (first + (after + tail))) && G.IsGap(before) && G.IsGap(after)
    requires first != "" && !IsSpace(first[0])
    requires tail != "" && (tail[0] == ',' || tail[0] == ']' || tail[0] == '}')
    ensures var start := pos + |before|;
      && start < |text| && SkipSpaces(text, pos) == start && text[start] == first[0]
      && StartsWith(text, start, first) && AfterElement(text, start + |first|, after, tail)
  {
    hide StartsWith, SkipSpaces, G.IsGap, IsSpace, AfterElement;
    var rest := first + (after + tail);
    assert rest[0] == first[0];
    SkipTo(text, pos, before, rest);
    StartsWithConcat(text, pos + |before|, first, after + tail);
    ElementEnds(text, pos + |before| + |first|, after, tail);
  }

  /** After an element: a gap, and where it ends the rest; no number goes on there. */
  ghost predicate AfterElement(text: string, pos: nat, gap: string, rest: string) {
    && pos < |text| && !ExtendsNumber(text[pos])
    && rest != "" && pos + |gap| < |text|
    && SkipSpaces(text, pos) == pos + |gap| && text[pos + |gap|] == rest[0] && StartsWith(text, pos + |gap|, rest)
  }

  lemma ElementEnds(text: string, pos: nat, gap: string, rest: string)
    requires StartsWith(text, pos, gap + rest) && G.IsGap(gap)
    requires rest != "" && (rest[0] == ',' || rest[0] == ']' || rest[0] == '}')
    ensures AfterElement(text, pos, gap, rest)
  {
    StartsWithAt(text, pos, gap + rest, 0);
    SkipTo(text, pos, gap, rest);
    assert (gap + rest)[0] == if gap == "" then rest[0] else gap[0];
    assert gap != "" ==> gap[0] in gap;
    PlainEnds((gap + rest)[0]);
    hide StartsWith, SkipSpaces;
  }

  lemma PlainEnds(c: char)
    requires c in G.SPACES || c == ',' || c == ']' || c == '}'
    ensures !ExtendsNumber(c)
  {
    SpaceIsInTable(c);
    var s := "0123456789.eExX";
    forall i | 0 <= i < |s|
      ensures s[i] != c
    {
      assert i < 10 ==> s[i] == ('0' as int + i) as char;
    }
  }

  lemma {:induction false} ItemsAreRead(lib: LibC, text: string, pos: nat, items: seq<G.SpelledItem>, nesting: int,
                                        acc: seq<Json>)
    requires ReadsIntegers(lib) && items != [] && G.ItemsAreValid(items) && WellFormed(Arr(G.ValuesOf(items)))
    requires StartsWith(text, pos, G.ItemsText(items))
    ensures ParseItems(lib, text, SkipSpaces(text, pos), nesting, acc)
      == if nesting + NestingOfItems(G.ValuesOf(items)) <= MAX_NESTING
         then Ok(Arr(acc + G.ValuesOf(items)), pos + |G.ItemsText(items)|)
         else Fail
    decreases items, 2
  {
    hide *;
    FirstAndRest(items, acc);
    FirstItem(lib, text, pos, items, nesting, acc);
    NestingFits(G.ValuesOf(items), MAX_NESTING - nesting);
    if |items| > 1 {
      var next := pos + |G.ItemsText(items)| - |G.ItemsText(items[1..])|;
      ItemsAreRead(lib, text, next, items[1..], nesting, acc + [G.ValueOf(items[0].value)]);
    }
  }

  lemma FirstAndRest(items: seq<G.SpelledItem>, acc: seq<Json>)
    requires items != [] && G.ItemsAreValid(items)
    ensures G.Valid(items[0].value) && G.ItemsAreValid(items[1..])
    ensures var all := G.ValuesOf(items);
      && |all| == |items| && all[0] == G.ValueOf(items[0].value) && all[1..] == G.ValuesOf(items[1..])
      && acc + [all[0]] + all[1..] == acc + all && (|items| == 1 ==> acc + [all[0]] == acc + all)
      && (WellFormed(Arr(all)) ==> WellFormed(all[0]) && WellFormed(Arr(all[1..])))
  {
    ValuesCount(items);
    hide G.Valid, WellFormed;
    MoreItems(acc, G.ValuesOf(items));
    WellFormedRest(G.ValuesOf(items));
  }

  lemma MoreItems(acc: seq<Json>, items: seq<Json>)
    requires items != []
    ensures acc + [items[0]] + items[1..] == acc + items
    ensures |items| == 1 ==> acc + [items[0]] == acc + items
  {
  }

  lemma WellFormedRest(items: seq<Json>)
    requires items != []
    ensures WellFormed(Arr(items)) ==> WellFormed(items[0]) && WellFormed(Arr(items[1..]))
  {
  }

  lemma NestingFits(items: seq<Json>, limit: int)
    requires items != []
    ensures NestingOfItems(items) <= limit <==>
      Nesting(items[0]) <= limit && (|items| > 1 ==> NestingOfItems(items[1..]) <= limit)
  {
    hide Nesting;
  }

  /** The first round of the element loop: it leads to the text of the other items. */
  lemma {:induction false} FirstItem(lib: LibC, text: string, pos: nat, items: seq<G.SpelledItem>, nesting: int,
                                     acc: seq<Json>)
    requires ReadsIntegers(lib) && items != [] && G.ItemsAreValid(items) && G.Valid(items[0].value)
    requires WellFormed(G.ValueOf(items[0].value))
    requires StartsWith(text, pos, G.ItemsText(items))
    ensures var next := pos + |G.ItemsText(items)| - |G.ItemsText(items[1..])|;
      var first := G.ValueOf(items[0].value);
      && (|items| > 1 ==> 0 <= next <= |text| && StartsWith(text, next, G.ItemsText(items[1..])))
      && ParseItems(lib, text, SkipSpaces(text, pos), nesting, acc)
         == if nesting + Nesting(first) > MAX_NESTING then Fail
            else if |items| == 1 then Ok(Arr(acc + [first]), pos + |G.ItemsText(items)|)
            else ParseItems(lib, text, SkipSpaces(text, next), nesting, acc + [first])
    decreases items, 1
  {
    hide *;
    ItemParts(text, pos, items);
    var start := pos + |items[0].before|;
    var after := start + |G.Text(items[0].value)|;
    AfterIs(text, after, items[0].after, ItemsTail(items));
    TailOfItems(items);
    ValueIsRead(lib, text, start, items[0].value, nesting);
    OneItem(lib, text, start, G.ValueOf(items[0].value), after, nesting, acc);
    if |items| > 1 {
      StartsWithConcat(text, after + |items[0].after|, ",", G.ItemsText(items[1..]));
    }
  }

  lemma TailOfItems(items: seq<G.SpelledItem>)
    requires items != []
    ensures G.ItemsText([]) == ""
    ensures |items| == 1 ==> items[1..] == [] && ItemsTail(items) == "]"
    ensures |items| > 1 ==> ItemsTail(items) == "," + G.ItemsText(items[1..]) && ItemsTail(items)[0] == ','
  {
  }

  /** One round of the element loop, on an element that reads as expected. */
  lemma OneItem(lib: LibC, text: string, start: nat, item: Json, after: nat, nesting: int, acc: seq<Json>)
    requires start < |text| && text[start] != NUL && after < |text|
    requires ParseValue(lib, text, start, nesting) == Expected(item, nesting, after)
    ensures var end := SkipSpaces(text, after);
      ParseItems(lib, text, start, nesting, acc)
      == if nesting + Nesting(item) > MAX_NESTING then Fail
         else if At(text, end) == ',' then ParseItems(lib, text, SkipSpaces(text, end + 1), nesting, acc + [item])
         else if At(text, end) == ']' then Ok(Arr(acc + [item]), end + 1)
         else Fail
  {
    hide ParseValue, SkipSpaces, Nesting;
  }

  // ---- Objects ----

  lemma {:induction false} ObjectIsRead(lib: LibC, text: string, pos: nat, v: G.Spelling, nesting: int)
    requires ReadsIntegers(lib) && v.SObject? && G.Valid(v) && WellFormed(G.ValueOf(v))
      && StartsWith(text, pos, G.Text(v))
    requires nesting <= MAX_NESTING + 1 && pos < |text| && text[pos] == '{'
    ensures ParseObject(lib, text, pos, nesting) == Expected(G.ValueOf(v), nesting - 1, pos + |G.Text(v)|)
    decreases v, 2
  {
    hide StartsWith, SkipSpaces, ParseObject, ParseFields, ReadsIntegers, NestingOfFields, Distinct, G.MembersText,
      G.MembersAreValid;
    if v.members == [] {
      EmptyObject(lib, text, pos, v.gap, nesting);
    } else {
      ObjectOpens(lib, text, pos, v.members, nesting);
      assert [] + G.FieldsOf(v.members) == G.FieldsOf(v.members);
      MembersAreRead(lib, text, pos + 1, v.members, nesting, []);
      FieldsCount(v.members);
    }
  }

  lemma {:induction false} FieldsCount(members: seq<G.SpelledMember>)
    requires G.MembersAreValid(members)
    ensures |G.FieldsOf(members)| == |members|
  {
    if members != [] {
      assert G.MembersAreValid(members[1..]);
      FieldsCount(members[1..]);
    }
  }

  lemma EmptyObject(lib: LibC, text: string, pos: nat, gap: string, nesting: int)
    requires StartsWith(text, pos, "{" + (gap + "}")) && G.IsGap(gap) && pos < |text| && text[pos] == '{'
    ensures ParseObject(lib, text, pos, nesting) == Ok(Obj([]), pos + |"{" + (gap + "}")|)
  {
    hide StartsWith, SkipSpaces, ParseFields, G.IsGap;
    StartsWithConcat(text, pos, "{", gap + "}");
    SkipTo(text, pos + 1, gap, "}");
  }

  lemma ObjectOpens(lib: LibC, text: string, pos: nat, members: seq<G.SpelledMember>, nesting: int)
    requires members != [] && G.MembersAreValid(members) && pos < |text| && text[pos] == '{'
    requires StartsWith(text, pos, "{" + G.MembersText(members))
    ensures StartsWith(text, pos + 1, G.MembersText(members))
    ensures ParseObject(lib, text, pos, nesting) == ParseFields(lib, text, SkipSpaces(text, pos + 1), nesting, [])
  {
    hide StartsWith, SkipSpaces, ParseFields;
    StartsWithConcat(text, pos, "{", G.MembersText(members));
    MemberParts(text, pos + 1, members);
  }

  ghost function FieldOf(m: G.SpelledMember): Field
    requires G.MemberIsValid(m)
  {
    Field(G.StringOf(m.name), G.ValueOf(m.value))
  }

  lemma FieldOfIs(m: G.SpelledMember)
    requires G.MemberIsValid(m)
    ensures G.Valid(m.value) && FieldOf(m).value == G.ValueOf(m.value)
  {
    hide G.Valid, G.ValueOf, G.StringOf;
  }

  /** The texts of the last member and of one that others follow. */
  lemma MembersEnd(members: seq<G.SpelledMember>)
    requires |members| == 1 && G.MemberIsValid(members[0])
    ensures G.MembersAreValid(members) && G.FieldsOf(members) == [FieldOf(members[0])]
    ensures G.MembersText(members) == members[0].before + (G.MemberText(members[0]) + (members[0].after + "}"))
  {
    FieldOfIs(members[0]);
    hide G.MemberIsValid, G.MemberText, G.ValueOf, G.StringOf;
    assert G.FieldsOf(members[1..]) == [];
  }

  lemma MembersGoOn(members: seq<G.SpelledMember>)
    requires |members| > 1 && G.MemberIsValid(members[0]) && G.MembersAreValid(members[1..])
    ensures G.MembersAreValid(members) && G.FieldsOf(members) == [FieldOf(members[0])] + G.FieldsOf(members[1..])
    ensures G.MembersText(members)
      == members[0].before + (G.MemberText(members[0]) + (members[0].after + ("," + G.MembersText(members[1..]))))
  {
    FieldOfIs(members[0]);
    hide G.MemberIsValid, G.MemberText, G.ValueOf, G.StringOf;
    assert forall i :: 0 < i < |members| ==> members[i] == members[1..][i - 1];
  }

  function MembersTail(members: seq<G.SpelledMember>): string
    requires members != []
  {
    if |members| == 1 then "}" else "," + G.MembersText(members[1..])
  }

  lemma MemberParts(text: string, pos: nat, members: seq<G.SpelledMember>)
    requires members != [] && G.MembersAreValid(members) && StartsWith(text, pos, G.MembersText(members))
    ensures var (start, first) := (pos + |members[0].before|, G.MemberText(members[0]));
      && start < |text| && SkipSpaces(text, pos) == start && text[start] == '\"'
      && StartsWith(text, start, first) && text[start] != NUL
      && AfterElement(text, start + |first|, members[0].after, MembersTail(members))
      && pos + |G.MembersText(members)| == start + |first| + |members[0].after| + |MembersTail(members)|
  {
    hide *;
    MemberShape(members);
    var (first, tail) := (G.MemberText(members[0]), MembersTail(members));
    ElementParts(text, pos, members[0].before, first, members[0].after, tail);
  }

  lemma MemberShape(members: seq<G.SpelledMember>)
    requires members != [] && G.MembersAreValid(members)
    ensures var (m, tail) := (members[0], MembersTail(members));
      && G.IsGap(m.before) && G.IsGap(m.after)
      && G.MembersText(members) == m.before + (G.MemberText(m) + (m.after + tail))
      && G.MemberText(m) != "" && G.MemberText(m)[0] == '\"' && !IsSpace('\"') && '\"' != NUL
      && tail != "" && (tail[0] == ',' || tail[0] == '}')
  {
    assert G.MemberIsValid(members[0]);
    hide G.CharsText, G.Text, G.IsGap;
  }

  lemma {:induction false} MemberIsRead(lib: LibC, text: string, pos: nat, m: G.SpelledMember, nesting: int)
    requires ReadsIntegers(lib) && G.MemberIsValid(m) && WellFormed(G.ValueOf(m.value))
    requires StartsWith(text, pos, G.MemberText(m)) && !ExtendsNumber(At(text, pos + |G.MemberText(m)|))
    ensures ParseField(lib, text, pos, nesting)
      == if nesting + Nesting(G.ValueOf(m.value)) <= MAX_NESTING
         then Ok(FieldOf(m), pos + |G.MemberText(m)|) else Fail
    decreases m, 4
  {
    hide StartsWith, ParseValue, QuotedString, SkipSpaces, ReadsIntegers, ExtendsNumber, WellFormed, Nesting, G.Quoted,
      G.Text, G.Valid, G.ValueOf, G.StringOf, G.IsGap, G.CharsAreValid, IsSpace;
    var (name, value) := (G.Quoted(m.name), G.Text(m.value));
    var (next, valueText) := (pos + |name|, m.afterColon + value);
    StartsWithConcat(text, pos, name, m.beforeColon + (":" + valueText));
    QuotedIsRead(text, pos, m.name);
    ColonIsNoSpace();
    assert (":" + valueText)[0] == ':';
    SkipTo(text, next, m.beforeColon, ":" + valueText);
    var colon := next + |m.beforeColon|;
    StartsWithConcat(text, colon, ":", valueText);
    StartsWithConcat(text, colon + 1, m.afterColon, value);
    SkipGap(text, colon + 1, m.afterColon);
    var at := colon + 1 + |m.afterColon|;
    SameAfterSpaces(lib, text, colon + 1, at, nesting);
    assert at + |value| == pos + |G.MemberText(m)|;
    ValueIsRead(lib, text, at, m.value, nesting);
  }

  lemma ColonIsNoSpace()
    ensures !IsSpace(':')
  {
  }

  lemma {:induction false} MembersAreRead(lib: LibC, text: string, pos: nat, members: seq<G.SpelledMember>,
                                          nesting: int, acc: seq<Field>)
    requires ReadsIntegers(lib) && members != [] && G.MembersAreValid(members)
    requires forall i :: 0 <= i < |G.FieldsOf(members)| ==> WellFormed(G.FieldsOf(members)[i].value)
    requires Distinct(acc + G.FieldsOf(members)) && StartsWith(text, pos, G.MembersText(members))
    ensures ParseFields(lib, text, SkipSpaces(text, pos), nesting, acc)
      == if nesting + NestingOfFields(G.FieldsOf(members)) <= MAX_NESTING
         then Ok(Obj(acc + G.FieldsOf(members)), pos + |G.MembersText(members)|)
         else Fail
    decreases members, 2
  {
    hide *;
    FirstFieldAndRest(members, acc);
    var all := G.FieldsOf(members);
    FirstNameIsFresh(acc, all);
    FirstMember(lib, text, pos, members, nesting, acc);
    FieldNestingFits(all, MAX_NESTING - nesting);
    if |members| > 1 {
      var next := pos + |G.MembersText(members)| - |G.MembersText(members[1..])|;
      assert forall i :: 0 <= i < |all[1..]| ==> all[1..][i] == all[i + 1];
      MembersAreRead(lib, text, next, members[1..], nesting, acc + [FieldOf(members[0])]);
    }
  }

  lemma FirstFieldAndRest(members: seq<G.SpelledMember>, acc: seq<Field>)
    requires members != [] && G.MembersAreValid(members)
    ensures G.MemberIsValid(members[0]) && G.Valid(members[0].value) && G.MembersAreValid(members[1..])
    ensures var all := G.FieldsOf(members);
      && |all| == |members| && all[0] == FieldOf(members[0]) && all[1..] == G.FieldsOf(members[1..])
      && all[0].value == G.ValueOf(members[0].value)
      && (|members| == 1 ==> acc + [all[0]] == acc + all)
  {
    FieldsCount(members);
    assert G.MemberIsValid(members[0]);
    hide G.Valid, G.CharsAreValid, G.IsGap;
    var all := G.FieldsOf(members);
    if |members| == 1 {
      assert all == [all[0]];
    }
  }

  lemma FirstNameIsFresh(acc: seq<Field>, fields: seq<Field>)
    requires fields != [] && Distinct(acc + fields)
    ensures !HasName(acc, fields[0].name)
    ensures acc + fields == acc + [fields[0]] + fields[1..]
  {
    assert (acc + fields)[|acc|] == fields[0];
    assert forall i :: 0 <= i < |acc| ==> (acc + fields)[i] == acc[i];
  }

  lemma FieldNestingFits(fields: seq<Field>, limit: int)
    requires fields != []
    ensures NestingOfFields(fields) <= limit <==>
      Nesting(fields[0].value) <= limit && (|fields| > 1 ==> NestingOfFields(fields[1..]) <= limit)
  {
    hide Nesting;
  }

  /** The first round of the member loop: it leads to the text of the other members. */
  lemma {:induction false} FirstMember(lib: LibC, text: string, pos: nat, members: seq<G.SpelledMember>, nesting: int,
                                       acc: seq<Field>)
    requires ReadsIntegers(lib) && members != [] && G.MembersAreValid(members) && G.MemberIsValid(members[0])
    requires WellFormed(G.ValueOf(members[0].value)) && !HasName(acc, FieldOf(members[0]).name)
    requires StartsWith(text, pos, G.MembersText(members))
    ensures var next := pos + |G.MembersText(members)| - |G.MembersText(members[1..])|;
      && (|members| > 1 ==> 0 <= next <= |text| && StartsWith(text, next, G.MembersText(members[1..])))
      && ParseFields(lib, text, SkipSpaces(text, pos), nesting, acc)
         == if nesting + Nesting(G.ValueOf(members[0].value)) > MAX_NESTING then Fail
            else if |members| == 1 then Ok(Obj(acc + [FieldOf(members[0])]), pos + |G.MembersText(members)|)
            else ParseFields(lib, text, SkipSpaces(text, next), nesting, acc + [FieldOf(members[0])])
    decreases members, 1
  {
    hide *;
    MemberParts(text, pos, members);
    var start := pos + |members[0].before|;
    var after := start + |G.MemberText(members[0])|;
    AfterIs(text, after, members[0].after, MembersTail(members));
    TailOfMembers(members);
    FieldOfIs(members[0]);
    MemberIsRead(lib, text, start, members[0], nesting);
    OneField(lib, text, start, FieldOf(members[0]), after, nesting, acc);
    if |members| > 1 {
      StartsWithConcat(text, after + |members[0].after|, ",", G.MembersText(members[1..]));
    }
  }

  lemma AfterIs(text: string, pos: nat, gap: string, rest: string)
    requires AfterElement(text, pos, gap, rest)
    ensures pos < |text| && At(text, pos) == text[pos] && !ExtendsNumber(At(text, pos)) && pos + |gap| < |text|
    ensures rest != "" && SkipSpaces(text, pos) == pos + |gap| && At(text, pos + |gap|) == rest[0]
    ensures StartsWith(text, pos + |gap|, rest)
  {
    hide StartsWith, SkipSpaces, ExtendsNumber;
  }

  lemma TailOfMembers(members: seq<G.SpelledMember>)
    requires members != []
    ensures G.MembersText([]) == ""
    ensures |members| == 1 ==> members[1..] == [] && MembersTail(members) == "}"
    ensures |members| > 1 ==>
      MembersTail(members) == "," + G.MembersText(members[1..]) && MembersTail(members)[0] == ','
  {
  }

  /** One round of the member loop, on a member that reads as expected and has a new name. */
  lemma OneField(lib: LibC, text: string, start: nat, f: Field, after: nat, nesting: int, acc: seq<Field>)
    requires start < |text| && text[start] != NUL && after < |text| && !HasName(acc, f.name)
    requires ParseField(lib, text, start, nesting)
          == if nesting + Nesting(f.value) <= MAX_NESTING then Ok(f, after) else Fail
    ensures var end := SkipSpaces(text, after);
      ParseFields(lib, text, start, nesting, acc)
      == if nesting + Nesting(f.value) > MAX_NESTING then Fail
         else if At(text, end) == ',' then ParseFields(lib, text, SkipSpaces(text, end + 1), nesting, acc + [f])
         else if At(text, end) == '}' then Ok(Obj(acc + [f]), end + 1)
         else Fail
  {
    hide ParseField, SkipSpaces, Nesting, HasName;
  }

  // ---- Main result ----

  /**
   * However a value is spelled, with whatever white space before it and whatever text around it, it is read with the
   * cursor just past its last byte, exactly when the nesting limit allows it.
   */
  lemma SpelledIsRead(lib: LibC, text: string, pos: nat, gap: string, v: G.Spelling, nesting: int)
    requires ReadsIntegers(lib) && G.IsGap(gap) && G.Valid(v) && WellFormed(G.ValueOf(v))
    requires StartsWith(text, pos, gap + G.Text(v))
    requires v.SInteger? ==> !ExtendsNumber(At(text, pos + |gap + G.Text(v)|))
    ensures ParseValue(lib, text, pos, nesting)
      == if nesting + Nesting(G.ValueOf(v)) <= MAX_NESTING then Ok(G.ValueOf(v), pos + |gap + G.Text(v)|) else Fail
  {
    hide StartsWith, SkipSpaces, ParseValue, G.IsGap, G.Valid, G.Text, G.ValueOf, WellFormed, ReadsIntegers;
    StartsWithConcat(text, pos, gap, G.Text(v));
    SkipGap(text, pos, gap);
    SameAfterSpaces(lib, text, pos, pos + |gap|, nesting);
    ValueIsRead(lib, text, pos + |gap|, v, nesting);
  }

  /** A whole text: an optional byte order mark, white space, a spelling, and whatever follows. */
  lemma SpelledTextIsRead(lib: LibC, marked: bool, gap: string, v: G.Spelling, rest: string)
    requires ReadsIntegers(lib) && G.IsGap(gap) && G.Valid(v) && WellFormed(G.ValueOf(v))
    requires v.SInteger? ==> !ExtendsNumber(At(rest, 0))
    ensures var front := (if marked then [0xEF as char, 0xBB as char, 0xBF as char] else "") + (gap + G.Text(v));
      ParseText(lib, front + rest)
      == if Nesting(G.ValueOf(v)) <= MAX_NESTING then Ok(G.ValueOf(v), |front|) else Fail
  {
    var mark := if marked then [0xEF as char, 0xBB as char, 0xBF as char] else "";
    var spelled := gap + G.Text(v);
    var text := mark + spelled + rest;
    assert text[|mark|..|mark| + |spelled|] == spelled && At(text, |mark| + |spelled|) == At(rest, 0);
    if marked {
      assert text[0..3] == mark;
    } else {
      NoMark(gap, v, rest);
      assert mark + spelled == spelled;
    }
    hide ParseValue, G.IsGap, G.Valid, G.Text, G.ValueOf, WellFormed, ReadsIntegers, ExtendsNumber;
    SpelledIsRead(lib, text, |mark|, gap, v, 0);
  }

  lemma NoMark(gap: string, v: G.Spelling, rest: string)
    requires G.IsGap(gap) && G.Valid(v)
    ensures !StartsWith(gap + G.Text(v) + rest, 0, BOM)
  {
    TextStarts(v);
    var text := gap + G.Text(v) + rest;
    hide G.Text;
    if gap != "" {
      assert gap[0] in gap;
      SpaceIsInTable(gap[0]);
    }
    assert text[0] == if gap != "" then gap[0] else G.Text(v)[0];
    if StartsWith(text, 0, BOM) {
      StartsWithAt(text, 0, BOM, 0);
    }
  }
}
