/** Every text that is read, floating numbers apart, is spelled as the grammar says, and read as its value. */
module JsonSpelled {
  import opened CString
  import opened JsonValue
  import opened JsonParse
  import opened JsonParseFacts
  import opened JsonReading
  import G = JsonGrammar

  lemma {:induction false} SkippedIsGap(text: string, pos: nat)
    requires pos <= |text|
    ensures G.IsGap(text[pos..SkipSpaces(text, pos)])
    decreases |text| - pos
  {
    if pos < |text| && IsSpace(text[pos]) {
      SpaceIsInTable(text[pos]);
      SkippedIsGap(text, pos + 1);
      var gap := text[pos..SkipSpaces(text, pos)];
      assert gap == [text[pos]] + text[pos + 1..SkipSpaces(text, pos + 1)];
      hide IsSpace;
    }
  }

  lemma {:induction false} SkipAgain(text: string, pos: nat)
    requires pos <= |text|
    ensures SkipSpaces(text, SkipSpaces(text, pos)) == SkipSpaces(text, pos)
    decreases |text| - pos
  {
    if pos < |text| && IsSpace(text[pos]) {
      SkipAgain(text, pos + 1);
    }
  }

  // ---- Strings ----

  /** Four hexadecimal digits that were read. */
  lemma HexWasRead(text: string, pos: nat)
    requires pos <= |text| && Hex4(text, pos).Some?
    ensures G.IsHex4(text[pos..pos + 4]) && G.Hex4(text[pos..pos + 4]) == Hex4(text, pos).value
  {
    HexInTable(text[pos]);
    HexInTable(text[pos + 1]);
    HexInTable(text[pos + 2]);
    HexInTable(text[pos + 3]);
    hide G.IsHex, G.HexDigit, HexValue;
  }

  /** The character that one step of unescaping has read. */
  lemma CharWasRead(text: string, pos: nat) returns (ch: G.SpelledChar)
    requires pos < |text| && NextPiece(text, pos).Piece? && text[pos] != '\"'
    ensures G.CharIsValid(ch) && text[pos..NextPiece(text, pos).next] == G.CharText(ch)
    ensures NextPiece(text, pos).bytes == G.CharBytes(ch)
  {
    hide SimpleEscape, Utf16Piece, G.Place, G.IsHex4, G.Hex4, G.Encoding;
    if text[pos] != '\\' {
      ch := G.Plain(text[pos]);
    } else if At(text, pos + 1) == 'u' {
      ch := UnicodeWasRead(text, pos);
    } else {
      EscapeIsInTable(At(text, pos + 1));
      ch := G.Escaped(text[pos + 1]);
      assert text[pos..pos + 2] == "\\" + [text[pos + 1]];
    }
  }

  lemma UnicodeWasRead(text: string, pos: nat) returns (ch: G.SpelledChar)
    requires pos + 1 < |text| && text[pos] == '\\' && text[pos + 1] == 'u' && Utf16Piece(text, pos + 1).Piece?
    ensures G.CharIsValid(ch) && text[pos..Utf16Piece(text, pos + 1).next] == G.CharText(ch)
    ensures Utf16Piece(text, pos + 1).bytes == G.CharBytes(ch)
  {
    hide Hex4, G.Hex4, G.IsHex, G.IsHex4, Utf8Bytes, G.Encoding;
    HexWasRead(text, pos + 2);
    var high := text[pos + 2..pos + 6];
    EscapeSlice(text, pos, high);
    if Utf16Piece(text, pos + 1).next == pos + 6 {
      ch := G.Unicode(high);
      BytesAreEncoding(G.Hex4(high));
    } else {
      HexWasRead(text, pos + 8);
      var low := text[pos + 8..pos + 12];
      ch := G.Surrogates(high, low);
      EscapeSlice(text, pos + 6, low);
      assert text[pos..pos + 12] == text[pos..pos + 6] + text[pos + 6..pos + 12];
      assert "\\u" + high + "\\u" + low == "\\u" + high + ("\\u" + low);
      BytesAreEncoding(0x10000 + (G.Hex4(high) - 0xD800) * 0x400 + (G.Hex4(low) - 0xDC00));
    }
  }

  lemma EscapeSlice(text: string, pos: nat, hex: string)
    requires pos + 6 <= |text| && text[pos] == '\\' && text[pos + 1] == 'u' && hex == text[pos + 2..pos + 6]
    ensures text[pos..pos + 6] == "\\u" + hex
  {
  }

  lemma {:induction false} CharsWereRead(text: string, pos: nat, end: nat) returns (chars: seq<G.SpelledChar>)
    requires pos <= end < |text| && SkipBody(text, pos) == Some(end + 1) && Process(text, pos, end).Done?
    ensures G.CharsAreValid(chars) && text[pos..end] == G.CharsText(chars)
    ensures Process(text, pos, end).output == G.CharsBytes(chars)
    decreases end - pos
  {
    hide NextPiece, G.CharIsValid, G.CharText, G.CharBytes;
    chars := [];
    if pos < end {
      NotAtTheEnd(text, pos, end);
      PieceStaysInside(text, pos, end);
      var next := NextPiece(text, pos).next;
      var ch := CharWasRead(text, pos);
      var rest := CharsWereRead(text, next, end);
      chars := [ch] + rest;
      assert text[pos..end] == text[pos..next] + text[next..end];
      assert chars[1..] == rest;
    }
  }

  lemma NotAtTheEnd(text: string, pos: nat, end: nat)
    requires pos < end < |text| && SkipBody(text, pos) == Some(end + 1)
    ensures text[pos] != '\"' && text[pos] != NUL
  {
  }

  lemma QuotedWasRead(text: string, pos: nat) returns (chars: seq<G.SpelledChar>)
    requires pos <= |text| && QuotedString(text, pos).Ok?
    ensures G.CharsAreValid(chars) && StartsWith(text, pos, G.Quoted(chars))
    ensures QuotedString(text, pos) == Ok(G.StringOf(chars), pos + |G.Quoted(chars)|)
  {
    hide SkipBody, Process, G.CharsText, G.CharsBytes, G.CharsAreValid;
    var end := QuotedString(text, pos).next - 1;
    QuotedExactly(text, pos);
    chars := CharsWereRead(text, pos + 1, end);
    assert text[pos..end + 1] == "\"" + text[pos + 1..end] + "\"";
  }

  // ---- Numbers ----

  /** A minus sign without digits: 0, and the cursor stays on the sign. */
  predicate IsBareMinus(text: string, r: Parsed<Json>) {
    r.Ok? && r.value == Uint(0) && r.next < |text| && text[r.next] == '-'
  }

  lemma DigitsAre(s: string)
    requires forall i :: 0 <= i < |s| ==> IsDigit(s[i])
    ensures G.AreDigits(s)
  {
    forall i | 0 <= i < |s|
      ensures s[i] in G.DIGITS
    {
      DigitIsInTable(s[i]);
    }
  }

  lemma NumberWasRead(lib: LibC, text: string, pos: nat) returns (v: G.Spelling)
    requires pos < |text| && (text[pos] == '-' || IsDigit(text[pos]))
    requires ParseNumber(lib, text, pos).Ok? && NumberFree(ParseNumber(lib, text, pos).value)
    ensures IsBareMinus(text, ParseNumber(lib, text, pos))
      || (G.Valid(v) && StartsWith(text, pos, G.Text(v))
          && ParseNumber(lib, text, pos) == Ok(G.ValueOf(v), pos + |G.Text(v)|))
  {
    var negative := text[pos] == '-';
    var first := if negative then pos + 1 else pos;
    var end := DigitsEnd(text, first);
    v := G.SInteger(negative, text[first..end]);
    if end > first {
      IntegerWasRead(lib, text, pos, first, end, negative);
    } else {
      NumberStaysIff(lib, text, pos);
    }
  }

  lemma IntegerWasRead(lib: LibC, text: string, pos: nat, first: nat, end: nat, negative: bool)
    requires pos < |text| && (text[pos] == '-' || IsDigit(text[pos])) && (negative <==> text[pos] == '-')
    requires first == (if negative then pos + 1 else pos) && end == DigitsEnd(text, first) > first
    requires ParseNumber(lib, text, pos).Ok? && NumberFree(ParseNumber(lib, text, pos).value)
    ensures var v := G.SInteger(negative, text[first..end]);
      && G.Valid(v) && StartsWith(text, pos, G.Text(v))
      && ParseNumber(lib, text, pos) == Ok(G.ValueOf(v), pos + |G.Text(v)|)
  {
    hide DigitsEnd, DigitsValue, IsDecimal, G.Numeral, G.AreDigits, IsDigit, G.IntegerText, SkipSpaces;
    NoSpaceInNumber(text, pos);
    var digits := text[first..end];
    DigitsAre(digits);
    DigitsMean(digits);
    TokenIs(text, pos, first, end, negative);
    NoLeadingZero(negative, digits);
  }

  lemma NoSpaceInNumber(text: string, pos: nat)
    requires pos < |text| && (text[pos] == '-' || IsDigit(text[pos]))
    ensures SkipSpaces(text, pos) == pos && text[pos] != '+'
  {
  }

  lemma TokenIs(text: string, pos: nat, first: nat, end: nat, negative: bool)
    requires pos < |text| && (negative <==> text[pos] == '-')
      && first == (if negative then pos + 1 else pos) < end <= |text|
    ensures text[pos..end] == G.IntegerText(negative, text[first..end])
  {
  }

  lemma NoLeadingZero(negative: bool, digits: string)
    requires digits != "" && G.AreDigits(digits)
    ensures IsDecimal(G.IntegerText(negative, digits)) ==> (|digits| > 1 ==> digits[0] != '0')
  {
    var token := G.IntegerText(negative, digits);
    if |digits| > 1 && digits[0] == '0' {
      DigitIsInTable(digits[1]);
      if negative {
        assert token == ['-'] + digits && token[1] == digits[0] && token[2] == digits[1];
      }
    }
  }

  // ---- Values ----

  /** The text from `pos` on is a gap and a spelling, and the result is its value, up to its last byte. */
  ghost predicate IsSpelled(text: string, pos: nat, r: Parsed<Json>, gap: string, v: G.Spelling) {
    && G.IsGap(gap) && G.Valid(v) && StartsWith(text, pos, gap + G.Text(v))
    && r == Ok(G.ValueOf(v), pos + |gap + G.Text(v)|)
  }

  /** A result that is neither a failure nor a number with a point or an exponent. */
  predicate ReadWithoutNumbers(r: Parsed<Json>) {
    r.Ok? && NumberFree(r.value)
  }

  lemma {:induction false} ValueWasRead(lib: LibC, text: string, pos: nat, nesting: int)
    returns (gap: string, v: G.Spelling)
    requires pos <= |text| && ReadWithoutNumbers(ParseValue(lib, text, pos, nesting))
    ensures IsBareMinus(text, ParseValue(lib, text, pos, nesting))
      || IsSpelled(text, pos, ParseValue(lib, text, pos, nesting), gap, v)
    decreases |text| - pos, 3
  {
    hide ParseArray, ParseObject, ParseNumber, QuotedString, G.Quoted, G.ItemsText, G.MembersText, IsDigit,
      G.CharsAreValid, G.ItemsAreValid, G.MembersAreValid, IsSpelled, NumberFree, SkipSpaces;
    var start := SkipSpaces(text, pos);
    SkippedIsGap(text, pos);
    gap := text[pos..start];
    v := G.SNull;
    var r := ParseValue(lib, text, pos, nesting);
    if At(text, start) == '{' {
      v := ObjectWasRead(lib, text, start, nesting + 1);
    } else if At(text, start) == '[' {
      v := ArrayWasRead(lib, text, start, nesting + 1);
    } else if At(text, start) == '\"' {
      var chars := QuotedWasRead(text, start);
      v := G.SString(chars);
    } else if At(text, start) == 't' {
      v := G.STrue;
    } else if At(text, start) == 'f' {
      v := G.SFalse;
    } else if At(text, start) == '-' || IsDigit(At(text, start)) {
      DigitIsAChar(text, start);
      v := NumberWasRead(lib, text, start);
    }
    if !IsBareMinus(text, r) {
      AfterGap(text, pos, start, r, v);
    }
  }

  lemma DigitIsAChar(text: string, pos: nat)
    requires pos <= |text|
    ensures At(text, pos) == '-' || IsDigit(At(text, pos)) ==> pos < |text|
  {
  }

  lemma AfterGap(text: string, pos: nat, start: nat, r: Parsed<Json>, v: G.Spelling)
    requires pos <= start <= |text| && G.IsGap(text[pos..start]) && G.Valid(v) && StartsWith(text, start, G.Text(v))
    requires r == Ok(G.ValueOf(v), start + |G.Text(v)|)
    ensures IsSpelled(text, pos, r, text[pos..start], v)
  {
    hide G.Text, G.Valid, G.ValueOf, G.IsGap;
    var gap := text[pos..start];
    assert StartsWith(text, pos, gap);
    StartsWithConcat(text, pos, gap, G.Text(v));
  }

  // ---- Arrays ----

  lemma {:induction false} ArrayWasRead(lib: LibC, text: string, pos: nat, nesting: int) returns (v: G.Spelling)
    requires pos < |text| && text[pos] == '[' && ReadWithoutNumbers(ParseArray(lib, text, pos, nesting))
    ensures G.Valid(v) && StartsWith(text, pos, G.Text(v))
    ensures ParseArray(lib, text, pos, nesting) == Ok(G.ValueOf(v), pos + |G.Text(v)|)
    decreases |text| - pos, 2
  {
    hide ParseItems, SkipSpaces, StartsWith, G.IsGap, G.ItemsText, G.ItemsAreValid, ReadWithoutNumbers;
    var first := SkipSpaces(text, pos + 1);
    StartsWithOne(text, pos);
    if At(text, first) == ']' {
      SkippedIsGap(text, pos + 1);
      var gap := text[pos + 1..first];
      v := G.SArray(gap, []);
      BracketAfterGap(text, pos + 1, first);
      StartsWithConcat(text, pos, "[", gap + "]");
      NoItems();
    } else {
      var items := ItemsWereRead(lib, text, pos + 1, nesting, []);
      v := G.SArray("", items);
      NoGap();
      StartsWithConcat(text, pos, "[", G.ItemsText(items));
      NothingBefore(G.ValuesOf(items));
    }
  }

  lemma StartsWithOne(text: string, pos: nat)
    requires pos < |text|
    ensures StartsWith(text, pos, [text[pos]])
  {
  }

  lemma NoGap()
    ensures G.IsGap("")
  {
  }

  lemma NoItems()
    ensures G.ItemsAreValid([]) && G.ValuesOf([]) == []
  {
  }

  lemma BracketAfterGap(text: string, pos: nat, at: nat)
    requires pos <= at < |text|
    ensures StartsWith(text, pos, text[pos..at] + [text[at]])
  {
    assert text[pos..at + 1] == text[pos..at] + [text[at]];
  }

  lemma {:induction false} ItemsWereRead(lib: LibC, text: string, pos: nat, nesting: int, acc: seq<Json>)
    returns (items: seq<G.SpelledItem>)
    requires pos <= |text| && ReadWithoutNumbers(ParseItems(lib, text, SkipSpaces(text, pos), nesting, acc))
    ensures items != [] && G.ItemsAreValid(items) && StartsWith(text, pos, G.ItemsText(items))
    ensures ParseItems(lib, text, SkipSpaces(text, pos), nesting, acc)
      == Ok(Arr(acc + G.ValuesOf(items)), pos + |G.ItemsText(items)|)
    decreases |text| - pos, 4
  {
    hide *;
    var start := SkipSpaces(text, pos);
    SkipAgain(text, pos);
    SameAfterSpaces(lib, text, pos, start, nesting);
    ItemRound(lib, text, start, nesting, acc);
    var p := ParseValue(lib, text, start, nesting);
    var after := SkipSpaces(text, p.next);
    var gap, v := ValueWasRead(lib, text, pos, nesting);
    MinusIsNoSeparator(text, p);
    SpelledParts(text, pos, p, gap, v);
    SkippedIsGap(text, p.next);
    var first := G.SpelledItem(gap, v, text[p.next..after]);
    items := [first];
    if text[after] == ',' {
      var rest := ItemsWereRead(lib, text, after + 1, nesting, acc + [p.value]);
      StartsWithOne(text, after);
      StartsWithConcat(text, after, ",", G.ItemsText(rest));
      ElementWasRead(text, pos, gap + G.Text(v), p.next, after, "," + G.ItemsText(rest));
      items := items + rest;
      MoreItemsAre(first, rest, acc);
    } else {
      StartsWithOne(text, after);
      ElementWasRead(text, pos, gap + G.Text(v), p.next, after, "]");
      OneItemIs(first, acc);
    }
  }

  /** One round of the element loop that succeeds. */
  lemma ItemRound(lib: LibC, text: string, start: nat, nesting: int, acc: seq<Json>)
    requires start <= |text| && ReadWithoutNumbers(ParseItems(lib, text, start, nesting, acc))
    ensures ParseValue(lib, text, start, nesting).Ok? && ReadWithoutNumbers(ParseValue(lib, text, start, nesting))
    ensures var p := ParseValue(lib, text, start, nesting);
      var after := SkipSpaces(text, p.next);
      && after < |text| && (text[after] == ',' || text[after] == ']')
      && ParseItems(lib, text, start, nesting, acc)
         == if text[after] == ',' then ParseItems(lib, text, SkipSpaces(text, after + 1), nesting, acc + [p.value])
            else Ok(Arr(acc + [p.value]), after + 1)
  {
    hide ParseValue, SkipSpaces, NumberFree;
    ItemsKeepFirst(lib, text, start, nesting, acc);
  }

  lemma {:induction false} ItemsKeepFirst(lib: LibC, text: string, start: nat, nesting: int, acc: seq<Json>)
    requires start <= |text| && ParseItems(lib, text, start, nesting, acc).Ok?
    ensures var p := ParseValue(lib, text, start, nesting);
      p.Ok? && (NumberFree(ParseItems(lib, text, start, nesting, acc).value) ==> NumberFree(p.value))
    decreases |text| - start
  {
    hide ParseValue, SkipSpaces;
    var v := ParseItems(lib, text, start, nesting, acc).value;
    ItemsExtend(lib, text, start, nesting, acc);
    assert v.items[|acc|] == ParseValue(lib, text, start, nesting).value;
  }

  /** The elements read so far, and the next one, are the first of the result. */
  lemma {:induction false} ItemsExtend(lib: LibC, text: string, start: nat, nesting: int, acc: seq<Json>)
    requires start <= |text| && ParseItems(lib, text, start, nesting, acc).Ok?
    ensures var (p, r) := (ParseValue(lib, text, start, nesting), ParseItems(lib, text, start, nesting, acc).value);
      p.Ok? && r.Arr? && |r.items| > |acc| && r.items[..|acc|] == acc && r.items[|acc|] == p.value
    decreases |text| - start
  {
    hide ParseValue, SkipSpaces;
    var p := ParseValue(lib, text, start, nesting);
    var after := SkipSpaces(text, p.next);
    if At(text, after) == ',' {
      ItemsExtend(lib, text, SkipSpaces(text, after + 1), nesting, acc + [p.value]);
      var r := ParseItems(lib, text, start, nesting, acc).value;
      assert r.items[..|acc|] == r.items[..|acc| + 1][..|acc|] && r.items[|acc|] == r.items[..|acc| + 1][|acc|];
    }
  }

  lemma MinusIsNoSeparator(text: string, r: Parsed<Json>)
    requires r.Ok? && r.next <= |text|
    ensures IsBareMinus(text, r) ==> SkipSpaces(text, r.next) == r.next && text[r.next] == '-'
  {
  }

  lemma SpelledParts(text: string, pos: nat, r: Parsed<Json>, gap: string, v: G.Spelling)
    requires IsSpelled(text, pos, r, gap, v)
    ensures G.IsGap(gap) && G.Valid(v) && StartsWith(text, pos, gap + G.Text(v))
    ensures r == Ok(G.ValueOf(v), pos + |gap + G.Text(v)|) && pos < r.next <= |text|
  {
    hide G.Text, G.Valid, G.ValueOf, G.IsGap;
    TextStarts(v);
  }

  /** An element, the gap after it, and what follows. */
  lemma ElementWasRead(text: string, pos: nat, element: string, next: nat, after: nat, tail: string)
    requires StartsWith(text, pos, element) && next == pos + |element| <= after <= |text|
      && StartsWith(text, after, tail)
    ensures StartsWith(text, pos, element + (text[next..after] + tail))
    ensures pos + |element + (text[next..after] + tail)| == after + |tail|
  {
    var gap := text[next..after];
    assert StartsWith(text, next, gap);
    hide StartsWith;
    StartsWithConcat(text, next, gap, tail);
    StartsWithConcat(text, pos, element, gap + tail);
  }

  lemma MoreItemsAre(first: G.SpelledItem, rest: seq<G.SpelledItem>, acc: seq<Json>)
    requires G.IsGap(first.before) && G.Valid(first.value) && G.IsGap(first.after) && G.ItemsAreValid(rest)
      && rest != []
    ensures var all := [first] + rest;
      && G.ItemsAreValid(all)
      && G.ItemsText(all) == first.before + G.Text(first.value) + (first.after + ("," + G.ItemsText(rest)))
      && acc + [G.ValueOf(first.value)] + G.ValuesOf(rest) == acc + G.ValuesOf(all)
  {
    hide G.Valid, G.IsGap, G.Text, G.ItemsText, G.ItemsAreValid, G.ValuesOf;
    var all := [first] + rest;
    assert all[0] == first && all[1..] == rest;
    ItemsGoOn(all);
    Associate(first.before, G.Text(first.value), first.after + ("," + G.ItemsText(rest)));
    Associate(acc, [G.ValueOf(first.value)], G.ValuesOf(rest));
  }

  lemma OneItemIs(first: G.SpelledItem, acc: seq<Json>)
    requires G.IsGap(first.before) && G.Valid(first.value) && G.IsGap(first.after)
    ensures G.ItemsAreValid([first])
    ensures G.ItemsText([first]) == first.before + G.Text(first.value) + (first.after + "]")
    ensures acc + [G.ValueOf(first.value)] == acc + G.ValuesOf([first])
  {
    hide G.Valid, G.IsGap, G.Text, G.ItemsText, G.ItemsAreValid, G.ValuesOf;
    ItemsEnd([first]);
    Associate(first.before, G.Text(first.value), first.after + "]");
  }

  // ---- Objects ----

  lemma {:induction false} ObjectWasRead(lib: LibC, text: string, pos: nat, nesting: int) returns (v: G.Spelling)
    requires pos < |text| && text[pos] == '{' && ReadWithoutNumbers(ParseObject(lib, text, pos, nesting))
    ensures G.Valid(v) && StartsWith(text, pos, G.Text(v))
    ensures ParseObject(lib, text, pos, nesting) == Ok(G.ValueOf(v), pos + |G.Text(v)|)
    decreases |text| - pos, 2
  {
    hide *;
    ObjectParts(lib, text, pos, nesting);
    var first := SkipSpaces(text, pos + 1);
    StartsWithOne(text, pos);
    if At(text, first) == '}' {
      SkippedIsGap(text, pos + 1);
      var gap := text[pos + 1..first];
      v := G.SObject(gap, []);
      BracketAfterGap(text, pos + 1, first);
      StartsWithConcat(text, pos, "{", gap + "}");
      EmptyObjectIs(gap);
    } else {
      var members := MembersWereRead(lib, text, pos + 1, nesting, []);
      v := G.SObject("", members);
      StartsWithConcat(text, pos, "{", G.MembersText(members));
      ObjectIs(members);
      NothingBefore(G.FieldsOf(members));
    }
  }

  lemma ObjectParts(lib: LibC, text: string, pos: nat, nesting: int)
    requires pos < |text| && text[pos] == '{'
    ensures var first := SkipSpaces(text, pos + 1);
      && (At(text, first) == '}' ==> first < |text| && text[first] == '}')
      && ParseObject(lib, text, pos, nesting)
         == if At(text, first) == '}' then Ok(Obj([]), first + 1) else ParseFields(lib, text, first, nesting, [])
  {
    hide ParseFields, SkipSpaces;
  }

  lemma EmptyObjectIs(gap: string)
    requires G.IsGap(gap)
    ensures var v := G.SObject(gap, []); G.Valid(v) && G.ValueOf(v) == Obj([]) && G.Text(v) == "{" + (gap + "}")
  {
    hide G.IsGap;
  }

  lemma ObjectIs(members: seq<G.SpelledMember>)
    requires members != [] && G.MembersAreValid(members)
    ensures var v := G.SObject("", members);
      G.Valid(v) && G.ValueOf(v) == Obj(G.FieldsOf(members)) && G.Text(v) == "{" + G.MembersText(members)
  {
    NoGap();
    hide G.MembersAreValid, G.FieldsOf, G.MembersText, G.IsGap;
  }

  lemma NothingBefore<T>(s: seq<T>)
    ensures [] + s == s
  {
  }

  predicate FieldWithoutNumbers(r: Parsed<Field>) {
    r.Ok? && NumberFree(r.value.value)
  }

  lemma {:induction false} MembersWereRead(lib: LibC, text: string, pos: nat, nesting: int, acc: seq<Field>)
    returns (members: seq<G.SpelledMember>)
    requires pos <= |text| && ReadWithoutNumbers(ParseFields(lib, text, SkipSpaces(text, pos), nesting, acc))
    ensures members != [] && G.MembersAreValid(members) && StartsWith(text, pos, G.MembersText(members))
    ensures ParseFields(lib, text, SkipSpaces(text, pos), nesting, acc)
      == Ok(Obj(acc + G.FieldsOf(members)), pos + |G.MembersText(members)|)
    decreases |text| - pos, 5
  {
    hide *;
    var start := SkipSpaces(text, pos);
    FieldRound(lib, text, start, nesting, acc);
    var p := ParseField(lib, text, start, nesting);
    var after := SkipSpaces(text, p.next);
    SkippedIsGap(text, pos);
    SkippedIsGap(text, p.next);
    var first := MemberWasRead(lib, text, start, nesting, text[pos..start], text[p.next..after]);
    MemberWithGap(text, pos, start, first, p.next);
    members := [first];
    var element := first.before + G.MemberText(first);
    StartsWithOne(text, after);
    if text[after] == ',' {
      var rest := MembersWereRead(lib, text, after + 1, nesting, acc + [p.value]);
      StartsWithConcat(text, after, ",", G.MembersText(rest));
      ElementWasRead(text, pos, element, p.next, after, "," + G.MembersText(rest));
      members := members + rest;
      MoreMembersAre(first, rest, acc);
    } else {
      ElementWasRead(text, pos, element, p.next, after, "}");
      OneMemberIs(first, acc);
    }
  }

  /** One round of the member loop that succeeds. */
  lemma FieldRound(lib: LibC, text: string, start: nat, nesting: int, acc: seq<Field>)
    requires start <= |text| && ReadWithoutNumbers(ParseFields(lib, text, start, nesting, acc))
    ensures ParseField(lib, text, start, nesting).Ok? && FieldWithoutNumbers(ParseField(lib, text, start, nesting))
    ensures var p := ParseField(lib, text, start, nesting);
      var after := SkipSpaces(text, p.next);
      && after < |text| && (text[after] == ',' || text[after] == '}')
      && ParseFields(lib, text, start, nesting, acc)
         == if text[after] == ',' then ParseFields(lib, text, SkipSpaces(text, after + 1), nesting, acc + [p.value])
            else Ok(Obj(acc + [p.value]), after + 1)
  {
    hide ParseField, SkipSpaces, NumberFree, HasName;
    FieldsKeepFirst(lib, text, start, nesting, acc);
  }

  lemma FieldsKeepFirst(lib: LibC, text: string, start: nat, nesting: int, acc: seq<Field>)
    requires start <= |text| && ParseFields(lib, text, start, nesting, acc).Ok?
    ensures var p := ParseField(lib, text, start, nesting);
      p.Ok? && (NumberFree(ParseFields(lib, text, start, nesting, acc).value) ==> NumberFree(p.value.value))
  {
    hide ParseField, ParseFields, SkipSpaces;
    var v := ParseFields(lib, text, start, nesting, acc).value;
    FieldsExtend(lib, text, start, nesting, acc);
    assert v.fields[|acc|] == ParseField(lib, text, start, nesting).value;
  }

  lemma {:induction false} FieldsExtend(lib: LibC, text: string, start: nat, nesting: int, acc: seq<Field>)
    requires start <= |text| && ParseFields(lib, text, start, nesting, acc).Ok?
    ensures var (p, r) := (ParseField(lib, text, start, nesting), ParseFields(lib, text, start, nesting, acc).value);
      p.Ok? && r.Obj? && |r.fields| > |acc| && r.fields[..|acc|] == acc && r.fields[|acc|] == p.value
    decreases |text| - start
  {
    hide ParseField, SkipSpaces, HasName;
    var p := ParseField(lib, text, start, nesting);
    var after := SkipSpaces(text, p.next);
    if At(text, after) == ',' {
      FieldsExtend(lib, text, SkipSpaces(text, after + 1), nesting, acc + [p.value]);
      var r := ParseFields(lib, text, start, nesting, acc).value;
      assert r.fields[..|acc|] == r.fields[..|acc| + 1][..|acc|] && r.fields[|acc|] == r.fields[..|acc| + 1][|acc|];
    }
  }

  lemma MemberWithGap(text: string, pos: nat, start: nat, m: G.SpelledMember, next: nat)
    requires pos <= start <= |text| && m.before == text[pos..start] && StartsWith(text, start, G.MemberText(m))
    requires next == start + |G.MemberText(m)|
    ensures StartsWith(text, pos, m.before + G.MemberText(m)) && next == pos + |m.before + G.MemberText(m)|
  {
    hide G.MemberText;
    assert StartsWith(text, pos, m.before);
    StartsWithConcat(text, pos, m.before, G.MemberText(m));
  }

  /** A name, a colon and a value; the gaps around the member are given. */
  lemma {:induction false} MemberWasRead(lib: LibC, text: string, pos: nat, nesting: int, before: string, after: string)
    returns (m: G.SpelledMember)
    requires pos <= |text| && FieldWithoutNumbers(ParseField(lib, text, pos, nesting))
    requires G.IsGap(before) && G.IsGap(after)
    requires var p := ParseField(lib, text, pos, nesting);
      p.next < |text| && text[SkipSpaces(text, p.next)..] != "" && text[SkipSpaces(text, p.next)] != '-'
    ensures m.before == before && m.after == after && G.MemberIsValid(m) && StartsWith(text, pos, G.MemberText(m))
    ensures ParseField(lib, text, pos, nesting) == Ok(FieldOf(m), pos + |G.MemberText(m)|)
    decreases |text| - pos, 4
  {
    hide *;
    FieldParts(lib, text, pos, nesting);
    var name := QuotedWasRead(text, pos);
    var next := QuotedString(text, pos).next;
    var colon := SkipSpaces(text, next);
    SkippedIsGap(text, next);
    var p := ParseValue(lib, text, colon + 1, nesting);
    var gap, v := ValueWasRead(lib, text, colon + 1, nesting);
    MinusIsNoSeparator(text, p);
    SpelledParts(text, colon + 1, p, gap, v);
    m := G.SpelledMember(before, name, text[next..colon], gap, v, after);
    MemberIs(m);
    MemberTextIs(text, pos, next, colon, m);
  }

  lemma MemberTextIs(text: string, pos: nat, next: nat, colon: nat, m: G.SpelledMember)
    requires StartsWith(text, pos, G.Quoted(m.name)) && next == pos + |G.Quoted(m.name)| <= colon < |text|
    requires m.beforeColon == text[next..colon] && text[colon] == ':'
    requires StartsWith(text, colon + 1, m.afterColon + G.Text(m.value))
    requires G.MemberText(m) == G.Quoted(m.name) + (m.beforeColon + (":" + (m.afterColon + G.Text(m.value))))
    ensures StartsWith(text, pos, G.MemberText(m))
    ensures colon + 1 + |m.afterColon + G.Text(m.value)| == pos + |G.MemberText(m)|
  {
    hide *;
    var value := m.afterColon + G.Text(m.value);
    StartsWithOne(text, colon);
    StartsWithConcat(text, colon, ":", value);
    ElementWasRead(text, pos, G.Quoted(m.name), next, colon, ":" + value);
  }

  lemma FieldParts(lib: LibC, text: string, pos: nat, nesting: int)
    requires pos <= |text| && FieldWithoutNumbers(ParseField(lib, text, pos, nesting))
    ensures QuotedString(text, pos).Ok?
    ensures var (name, r) := (QuotedString(text, pos), ParseField(lib, text, pos, nesting));
      var colon := SkipSpaces(text, name.next);
      && colon < |text| && text[colon] == ':' && ParseValue(lib, text, colon + 1, nesting).Ok?
      && ReadWithoutNumbers(ParseValue(lib, text, colon + 1, nesting))
      && r == Ok(Field(name.value, ParseValue(lib, text, colon + 1, nesting).value),
                 ParseValue(lib, text, colon + 1, nesting).next)
  {
    hide QuotedString, ParseValue, SkipSpaces, NumberFree;
  }

  lemma MemberIs(m: G.SpelledMember)
    requires G.IsGap(m.before) && G.CharsAreValid(m.name) && G.IsGap(m.beforeColon) && G.IsGap(m.afterColon)
    requires G.Valid(m.value) && G.IsGap(m.after)
    ensures G.MemberIsValid(m) && FieldOf(m) == Field(G.StringOf(m.name), G.ValueOf(m.value))
    ensures G.MemberText(m) == G.Quoted(m.name) + (m.beforeColon + (":" + (m.afterColon + G.Text(m.value))))
  {
    hide G.IsGap, G.CharsAreValid, G.Valid, G.Quoted, G.Text, G.StringOf, G.ValueOf;
  }

  lemma MoreMembersAre(first: G.SpelledMember, rest: seq<G.SpelledMember>, acc: seq<Field>)
    requires G.MemberIsValid(first) && G.MembersAreValid(rest) && rest != []
    ensures var all := [first] + rest;
      && G.MembersAreValid(all)
      && G.MembersText(all) == first.before + G.MemberText(first) + (first.after + ("," + G.MembersText(rest)))
      && acc + [FieldOf(first)] + G.FieldsOf(rest) == acc + G.FieldsOf(all)
  {
    hide G.MemberIsValid, G.MemberText, G.MembersText, G.MembersAreValid, G.FieldsOf, FieldOf;
    var all := [first] + rest;
    assert all[0] == first && all[1..] == rest;
    MembersGoOn(all);
    Associate(first.before, G.MemberText(first), first.after + ("," + G.MembersText(rest)));
    Associate(acc, [FieldOf(first)], G.FieldsOf(rest));
  }

  lemma OneMemberIs(first: G.SpelledMember, acc: seq<Field>)
    requires G.MemberIsValid(first)
    ensures G.MembersAreValid([first])
    ensures G.MembersText([first]) == first.before + G.MemberText(first) + (first.after + "}")
    ensures acc + [FieldOf(first)] == acc + G.FieldsOf([first])
  {
    hide G.MemberIsValid, G.MemberText, G.MembersText, G.MembersAreValid, G.FieldsOf, FieldOf;
    MembersEnd([first]);
    Associate(first.before, G.MemberText(first), first.after + "}");
  }

  // ---- Main result ----

  /**
   * A whole text that is read, without floating numbers in the value, is an optional byte order mark, white space and
   * a spelling of that value, and whatever follows; or the value is the 0 of a bare minus sign.
   */
  lemma AcceptedTextIsSpelled(lib: LibC, text: string) returns (marked: bool, gap: string, v: G.Spelling)
    requires ParseText(lib, text).Ok? && NumberFree(ParseText(lib, text).value)
    ensures IsBareMinus(text, ParseText(lib, text))
      || (var front := (if marked then [0xEF as char, 0xBB as char, 0xBF as char] else "") + (gap + G.Text(v));
          && G.IsGap(gap) && G.Valid(v) && front <= text && ParseText(lib, text) == Ok(G.ValueOf(v), |front|))
  {
    hide ParseValue, NumberFree, G.Text, G.IsGap, G.Valid, G.ValueOf;
    marked := StartsWith(text, 0, BOM);
    var start := if marked then 3 else 0;
    gap, v := ValueWasRead(lib, text, start, 0);
    var front := text[..start] + (gap + G.Text(v));
    if !IsBareMinus(text, ParseText(lib, text)) {
      assert text[..|front|] == front;
    }
  }
}
