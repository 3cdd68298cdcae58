/** What holds of every text Parson accepts. */
module JsonParseFacts {
  import opened CString
  import opened JsonValue
  import opened JsonParse
  import opened JsonPrint
  import opened JsonReading
  import opened JsonRoundTrip
  import G = JsonGrammar

  // ---- The two scanners of a quoted string agree ----

  lemma HexDigitsArePlain(text: string, pos: nat)
    requires pos <= |text| && Hex4(text, pos).Some?
    ensures SkipBody(text, pos) == SkipBody(text, pos + 4)
  {
    forall k | pos <= k < pos + 4
      ensures text[k] != '\"' && text[k] != '\\' && text[k] != NUL
    {
      assert HexValue(text[k]) != -1;
    }
    hide Hex4;
    assert SkipBody(text, pos) == SkipBody(text, pos + 1) == SkipBody(text, pos + 2) == SkipBody(text, pos + 3);
  }

  lemma EscapeStaysInside(text: string, pos: nat)
    requires pos < |text| && Utf16Piece(text, pos).Piece? && text[pos] == 'u'
    ensures SkipBody(text, pos) == SkipBody(text, Utf16Piece(text, pos).next)
  {
    hide Hex4;
    HexDigitsArePlain(text, pos + 1);
    assert SkipBody(text, pos) == SkipBody(text, pos + 1) == SkipBody(text, pos + 5);
    if Utf16Piece(text, pos).next == pos + 11 {
      HexDigitsArePlain(text, pos + 7);
      assert SkipBody(text, pos + 5) == SkipBody(text, pos + 7) == SkipBody(text, pos + 11);
    }
  }

  /**
   * Every piece process_string reads is one that skip_quotes stepped over, so the closing quote is never inside a
   * piece.
   */
  lemma PieceStaysInside(text: string, pos: nat, end: nat)
    requires pos < end && pos < |text| && SkipBody(text, pos) == Some(end + 1) && NextPiece(text, pos).Piece?
    ensures NextPiece(text, pos).next <= end
    ensures SkipBody(text, NextPiece(text, pos).next) == Some(end + 1)
  {
    hide Utf16Piece;
    if text[pos] == '\\' && At(text, pos + 1) == 'u' {
      EscapeStaysInside(text, pos + 1);
      assert SkipBody(text, pos) == SkipBody(text, pos + 2) == SkipBody(text, pos + 1);
    }
  }

  lemma {:induction false} ProcessStopsAtQuote(text: string, pos: nat, end: nat)
    requires pos <= end < |text| && SkipBody(text, pos) == Some(end + 1)
    requires Process(text, pos, end).Done?
    ensures Process(text, pos, end).stop == end
    decreases end - pos
  {
    hide NextPiece;
    if pos < end {
      PieceStaysInside(text, pos, end);
      ProcessStopsAtQuote(text, NextPiece(text, pos).next, end);
    }
  }

  /**
   * get_quoted_string: on success process_string has read exactly the text between the quotes and written no more
   * bytes than it read.
   */
  lemma QuotedExactly(text: string, pos: nat)
    requires pos <= |text| && QuotedString(text, pos).Ok?
    ensures var end := QuotedString(text, pos).next - 1;
      && text[pos] == '\"' && text[end] == '\"'
      && Process(text, pos + 1, end).Done?
      && Process(text, pos + 1, end).stop == end
      && |QuotedString(text, pos).value| <= |Process(text, pos + 1, end).output| <= end - (pos + 1)
  {
    var end := QuotedString(text, pos).next - 1;
    ProcessStopsAtQuote(text, pos + 1, end);
    UpToNulIsShorter(Process(text, pos + 1, end).output);
  }

  lemma {:induction false} UpToNulIsShorter(s: string)
    ensures |UpToNul(s)| <= |s|
  {
    if s != "" {
      UpToNulIsShorter(s[1..]);
    }
  }

  // ---- Every accepted tree is one the serializer can print back ----

  /** Parsed values hold 64-bit integers, zero-free strings and distinct names, and respect the nesting limit. */
  lemma {:induction false} ParsedValue(lib: LibC, text: string, pos: nat, nesting: int)
    requires pos <= |text| && ParseValue(lib, text, pos, nesting).Ok?
    ensures WellFormed(ParseValue(lib, text, pos, nesting).value)
    ensures nesting + Nesting(ParseValue(lib, text, pos, nesting).value) <= MAX_NESTING
    decreases |text| - pos, 2
  {
    hide SkipBody, Process, ParseArray, ParseObject, ParseNumber, QuotedString, SkipSpaces;
    var start := SkipSpaces(text, pos);
    if At(text, start) == '[' {
      ParsedArray(lib, text, start, nesting + 1);
    } else if At(text, start) == '{' {
      ParsedObject(lib, text, start, nesting + 1);
    }
  }

  lemma {:induction false} ParsedArray(lib: LibC, text: string, pos: nat, nesting: int)
    requires pos < |text| && text[pos] == '[' && nesting <= MAX_NESTING + 1 && ParseArray(lib, text, pos, nesting).Ok?
    ensures var v := ParseArray(lib, text, pos, nesting).value; WellFormed(v) && nesting - 1 + Nesting(v) <= MAX_NESTING
    decreases |text| - pos, 1
  {
    hide ParseItems;
    var first := SkipSpaces(text, pos + 1);
    if At(text, first) != ']' {
      ParsedItems(lib, text, first, nesting, []);
    }
  }

  lemma {:induction false} ParsedItems(lib: LibC, text: string, pos: nat, nesting: int, acc: seq<Json>)
    requires pos <= |text| && ParseItems(lib, text, pos, nesting, acc).Ok?
    requires (forall i :: 0 <= i < |acc| ==> WellFormed(acc[i])) && nesting + NestingOfItems(acc) <= MAX_NESTING + 1
    requires acc != [] ==> nesting + NestingOfItems(acc) <= MAX_NESTING
    ensures var v := ParseItems(lib, text, pos, nesting, acc).value;
      WellFormed(v) && nesting - 1 + Nesting(v) <= MAX_NESTING
    decreases |text| - pos, 3
  {
    hide ParseValue, SkipSpaces, Nesting;
    ParsedValue(lib, text, pos, nesting);
    var (item, next) := (ParseValue(lib, text, pos, nesting).value, ParseValue(lib, text, pos, nesting).next);
    NestingOfAppendedItem(acc, item);
    var after := SkipSpaces(text, next);
    if At(text, after) == ',' {
      ParsedItems(lib, text, SkipSpaces(text, after + 1), nesting, acc + [item]);
    } else {
      NestingOfArray(acc + [item]);
    }
  }

  lemma NestingOfArray(items: seq<Json>)
    requires items != []
    ensures Nesting(Arr(items)) == 1 + NestingOfItems(items)
  {
  }

  lemma {:induction false} NestingOfAppendedItem(acc: seq<Json>, item: Json)
    ensures NestingOfItems(acc + [item]) == Max(NestingOfItems(acc), Nesting(item))
  {
    if acc == [] {
      assert acc + [item] == [item];
    } else {
      assert (acc + [item])[1..] == acc[1..] + [item];
      NestingOfAppendedItem(acc[1..], item);
    }
  }

  lemma {:induction false} ParsedObject(lib: LibC, text: string, pos: nat, nesting: int)
    requires pos < |text| && text[pos] == '{' && nesting <= MAX_NESTING + 1 && ParseObject(lib, text, pos, nesting).Ok?
    ensures var v := ParseObject(lib, text, pos, nesting).value;
      WellFormed(v) && nesting - 1 + Nesting(v) <= MAX_NESTING
    decreases |text| - pos, 1
  {
    hide ParseFields;
    var first := SkipSpaces(text, pos + 1);
    if At(text, first) != '}' {
      ParsedFields(lib, text, first, nesting, []);
    }
  }

  lemma {:induction false} ParsedFields(lib: LibC, text: string, pos: nat, nesting: int, acc: seq<Field>)
    requires pos <= |text| && ParseFields(lib, text, pos, nesting, acc).Ok?
    requires WellFormed(Obj(acc)) && nesting + NestingOfFields(acc) <= MAX_NESTING + 1
    requires acc != [] ==> nesting + NestingOfFields(acc) <= MAX_NESTING
    ensures var v := ParseFields(lib, text, pos, nesting, acc).value;
      WellFormed(v) && nesting - 1 + Nesting(v) <= MAX_NESTING
    decreases |text| - pos, 4
  {
    hide ParseField, SkipSpaces, Nesting;
    var (field, next) := (ParseField(lib, text, pos, nesting).value, ParseField(lib, text, pos, nesting).next);
    ParsedField(lib, text, pos, nesting);
    NestingOfAppendedField(acc, field);
    var after := SkipSpaces(text, next);
    if At(text, after) == ',' {
      ParsedFields(lib, text, SkipSpaces(text, after + 1), nesting, acc + [field]);
    } else {
      NestingOfObject(acc + [field]);
    }
  }

  lemma {:induction false} ParsedField(lib: LibC, text: string, pos: nat, nesting: int)
    requires pos <= |text| && ParseField(lib, text, pos, nesting).Ok?
    ensures var f := ParseField(lib, text, pos, nesting).value;
      NulFree(f.name) && WellFormed(f.value) && nesting + Nesting(f.value) <= MAX_NESTING
    decreases |text| - pos, 3
  {
    hide ParseValue, SkipSpaces, Nesting, QuotedString;
    var colon := SkipSpaces(text, QuotedString(text, pos).next);
    ParsedValue(lib, text, colon + 1, nesting);
  }

  lemma NestingOfObject(fields: seq<Field>)
    requires fields != []
    ensures Nesting(Obj(fields)) == 1 + NestingOfFields(fields)
  {
  }

  lemma {:induction false} NestingOfAppendedField(acc: seq<Field>, f: Field)
    ensures NestingOfFields(acc + [f]) == Max(NestingOfFields(acc), Nesting(f.value))
  {
    if acc == [] {
      assert acc + [f] == [f];
    } else {
      assert (acc + [f])[1..] == acc[1..] + [f];
      NestingOfAppendedField(acc[1..], f);
    }
  }

  /** Whatever text was read, printing the tree and reading it again gives the same tree. */
  lemma ReadPrintRead(lib: LibC, text: string, pretty: bool)
    requires ReadsIntegers(lib) && ParseText(lib, text).Ok? && NumberFree(ParseText(lib, text).value)
    ensures var v := ParseText(lib, text).value;
      ParseText(lib, Print(lib, v, 0, pretty)) == Ok(v, |Print(lib, v, 0, pretty)|)
  {
    hide ParseValue, Print, WellFormed, NumberFree, ReadsIntegers, ExtendsNumber, Nesting, G.Text, G.Valid, G.ValueOf;
    var v := ParseText(lib, text).value;
    ParsedValue(lib, text, if StartsWith(text, 0, BOM) then 3 else 0, 0);
    PrintIsSpelled(lib, v, 0, pretty);
    var printed := Print(lib, v, 0, pretty);
    assert "" + ("" + printed) + "" == printed;
    NoExtension();
    EmptyGap();
    SpelledTextIsRead(lib, false, "", Spell(v, 0, pretty), "");
  }

  lemma NoExtension()
    ensures !ExtendsNumber(NUL)
  {
  }

  /**
   * On a digit or a minus sign, a number is read without moving the cursor exactly when strtod consumes nothing and
   * reports no error. The value is then 0, an integer when strtoull consumes nothing either.
   */
  lemma NumberStaysIff(lib: LibC, text: string, pos: nat)
    requires pos < |text| && (text[pos] == '-' || IsDigit(text[pos]))
    ensures var r := ParseNumber(lib, text, pos);
      (r.Ok? && r.next == pos) <==> lib.strtod(text, pos).clean && lib.strtod(text, pos).length == 0
    ensures var r := ParseNumber(lib, text, pos);
      r.Ok? && r.next == pos ==>
        r.value == if Strtoull(text, pos) == (pos, Some(0)) then Uint(0) else Number(lib.strtod(text, pos).value)
  {
    var (end, value) := Strtoull(text, pos);
    assert SkipSpaces(text, pos) == pos;
    assert text[pos..pos] == "";
    if end == pos {
      assert value == Some(0);
    }
  }

  /**
   * strtoull consumes nothing at a minus sign exactly when no digit follows it: such a sign is read as the integer 0.
   */
  lemma BareMinusIsZero(lib: LibC, text: string, pos: nat)
    requires pos < |text| && text[pos] == '-' && lib.strtod(text, pos).clean && lib.strtod(text, pos).length == 0
    ensures ParseNumber(lib, text, pos) == Ok(Uint(0), pos) <==> !IsDigit(At(text, pos + 1))
  {
    NumberStaysIff(lib, text, pos);
    assert SkipSpaces(text, pos) == pos;
    assert DigitsEnd(text, pos + 1) == pos + 1 <==> !IsDigit(At(text, pos + 1));
  }

  /** So does a whole text that starts with such a sign. */
  lemma BareMinusText(lib: LibC, text: string)
    requires text != "" && text[0] == '-' && !IsDigit(At(text, 1))
    requires lib.strtod(text, 0).clean && lib.strtod(text, 0).length == 0
    ensures ParseText(lib, text) == Ok(Uint(0), 0)
  {
    BareMinusIsZero(lib, text, 0);
    assert SkipSpaces(text, 0) == 0;
    if StartsWith(text, 0, BOM) {
      StartsWithAt(text, 0, BOM, 0);
    }
    hide ParseNumber;
  }
}
