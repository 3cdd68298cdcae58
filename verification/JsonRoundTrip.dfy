/**
 * How Parson lays out and escapes what it prints, in the terms of the grammar; so parsing a printed text gives the
 * value
 * back, in both layouts and inside any surrounding text.
 */
module JsonRoundTrip {
  import opened CString
  import opened JsonValue
  import opened JsonPrint
  import opened JsonParse
  import opened JsonReading
  import G = JsonGrammar

  // ---- Strings ----

  /** Only control characters, quotes and backslashes are escaped, with a letter where there is one. */
  ghost function Spelled(c: char): G.SpelledChar {
    if c >= ' ' && c != '\"' && c != '\\' then G.Plain(c)
    else if c in G.MEANT then G.Escaped(G.ESCAPES[G.Place(G.MEANT, c)])
    else G.Unicode("00" + [G.LOWER_HEX[c as int / 16], G.LOWER_HEX[c as int % 16]])
  }

  ghost function SpelledString(s: string): seq<G.SpelledChar> {
    seq(|s|, i requires 0 <= i < |s| => Spelled(s[i]))
  }

  lemma MeantAre(c: char)
    ensures c in G.MEANT ==> var i := G.Place(G.MEANT, c);
      c == (if i == 0 then '\"' else if i == 1 then '\\' else if i == 2 then '/' else if i == 3 then 8 as char
            else if i == 4 then 12 as char else if i == 5 then '\n' else if i == 6 then '\r' else '\t')
    ensures c in G.MEANT <==> c == '\"' || c == '\\' || c == '/' || c == 8 as char || c == 12 as char || c == '\n'
                              || c == '\r' || c == '\t'
  {
    var m := G.MEANT;
    assert m[0] == '\"' && m[1] == '\\' && m[2] == '/' && m[3] == 8 as char && m[4] == 12 as char && m[5] == '\n'
        && m[6] == '\r' && m[7] == '\t' && |m| == 8;
  }

  lemma EscapesAre()
    ensures var e := G.ESCAPES;
      |e| == 8 && e[0] == '\"' && e[1] == '\\' && e[2] == '/' && e[3] == 'b' && e[4] == 'f' && e[5] == 'n'
      && e[6] == 'r' && e[7] == 't'
  {
  }

  lemma LetterMeans(c: char)
    requires c in G.MEANT
    ensures var e := G.ESCAPES[G.Place(G.MEANT, c)];
      G.CharIsValid(G.Escaped(e)) && G.CharBytes(G.Escaped(e)) == [c]
  {
    var e := G.ESCAPES[G.Place(G.MEANT, c)];
    EscapesAre();
    assert G.Place(G.ESCAPES, e) == G.Place(G.MEANT, c);
  }

  lemma ControlMeans(c: char)
    requires c < ' '
    ensures var ch := G.Unicode("00" + [G.LOWER_HEX[c as int / 16], G.LOWER_HEX[c as int % 16]]);
      G.CharIsValid(ch) && G.CharBytes(ch) == [c]
  {
    hide G.IsHex, G.HexDigit;
    var (h, l) := (G.LOWER_HEX[c as int / 16], G.LOWER_HEX[c as int % 16]);
    LowerHexMeans(c as int / 16);
    LowerHexMeans(c as int % 16);
    TwoDigits(h, l);
    assert G.Hex4("00" + [h, l]) == c as nat;
  }

  lemma TwoDigits(h: char, l: char)
    requires G.IsHex(h) && G.IsHex(l)
    ensures G.IsHex4("00" + [h, l]) && G.Hex4("00" + [h, l]) == G.HexDigit(h) * 16 + G.HexDigit(l)
  {
    hide G.IsHex, G.HexDigit;
    var hex := "00" + [h, l];
    assert hex[0] == '0' && hex[1] == '0' && hex[2] == h && hex[3] == l;
    LowerHexMeans(0);
    assert G.LOWER_HEX[0] == '0';
  }

  lemma LowerHexMeans(d: nat)
    requires d < 16
    ensures G.IsHex(G.LOWER_HEX[d]) && G.HexDigit(G.LOWER_HEX[d]) == d
  {
    forall i | 0 <= i < 16
      ensures G.LOWER_HEX[i] == if i < 10 then ('0' as int + i) as char else ('a' as int + i - 10) as char
    {
    }
  }

  /** The printer writes each character as it is spelled, and the spelling means the character. */
  lemma CharIsSpelled(c: char)
    requires c != NUL
    ensures EscapeChar(c) == G.CharText(Spelled(c))
    ensures G.CharIsValid(Spelled(c)) && G.CharBytes(Spelled(c)) == [c]
  {
    MeantAre(c);
    EscapesAre();
    hide G.CharIsValid, G.CharBytes, G.Place;
    if c >= ' ' && c != '\"' && c != '\\' {
      PlainMeans(c);
    } else if c in G.MEANT {
      LetterMeans(c);
    } else {
      ControlMeans(c);
      ControlText(c);
    }
  }

  lemma PlainMeans(c: char)
    requires c >= ' ' && c != '\"' && c != '\\'
    ensures G.CharIsValid(G.Plain(c)) && G.CharBytes(G.Plain(c)) == [c]
  {
  }

  lemma ControlText(c: char)
    requires c < ' '
    ensures "\\u" + ("00" + [G.LOWER_HEX[c as int / 16], G.LOWER_HEX[c as int % 16]])
         == "\\u00" + [HexDigit(c as int / 16), HexDigit(c as int % 16)]
  {
  }

  lemma {:induction false} StringIsSpelled(s: string)
    requires NulFree(s)
    ensures G.CharsAreValid(SpelledString(s))
    ensures Escape(s) == G.CharsText(SpelledString(s)) && G.CharsBytes(SpelledString(s)) == s
  {
    hide G.CharIsValid, G.CharText, G.CharBytes, Spelled, EscapeChar;
    if s != "" {
      CharIsSpelled(s[0]);
      StringIsSpelled(s[1..]);
      assert SpelledString(s)[1..] == SpelledString(s[1..]);
      assert SpelledString(s)[0] == Spelled(s[0]);
      assert s == [s[0]] + s[1..];
    }
  }

  lemma QuotedIsSpelled(s: string)
    requires NulFree(s)
    ensures G.CharsAreValid(SpelledString(s))
    ensures PrintString(s) == G.Quoted(SpelledString(s)) && G.StringOf(SpelledString(s)) == s
  {
    StringIsSpelled(s);
    hide Escape, G.CharsText, G.CharsBytes, SpelledString, UpToNul;
  }

  lemma PrintedString(text: string, pos: nat, s: string)
    requires NulFree(s) && StartsWith(text, pos, PrintString(s))
    ensures QuotedString(text, pos) == Ok(s, pos + |PrintString(s)|)
  {
    hide *;
    QuotedIsSpelled(s);
    QuotedIsRead(text, pos, SpelledString(s));
  }

  // ---- Integers ----

  lemma {:induction false} DecimalDigits(n: nat)
    ensures var s := Decimal(n);
      && 1 <= |s| && (|s| > 1 ==> s[0] != '0')
      && (forall k :: 0 <= k < |s| ==> IsDigit(s[k]))
      && DigitsValue(s) == n
      && (n > 0 ==> s[0] != '0')
  {
    if n < 10 {
      assert DigitsValue(Decimal(n)[..0]) == 0;
    } else {
      DecimalDigits(n / 10);
      var s := Decimal(n);
      assert s[..|s| - 1] == Decimal(n / 10);
      assert s[0] == Decimal(n / 10)[0];
    }
  }

  /** An integer is printed without sign and without superfluous zeros. */
  lemma DecimalIsNumeral(n: nat)
    requires n <= UINT64_MAX
    ensures G.IsNumeral(Decimal(n)) && G.Numeral(Decimal(n)) == n
  {
    var s := Decimal(n);
    DecimalDigits(n);
    forall i | 0 <= i < |s|
      ensures s[i] in G.DIGITS
    {
      DigitIsInTable(s[i]);
    }
    hide Decimal, DigitsValue, G.Numeral, IsDigit;
    DigitsMean(s);
  }

  lemma PrintedInteger(lib: LibC, text: string, pos: nat, n: nat)
    requires ReadsIntegers(lib) && n <= UINT64_MAX
    requires StartsWith(text, pos, Decimal(n)) && !ExtendsNumber(At(text, pos + |Decimal(n)|))
    ensures ParseNumber(lib, text, pos) == Ok(Uint(n), pos + |Decimal(n)|)
  {
    hide Decimal, ParseNumber, ReadsIntegers, ExtendsNumber, G.Numeral, G.IsNumeral, StartsWith;
    DecimalIsNumeral(n);
    assert G.IntegerText(false, Decimal(n)) == Decimal(n);
    IntegerIsRead(lib, text, pos, false, Decimal(n));
  }

  // ---- Layout ----

  /** In the pretty layout a new line, indented by four blanks a level. */
  function Line(pretty: bool, level: nat): string {
    if pretty then "\n" + seq(4 * level, _ => ' ') else ""
  }

  /** How a value is printed: every element on a line of its own, a level deeper than its bracket. */
  ghost function Spell(v: Json, level: nat, pretty: bool): G.Spelling
    requires NumberFree(v)
    decreases v, 1
  {
    match v
    case Null => G.SNull
    case Bool(b) => if b then G.STrue else G.SFalse
    case Uint(n) => G.SInteger(false, Decimal(n))
    case Str(s) => G.SString(SpelledString(s))
    case Arr(items) => G.SArray("", SpellItems(items, level, pretty))
    case Obj(fields) => G.SObject("", SpellFields(fields, level, pretty))
  }

  ghost function SpellItems(items: seq<Json>, level: nat, pretty: bool): (r: seq<G.SpelledItem>)
    requires forall i :: 0 <= i < |items| ==> NumberFree(items[i])
    ensures |r| == |items|
    decreases items, 0
  {
    if items == [] then []
    else
      [G.SpelledItem(Line(pretty, level + 1), Spell(items[0], level + 1, pretty),
                     if |items| == 1 then Line(pretty, level) else "")]
      + SpellItems(items[1..], level, pretty)
  }

  ghost function SpellFields(fields: seq<Field>, level: nat, pretty: bool): (r: seq<G.SpelledMember>)
    requires forall i :: 0 <= i < |fields| ==> NumberFree(fields[i].value)
    ensures |r| == |fields|
    decreases fields, 0
  {
    if fields == [] then [] else [SpellField(fields, level, pretty)] + SpellFields(fields[1..], level, pretty)
  }

  /** The first of the given members. */
  ghost function SpellField(fields: seq<Field>, level: nat, pretty: bool): G.SpelledMember
    requires fields != [] && NumberFree(fields[0].value)
    decreases fields, 0, 0
  {
    G.SpelledMember(Line(pretty, level + 1), SpelledString(fields[0].name), "", if pretty then " " else "",
                    Spell(fields[0].value, level + 1, pretty), if |fields| == 1 then Line(pretty, level) else "")
  }

  lemma {:induction false} IndentIs(level: nat)
    ensures Indent(level) == seq(4 * level, _ => ' ')
  {
    if level > 0 {
      IndentIs(level - 1);
      assert seq(4 * (level - 1), _ => ' ') + "    " == seq(4 * level, _ => ' ');
    }
  }

  lemma LineIs(pretty: bool, level: nat)
    ensures Line(pretty, level) == NewlineIf(pretty) + IndentIf(pretty, level) && G.IsGap(Line(pretty, level))
  {
    IndentIs(level);
    assert ' ' in G.SPACES && '\n' in G.SPACES by {
      assert G.SPACES[0] == ' ' && G.SPACES[2] == '\n';
    }
  }

  /**
   * The text that is printed is that of the spelling above: the layout, the choice of escapes and the digits are all
   * determined; and the spelling is a valid one of the value.
   */
  lemma {:induction false} PrintIsSpelled(lib: LibC, v: Json, level: nat, pretty: bool)
    requires WellFormed(v) && NumberFree(v)
    ensures G.Valid(Spell(v, level, pretty)) && G.ValueOf(Spell(v, level, pretty)) == v
    ensures Print(lib, v, level, pretty) == G.Text(Spell(v, level, pretty))
    decreases v, 1
  {
    hide G.Quoted, G.IsNumeral, G.Numeral, SpelledString, Decimal, PrintString, WellFormed, NumberFree;
    if v.Arr? {
      ArrayIsSpelled(lib, v, level, pretty);
    } else if v.Obj? {
      ObjectIsSpelled(lib, v, level, pretty);
    } else {
      LeafIsSpelled(lib, v, level, pretty);
    }
  }

  lemma LeafIsSpelled(lib: LibC, v: Json, level: nat, pretty: bool)
    requires WellFormed(v) && NumberFree(v) && !v.Arr? && !v.Obj?
    ensures G.Valid(Spell(v, level, pretty)) && G.ValueOf(Spell(v, level, pretty)) == v
    ensures Print(lib, v, level, pretty) == G.Text(Spell(v, level, pretty))
  {
    hide G.Quoted, G.IsNumeral, G.Numeral, SpelledString, Decimal, PrintString;
    match v
    case Uint(n) => DecimalIsNumeral(n);
    case Str(s) => QuotedIsSpelled(s);
    case _ =>
  }

  lemma {:induction false} ArrayIsSpelled(lib: LibC, v: Json, level: nat, pretty: bool)
    requires v.Arr? && WellFormed(v) && NumberFree(v)
    ensures G.Valid(Spell(v, level, pretty)) && G.ValueOf(Spell(v, level, pretty)) == v
    ensures Print(lib, v, level, pretty) == G.Text(Spell(v, level, pretty))
    decreases v, 0
  {
    hide SpellItems, G.ItemsText, G.ItemsAreValid, PrintItems, Closing, NewlineIf, G.IsGap;
    EmptyGap();
    if v.items != [] {
      ItemsAreSpelled(lib, v.items, level, pretty);
      Associate("[", NewlineIf(pretty), PrintItems(lib, v.items, level, pretty) + Closing(pretty, level, "]"));
    } else {
      NoItems();
    }
  }

  lemma {:induction false} ObjectIsSpelled(lib: LibC, v: Json, level: nat, pretty: bool)
    requires v.Obj? && WellFormed(v) && NumberFree(v)
    ensures G.Valid(Spell(v, level, pretty)) && G.ValueOf(Spell(v, level, pretty)) == v
    ensures Print(lib, v, level, pretty) == G.Text(Spell(v, level, pretty))
    decreases v, 0
  {
    hide SpellFields, G.MembersText, G.MembersAreValid, PrintFields, Closing, NewlineIf, G.IsGap, Distinct;
    EmptyGap();
    if v.fields != [] {
      FieldsAreSpelled(lib, v.fields, level, pretty);
      Associate("{", NewlineIf(pretty), PrintFields(lib, v.fields, level, pretty) + Closing(pretty, level, "}"));
    } else {
      NoItems();
    }
  }

  lemma NoItems()
    ensures G.ItemsAreValid([]) && G.ValuesOf([]) == [] && G.MembersAreValid([]) && G.FieldsOf([]) == []
  {
  }

  lemma EmptyGap()
    ensures G.IsGap("")
  {
  }

  lemma {:induction false} ItemsAreSpelled(lib: LibC, items: seq<Json>, level: nat, pretty: bool)
    requires items != [] && forall i :: 0 <= i < |items| ==> WellFormed(items[i]) && NumberFree(items[i])
    ensures var spelled := SpellItems(items, level, pretty);
      && G.ItemsAreValid(spelled) && G.ValuesOf(spelled) == items
      && NewlineIf(pretty) + (PrintItems(lib, items, level, pretty) + Closing(pretty, level, "]"))
         == G.ItemsText(spelled)
    decreases items, 0
  {
    hide *;
    var rest := items[1..];
    FirstItemIs(lib, items, level, pretty);
    PrintIsSpelled(lib, items[0], level + 1, pretty);
    LineIs(pretty, level + 1);
    LineIs(pretty, level);
    EmptyGap();
    var (newline, indent) := (NewlineIf(pretty), IndentIf(pretty, level + 1));
    var (first, closing) := (Print(lib, items[0], level + 1, pretty), Closing(pretty, level, "]"));
    if rest == [] {
      LastLine(newline, indent, first, IndentIf(pretty, level), "]");
      ItemsEnd(SpellItems(items, level, pretty));
    } else {
      ItemsAreSpelled(lib, rest, level, pretty);
      NextLine(newline, indent, first, PrintItems(lib, rest, level, pretty), closing);
      ItemsGoOn(SpellItems(items, level, pretty));
    }
  }

  lemma FirstItemIs(lib: LibC, items: seq<Json>, level: nat, pretty: bool)
    requires items != [] && forall i :: 0 <= i < |items| ==> WellFormed(items[i]) && NumberFree(items[i])
    ensures var (spelled, rest) := (SpellItems(items, level, pretty), items[1..]);
      && spelled[0] == G.SpelledItem(Line(pretty, level + 1), Spell(items[0], level + 1, pretty),
                                     if |items| == 1 then Line(pretty, level) else "")
      && spelled[1..] == SpellItems(rest, level, pretty) && items == [items[0]] + rest
      && PrintItems(lib, items, level, pretty)
         == IndentIf(pretty, level + 1) + Print(lib, items[0], level + 1, pretty)
            + ((if |items| == 1 then "" else ",") + NewlineIf(pretty)) + PrintItems(lib, rest, level, pretty)
      && (|items| == 1 ==> PrintItems(lib, rest, level, pretty) == "")
      && Closing(pretty, level, "]") == IndentIf(pretty, level) + "]"
  {
    hide WellFormed, NumberFree, Spell, Print, Line, IndentIf, NewlineIf;
  }

  lemma NextLine(newline: string, indent: string, first: string, rest: string, closing: string)
    ensures newline + (indent + first + ("," + newline) + rest + closing)
         == newline + indent + (first + ("" + ("," + (newline + (rest + closing)))))
  {
  }

  lemma LastLine(newline: string, indent: string, first: string, outer: string, bracket: string)
    ensures newline + (indent + first + ("" + newline) + "" + (outer + bracket))
         == newline + indent + (first + (newline + outer + bracket))
  {
  }

  lemma {:induction false} FieldsAreSpelled(lib: LibC, fields: seq<Field>, level: nat, pretty: bool)
    requires fields != [] && forall i ::
      0 <= i < |fields| ==> NulFree(fields[i].name) && WellFormed(fields[i].value) && NumberFree(fields[i].value)
    ensures var spelled := SpellFields(fields, level, pretty);
      && G.MembersAreValid(spelled) && G.FieldsOf(spelled) == fields
      && NewlineIf(pretty) + (PrintFields(lib, fields, level, pretty) + Closing(pretty, level, "}"))
         == G.MembersText(spelled)
    decreases fields, 0
  {
    hide *;
    var rest := fields[1..];
    FirstFieldIs(lib, fields, level, pretty);
    FieldIsSpelled(lib, fields, level, pretty);
    LineIs(pretty, level + 1);
    LineIs(pretty, level);
    EmptyGap();
    var (newline, indent) := (NewlineIf(pretty), IndentIf(pretty, level + 1));
    var (first, closing) := (PrintField(lib, fields[0], level, pretty), Closing(pretty, level, "}"));
    if rest == [] {
      LastLine(newline, indent, first, IndentIf(pretty, level), "}");
      MembersEnd(SpellFields(fields, level, pretty));
    } else {
      FieldsAreSpelled(lib, rest, level, pretty);
      NextLine(newline, indent, first, PrintFields(lib, rest, level, pretty), closing);
      MembersGoOn(SpellFields(fields, level, pretty));
    }
  }

  lemma FirstFieldIs(lib: LibC, fields: seq<Field>, level: nat, pretty: bool)
    requires fields != [] && forall i ::
      0 <= i < |fields| ==> NulFree(fields[i].name) && WellFormed(fields[i].value) && NumberFree(fields[i].value)
    ensures var (spelled, rest) := (SpellFields(fields, level, pretty), fields[1..]);
      && spelled[0] == SpellField(fields, level, pretty)
      && spelled[1..] == SpellFields(rest, level, pretty) && fields == [fields[0]] + rest
      && PrintFields(lib, fields, level, pretty)
         == IndentIf(pretty, level + 1) + PrintField(lib, fields[0], level, pretty)
            + ((if |fields| == 1 then "" else ",") + NewlineIf(pretty)) + PrintFields(lib, rest, level, pretty)
      && (|fields| == 1 ==> PrintFields(lib, rest, level, pretty) == "")
      && Closing(pretty, level, "}") == IndentIf(pretty, level) + "}"
  {
    hide WellFormed, NumberFree, SpellField, PrintField, IndentIf, NewlineIf;
  }

  /** A member is printed as a quoted name, a colon, in the pretty layout a blank, and the value. */
  lemma {:induction false} FieldIsSpelled(lib: LibC, fields: seq<Field>, level: nat, pretty: bool)
    requires fields != [] && NulFree(fields[0].name) && WellFormed(fields[0].value) && NumberFree(fields[0].value)
    ensures var m := SpellField(fields, level, pretty);
      && m.before == Line(pretty, level + 1) && m.after == (if |fields| == 1 then Line(pretty, level) else "")
      && G.MemberIsValid(m) && FieldOf(m) == fields[0]
      && G.MemberText(m) == PrintField(lib, fields[0], level, pretty)
    decreases fields, 0, 1
  {
    hide WellFormed, NumberFree, Print, G.Text, G.Valid, G.ValueOf, Spell, PrintString, G.Quoted, SpelledString, Line,
      G.IsGap,
      G.CharsAreValid, G.StringOf;
    QuotedIsSpelled(fields[0].name);
    PrintIsSpelled(lib, fields[0].value, level + 1, pretty);
    LineIs(pretty, level + 1);
    LineIs(pretty, level);
    GapsAre();
    var (name, gap) := (PrintString(fields[0].name), if pretty then " " else "");
    var value := Print(lib, fields[0].value, level + 1, pretty);
    assert name + ":" + gap + value == name + ("" + (":" + (gap + value)));
  }

  lemma GapsAre()
    ensures G.IsGap("") && G.IsGap(" ")
  {
    assert G.SPACES[0] == ' ';
  }

  // ---- Main results ----

  /** The printed text of `v` anywhere in a text: it is read back, and the cursor stops just past it. */
  lemma PrintedValue(lib: LibC, text: string, pos: nat, v: Json, level: nat, pretty: bool, nesting: int)
    requires ReadsIntegers(lib) && WellFormed(v) && NumberFree(v) && StartsWith(text, pos, Print(lib, v, level, pretty))
    requires v.Uint? ==> !ExtendsNumber(At(text, pos + |Print(lib, v, level, pretty)|))
    ensures ParseValue(lib, text, pos, nesting) == Expected(v, nesting, pos + |Print(lib, v, level, pretty)|)
  {
    hide Print, WellFormed, NumberFree, StartsWith, ParseValue, ReadsIntegers, ExtendsNumber, G.Text, G.Valid,
      G.ValueOf;
    PrintIsSpelled(lib, v, level, pretty);
    ValueIsRead(lib, text, pos, Spell(v, level, pretty), nesting);
  }

  /**
   * Print then parse: the value comes back, and the cursor stops just past its text, exactly when the nesting limit
   * allows it.
   */
  lemma PrintThenParse(lib: LibC, before: string, v: Json, after: string, level: nat, pretty: bool)
    requires ReadsIntegers(lib) && WellFormed(v) && NumberFree(v)
    requires v.Uint? ==> !ExtendsNumber(At(after, 0))
    ensures var printed := Print(lib, v, level, pretty);
      ParseValue(lib, before + printed + after, |before|, 0)
      == if Nesting(v) <= MAX_NESTING then Ok(v, |before| + |printed|) else Fail
  {
    hide Print, ParseValue, StartsWith, WellFormed, NumberFree, Nesting, At;
    var printed := Print(lib, v, level, pretty);
    Surrounded(before, printed, after);
    PrintedValue(lib, before + printed + after, |before|, v, level, pretty, 0);
  }

  lemma Surrounded(before: string, x: string, after: string)
    ensures StartsWith(before + x + after, |before|, x)
    ensures At(before + x + after, |before| + |x|) == At(after, 0)
  {
    assert (before + x + after)[|before|..|before| + |x|] == x;
  }

  lemma PrintThenParseFrom(lib: LibC, v: Json, pretty: bool, nesting: int)
    requires ReadsIntegers(lib) && WellFormed(v) && NumberFree(v)
    ensures ParseValue(lib, Print(lib, v, 0, pretty), 0, nesting) == Expected(v, nesting, |Print(lib, v, 0, pretty)|)
  {
    hide Print, ParseValue;
    var printed := Print(lib, v, 0, pretty);
    assert printed[0..|printed|] == printed;
    PrintedValue(lib, printed, 0, v, 0, pretty, nesting);
  }

  /** Different values never print alike, whatever the layouts and however deep they nest. */
  lemma PrintIsInjective(lib: LibC, v: Json, w: Json, prettyV: bool, prettyW: bool)
    requires ReadsIntegers(lib) && WellFormed(v) && NumberFree(v) && WellFormed(w) && NumberFree(w)
    requires Print(lib, v, 0, prettyV) == Print(lib, w, 0, prettyW)
    ensures v == w
  {
    hide Print, ParseValue, WellFormed, NumberFree, Nesting;
    var nesting := MAX_NESTING - Max(Nesting(v), Nesting(w));
    PrintThenParseFrom(lib, v, prettyV, nesting);
    PrintThenParseFrom(lib, w, prettyW, nesting);
  }
}
