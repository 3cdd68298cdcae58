/**
 * The texts Parson reads, by how they are spelled: white space, escapes, digits of either case and all. Nothing here
 * refers to the parser; section numbers are those of RFC 8259.
 */
module JsonGrammar {
  import opened CString
  import opened JsonValue

  /** A character of a string: itself, a two-character escape, a `\u` escape, or two of them for a surrogate pair. */
  datatype SpelledChar =
    | Plain(c: char)
    | Escaped(c: char)
    | Unicode(hex: string)
    | Surrogates(high: string, low: string)

  /** Section 3, with a sign and decimal digits for numbers; `gap` is the white space inside empty brackets. */
  datatype Spelling =
    | SNull
    | STrue
    | SFalse
    | SInteger(negative: bool, digits: string)
    | SString(chars: seq<SpelledChar>)
    | SArray(gap: string, items: seq<SpelledItem>)
    | SObject(gap: string, members: seq<SpelledMember>)

  datatype SpelledItem = SpelledItem(before: string, value: Spelling, after: string)

  datatype SpelledMember = SpelledMember(before: string, name: seq<SpelledChar>, beforeColon: string,
                                         afterColon: string, value: Spelling, after: string)

  // ---- Tables ----

  /** What isspace accepts in the C locale: blank, tab, line feed, carriage return, vertical tab, form feed. */
  const SPACES: string := " \t\n\r" + [11 as char, 12 as char]

  const DIGITS: string := "0123456789"

  const LOWER_HEX: string := "0123456789abcdef"
  const UPPER_HEX: string := "0123456789ABCDEF"

  /** The letters after a backslash, and the characters they mean (section 7). */
  const ESCAPES: string := "\"\\/bfnrt"
  const MEANT: string := "\"\\/" + [8 as char, 12 as char] + "\n\r\t"

  /** The place of a character in a table. */
  ghost function Place(table: string, c: char): (i: nat)
    requires c in table
    ensures i < |table| && table[i] == c
  {
    var i :| 0 <= i < |table| && table[i] == c;
    i
  }

  predicate IsGap(s: string) {
    forall c <- s :: c in SPACES
  }

  // ---- Characters ----

  predicate IsHex(c: char) {
    c in LOWER_HEX || c in UPPER_HEX
  }

  ghost function HexDigit(c: char): nat
    requires IsHex(c)
  {
    if c in LOWER_HEX then Place(LOWER_HEX, c) else Place(UPPER_HEX, c)
  }

  predicate IsHex4(s: string) {
    |s| == 4 && IsHex(s[0]) && IsHex(s[1]) && IsHex(s[2]) && IsHex(s[3])
  }

  ghost function Hex4(s: string): nat
    requires IsHex4(s)
  {
    ((HexDigit(s[0]) * 16 + HexDigit(s[1])) * 16 + HexDigit(s[2])) * 16 + HexDigit(s[3])
  }

  ghost predicate CharIsValid(ch: SpelledChar) {
    match ch
    case Plain(c) => c >= ' ' && c != '\"' && c != '\\'
    case Escaped(c) => c in ESCAPES
    case Unicode(hex) => IsHex4(hex) && !(0xD800 <= Hex4(hex) <= 0xDFFF)
    case Surrogates(high, low) =>
      && IsHex4(high) && 0xD800 <= Hex4(high) <= 0xDBFF
      && IsHex4(low) && 0xDC00 <= Hex4(low) <= 0xDFFF
  }

  function CharText(ch: SpelledChar): string {
    match ch
    case Plain(c) => [c]
    case Escaped(c) => "\\" + [c]
    case Unicode(hex) => "\\u" + hex
    case Surrogates(high, low) => "\\u" + high + "\\u" + low
  }

  /** Continuation bytes: six bits each, the last ones last. */
  function Continued(cp: nat, n: nat): string {
    if n == 0 then "" else Continued(cp / 64, n - 1) + [(0x80 + cp % 64) as char]
  }

  function Leading(cp: nat, n: nat): nat {
    if n == 0 then cp else Leading(cp / 64, n - 1)
  }

  /** The UTF-8 encoding of a code point (section 3 of RFC 3629). */
  function Encoding(cp: nat): string
    requires cp <= 0x10FFFF
  {
    if cp < 0x80 then [cp as char]
    else if cp < 0x800 then
      assert Leading(cp, 1) == cp / 64;
      [(0xC0 + Leading(cp, 1)) as char] + Continued(cp, 1)
    else if cp < 0x10000 then
      assert Leading(cp, 2) == Leading(cp / 64, 1) == cp / 64 / 64;
      [(0xE0 + Leading(cp, 2)) as char] + Continued(cp, 2)
    else
      assert Leading(cp, 3) == Leading(cp / 64, 2) == Leading(cp / 64 / 64, 1) == cp / 64 / 64 / 64;
      [(0xF0 + Leading(cp, 3)) as char] + Continued(cp, 3)
  }

  ghost function CharBytes(ch: SpelledChar): string
    requires CharIsValid(ch)
  {
    match ch
    case Plain(c) => [c]
    case Escaped(c) => [MEANT[Place(ESCAPES, c)]]
    case Unicode(hex) => assert Hex4(hex) < 0x10000; Encoding(Hex4(hex))
    case Surrogates(high, low) => Encoding(0x10000 + (Hex4(high) - 0xD800) * 0x400 + (Hex4(low) - 0xDC00))
  }

  // ---- Strings ----

  ghost predicate CharsAreValid(chars: seq<SpelledChar>) {
    forall i :: 0 <= i < |chars| ==> CharIsValid(chars[i])
  }

  function CharsText(chars: seq<SpelledChar>): string {
    if chars == [] then "" else CharText(chars[0]) + CharsText(chars[1..])
  }

  ghost function CharsBytes(chars: seq<SpelledChar>): string
    requires CharsAreValid(chars)
  {
    if chars == [] then "" else CharBytes(chars[0]) + CharsBytes(chars[1..])
  }

  function Quoted(chars: seq<SpelledChar>): string {
    "\"" + CharsText(chars) + "\""
  }

  /** A C string ends at its first zero byte, so a string is what precedes an escaped one. */
  ghost function StringOf(chars: seq<SpelledChar>): string
    requires CharsAreValid(chars)
  {
    UpToNul(CharsBytes(chars))
  }

  // ---- Integers ----

  predicate AreDigits(s: string) {
    forall c <- s :: c in DIGITS
  }

  ghost function Numeral(s: string): nat
    requires AreDigits(s)
  {
    if s == "" then 0 else Numeral(s[..|s| - 1]) * 10 + Place(DIGITS, s[|s| - 1])
  }

  /** Digits without a superfluous zero, of a number of 64 bits. */
  ghost predicate IsNumeral(s: string) {
    s != "" && AreDigits(s) && (|s| > 1 ==> s[0] != '0') && Numeral(s) <= UINT64_MAX
  }

  function IntegerText(negative: bool, digits: string): string {
    (if negative then "-" else "") + digits
  }

  /** Negative numbers are taken modulo 2^64. */
  ghost function IntegerOf(negative: bool, digits: string): nat
    requires IsNumeral(digits)
  {
    if negative && Numeral(digits) > 0 then UINT64_MAX + 1 - Numeral(digits) else Numeral(digits)
  }

  // ---- Values ----

  function Text(v: Spelling): string
    decreases v, 1
  {
    match v
    case SNull => "null"
    case STrue => "true"
    case SFalse => "false"
    case SInteger(negative, digits) => IntegerText(negative, digits)
    case SString(chars) => Quoted(chars)
    case SArray(gap, items) => "[" + (if items == [] then gap + "]" else ItemsText(items))
    case SObject(gap, members) => "{" + (if members == [] then gap + "}" else MembersText(members))
  }

  /** The items with the commas between them and the closing bracket. */
  function ItemsText(items: seq<SpelledItem>): string
    decreases items, 0
  {
    if items == [] then ""
    else
      items[0].before + (Text(items[0].value) + (items[0].after
      + (if |items| == 1 then "]" else "," + ItemsText(items[1..]))))
  }

  function MembersText(members: seq<SpelledMember>): string
    decreases members, 0
  {
    if members == [] then ""
    else
      members[0].before + (MemberText(members[0]) + (members[0].after
      + (if |members| == 1 then "}" else "," + MembersText(members[1..]))))
  }

  /** A member from its opening quote to the end of its value. */
  function MemberText(m: SpelledMember): string
    decreases m, 2
  {
    Quoted(m.name) + (m.beforeColon + (":" + (m.afterColon + Text(m.value))))
  }

  ghost predicate Valid(v: Spelling)
    decreases v, 1
  {
    match v
    case SInteger(_, digits) => IsNumeral(digits)
    case SString(chars) => CharsAreValid(chars)
    case SArray(gap, items) => IsGap(gap) && ItemsAreValid(items)
    case SObject(gap, members) => IsGap(gap) && MembersAreValid(members)
    case _ => true
  }

  ghost predicate ItemsAreValid(items: seq<SpelledItem>)
    decreases items, 0
  {
    forall i :: 0 <= i < |items| ==> IsGap(items[i].before) && Valid(items[i].value) && IsGap(items[i].after)
  }

  ghost predicate MembersAreValid(members: seq<SpelledMember>)
    decreases members, 0
  {
    forall i :: 0 <= i < |members| ==> MemberIsValid(members[i])
  }

  ghost predicate MemberIsValid(m: SpelledMember)
    decreases m, 2
  {
    && IsGap(m.before) && CharsAreValid(m.name) && IsGap(m.beforeColon) && IsGap(m.afterColon)
    && Valid(m.value) && IsGap(m.after)
  }

  ghost function ValueOf(v: Spelling): Json
    requires Valid(v)
    decreases v, 1
  {
    match v
    case SNull => Null
    case STrue => Bool(true)
    case SFalse => Bool(false)
    case SInteger(negative, digits) => Uint(IntegerOf(negative, digits))
    case SString(chars) => Str(StringOf(chars))
    case SArray(_, items) => Arr(ValuesOf(items))
    case SObject(_, members) => Obj(FieldsOf(members))
  }

  ghost function ValuesOf(items: seq<SpelledItem>): seq<Json>
    requires ItemsAreValid(items)
    decreases items, 0
  {
    if items == [] then []
    else
      assert ItemsAreValid(items[1..]);
      [ValueOf(items[0].value)] + ValuesOf(items[1..])
  }

  ghost function FieldsOf(members: seq<SpelledMember>): seq<Field>
    requires MembersAreValid(members)
    decreases members, 0
  {
    if members == [] then []
    else
      assert MemberIsValid(members[0]) && MembersAreValid(members[1..]);
      [Field(StringOf(members[0].name), ValueOf(members[0].value))] + FieldsOf(members[1..])
  }
}
