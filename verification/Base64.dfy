/** Base64 (section 4 of RFC 4648), encoded and decoded through fixed-size buffers. */
module Base64 {
  import opened CString

  type byte = x: int | 0 <= x < 256
  type sextet = x: int | 0 <= x < 64

  // ---- What a text means, by the table of section 4 of RFC 4648 ----

  const TABLE: string := "ABCDEFGHIJKLMNOPQRSTUVWXYZ" + "abcdefghijklmnopqrstuvwxyz" + "0123456789" + "+/"

  ghost function Index(c: char): (i: nat)
    requires c in TABLE
    ensures i < |TABLE| && TABLE[i] == c
  {
    var i :| 0 <= i < |TABLE| && TABLE[i] == c;
    i
  }

  /** A text of table characters as a number in base 64. */
  ghost function Numeral64(s: string): nat
    requires forall c <- s :: c in TABLE
  {
    if s == "" then 0 else Numeral64(s[..|s| - 1]) * 64 + Index(s[|s| - 1])
  }

  /** Bytes as a number in base 256. */
  function Numeral256(data: seq<byte>): nat {
    if data == [] then 0 else Numeral256(data[..|data| - 1]) * 256 + data[|data| - 1]
  }

  /** What the bits left over in the last of `n` characters multiply by: 6 n less a multiple of 8 bits. */
  function Unused(n: nat): nat {
    if n % 4 == 0 then 1 else if n % 4 == 1 then 64 else if n % 4 == 2 then 16 else 4
  }

  /**
   * The text is the bytes: the same number but for zero bits at its end, then pad characters up to a multiple of four.
   */
  ghost predicate IsTextOf(text: string, data: seq<byte>) {
    var n := (|data| * 8 + 5) / 6;
    && n <= |text| < n + 4 && |text| % 4 == 0
    && (forall c <- text[..n] :: c in TABLE) && (forall c <- text[n..] :: c == '=')
    && Numeral64(text[..n]) == Numeral256(data) * Unused(n)
  }

  /** The characters before the first pad character or the end, without line breaks. */
  function Letters(text: string): string {
    if text == "" || text[0] == NUL || text[0] == '=' then ""
    else if text[0] == '\n' then Letters(text[1..])
    else [text[0]] + Letters(text[1..])
  }

  predicate IsText(text: string) {
    forall c <- Letters(text) :: c in TABLE
  }

  /** The bytes are the number of the text without the bits left over. */
  ghost predicate AreBytesOf(data: seq<byte>, text: string)
    requires IsText(text)
  {
    |data| == |Letters(text)| * 3 / 4 && Numeral256(data) == Numeral64(Letters(text)) / Unused(|Letters(text)|)
  }

  // ---- The two tables of the code ----

  function Symbol(n: sextet): char {
    if n < 26 then ('A' as int + n) as char
    else if n < 52 then ('a' as int + n - 26) as char
    else if n < 62 then ('0' as int + n - 52) as char
    else if n == 62 then '+'
    else '/'
  }

  datatype Class = White | Pad | Bad | Value(v: sextet)

  function Classify(c: char): Class {
    if c == '\n' then White
    else if c == '=' then Pad
    else if 'A' <= c <= 'Z' then Value(c as int - 'A' as int)
    else if 'a' <= c <= 'z' then Value(c as int - 'a' as int + 26)
    else if '0' <= c <= '9' then Value(c as int - '0' as int + 52)
    else if c == '+' then Value(62)
    else if c == '/' then Value(63)
    else Bad
  }

  // ---- What is encoded ----

  /** Three bytes as four symbols; one or two left over as two or three. */
  function Sextets(data: seq<byte>): (r: seq<sextet>)
    ensures |r| == (|data| * 4 + 2) / 3
  {
    if |data| == 0 then []
    else if |data| == 1 then [data[0] / 4, data[0] % 4 * 16]
    else if |data| == 2 then [data[0] / 4, data[0] % 4 * 16 + data[1] / 16, data[1] % 16 * 4]
    else
      [data[0] / 4, data[0] % 4 * 16 + data[1] / 16, data[1] % 16 * 4 + data[2] / 64, data[2] % 64] + Sextets(data[3..])
  }

  function Symbols(s: seq<sextet>): (r: string)
    ensures |r| == |s| && forall i :: 0 <= i < |s| ==> r[i] == Symbol(s[i])
  {
    seq(|s|, i requires 0 <= i < |s| => Symbol(s[i]))
  }

  function Padding(n: nat): string {
    if n % 3 == 1 then "==" else if n % 3 == 2 then "=" else ""
  }

  function Encoded(data: seq<byte>): string {
    Symbols(Sextets(data)) + Padding(|data|)
  }

  function EncodeSize(n: nat): nat {
    n / 3 * 4 + (if n % 3 != 0 then 4 else 0) + 1
  }

  lemma EncodedLength(data: seq<byte>)
    ensures |Encoded(data)| + 1 == EncodeSize(|data|)
    ensures |Encoded(data)| % 4 == 0 && |Encoded(data)| - 3 < |Sextets(data)| <= |Encoded(data)|
    ensures Encoded(data)[..|Sextets(data)|] == Symbols(Sextets(data))
    ensures forall k :: |Sextets(data)| <= k < |Encoded(data)| ==> Encoded(data)[k] == '='
  {
    hide Sextets, Symbols;
  }

  // ---- What is decoded ----

  /** The values of the symbols before the first pad character; None when an invalid character comes first. */
  function Values(text: string): Option<seq<sextet>> {
    if text == "" || text[0] == NUL then Some([])
    else
      match Classify(text[0])
      case White => Values(text[1..])
      case Bad => None
      case Pad => Some([])
      case Value(v) =>
        match Values(text[1..])
        case None => None
        case Some(rest) => Some([v] + rest)
  }

  function First(a: sextet, b: sextet): byte {
    (a as int) * 4 + b as int / 16
  }

  function Second(b: sextet, c: sextet): byte {
    (b as int) % 16 * 16 + c as int / 4
  }

  function Third(c: sextet, d: sextet): byte {
    (c as int) % 4 * 64 + d as int
  }

  /** The bytes four symbols, or three or two at the end, stand for. A single last symbol stands for none. */
  function Bytes(s: seq<sextet>): seq<byte> {
    if |s| < 2 then []
    else if |s| == 2 then [First(s[0], s[1])]
    else if |s| == 3 then [First(s[0], s[1]), Second(s[1], s[2])]
    else [First(s[0], s[1]), Second(s[1], s[2]), Third(s[2], s[3])] + Bytes(s[4..])
  }

  function MaxDecodeSize(text: string): nat {
    var n := |UpToNul(text)|;
    if n % 4 != 0 then n / 4 * 3 + 2 else n / 4 * 3
  }

  // ---- Laws ----

  lemma {:induction false} BytesLength(s: seq<sextet>)
    ensures |Bytes(s)| == |s| * 3 / 4
  {
    if |s| >= 4 {
      BytesLength(s[4..]);
    }
  }

  lemma {:induction false} BytesConcat(s: seq<sextet>, t: seq<sextet>)
    requires |s| % 4 == 0
    ensures Bytes(s + t) == Bytes(s) + Bytes(t)
  {
    hide *;
    if s == [] {
      NoBytes();
      assert s + t == t;
    } else {
      BytesConcat(s[4..], t);
      FirstFour(s, t);
    }
  }

  lemma NoBytes()
    ensures Bytes([]) == []
  {
  }

  lemma FirstFour(s: seq<sextet>, t: seq<sextet>)
    requires |s| >= 4 && Bytes(s[4..] + t) == Bytes(s[4..]) + Bytes(t)
    ensures Bytes(s + t) == Bytes(s) + Bytes(t)
  {
    hide First, Second, Third;
    assert (s + t)[4..] == s[4..] + t;
  }

  lemma BytesOfShort(a: sextet, b: sextet, c: sextet, d: sextet)
    ensures Bytes([]) == [] && Bytes([a]) == []
    ensures Bytes([a, b]) == [First(a, b)]
    ensures Bytes([a, b, c]) == [First(a, b), Second(b, c)]
    ensures Bytes([a, b, c, d]) == [First(a, b), Second(b, c), Third(c, d)]
  {
    assert [a, b, c, d][4..] == [];
    hide First, Second, Third;
  }

  lemma ThreeBytes(x: byte, y: byte, z: byte)
    ensures First(x / 4, x % 4 * 16 + y / 16) == x
    ensures Second(x % 4 * 16 + y / 16, y % 16 * 4 + z / 64) == y
    ensures Third(y % 16 * 4 + z / 64, z % 64) == z
  {
  }

  lemma {:induction false} BytesOfSextets(data: seq<byte>)
    ensures Bytes(Sextets(data)) == data
  {
    if |data| == 0 {
    } else if |data| == 1 {
      ThreeBytes(data[0], 0, 0);
    } else if |data| == 2 {
      ThreeBytes(data[0], data[1], 0);
    } else {
      var (x, y, z) := (data[0], data[1], data[2]);
      var (a, b, c, d) := (x / 4, x % 4 * 16 + y / 16, y % 16 * 4 + z / 64, z % 64);
      assert Sextets(data) == [a, b, c, d] + Sextets(data[3..]);
      hide Sextets, Bytes, First, Second, Third;
      ThreeBytes(x, y, z);
      BytesOfShort(a, b, c, d);
      BytesConcat([a, b, c, d], Sextets(data[3..]));
      BytesOfSextets(data[3..]);
      assert data == [x, y, z] + data[3..];
    }
  }

  lemma SymbolValue(n: sextet)
    ensures Classify(Symbol(n)) == Value(n) && Symbol(n) != NUL
  {
  }

  lemma {:induction false} ValuesOfSymbols(s: seq<sextet>, rest: string)
    requires rest == "" || rest[0] == '='
    ensures Values(Symbols(s) + rest) == Some(s)
  {
    if s == [] {
      assert Symbols(s) + rest == rest;
    } else {
      SymbolValue(s[0]);
      var text := Symbols(s) + rest;
      assert text[0] == Symbol(s[0]) && text[1..] == Symbols(s[1..]) + rest;
      ValuesOfSymbols(s[1..], rest);
      assert s == [s[0]] + s[1..];
    }
  }

  /** Decoding undoes encoding. */
  lemma DecodeUndoesEncode(data: seq<byte>)
    ensures Values(Encoded(data)).Some? && Bytes(Values(Encoded(data)).value) == data
  {
    ValuesOfSymbols(Sextets(data), Padding(|data|));
    BytesOfSextets(data);
  }

  // ---- The code against the table ----

  lemma LetterAt(n: nat)
    requires n < 26
    ensures "ABCDEFGHIJKLMNOPQRSTUVWXYZ"[n] == ('A' as int + n) as char
    ensures "abcdefghijklmnopqrstuvwxyz"[n] == ('a' as int + n) as char
  {
  }

  lemma DigitAt(n: nat)
    requires n < 10
    ensures "0123456789"[n] == ('0' as int + n) as char
  {
  }

  lemma SymbolIsInTable(n: sextet)
    ensures |TABLE| == 64 && TABLE[n] == Symbol(n)
  {
    if n < 26 {
      LetterAt(n);
    } else if n < 52 {
      LetterAt(n - 26);
    } else if n < 62 {
      DigitAt(n - 52);
    } else {
      assert "+/"[0] == '+' && "+/"[1] == '/';
    }
  }

  /** A character is the symbol of at most one number, and Classify finds it. */
  lemma ClassifyIs(c: char)
    ensures Classify(c).Value? <==> c in TABLE
    ensures Classify(c).Value? ==> Symbol(Classify(c).v) == c && Index(c) == Classify(c).v
    ensures Classify(c).White? <==> c == '\n'
    ensures Classify(c).Pad? <==> c == '='
  {
    if c in TABLE {
      SymbolIsInTable(Index(c));
      SymbolValue(Index(c));
    }
    if Classify(c).Value? {
      SymbolIsInTable(Classify(c).v);
    }
    hide TABLE;
  }

  lemma IndexOfSymbol(n: sextet)
    ensures Symbol(n) in TABLE && Index(Symbol(n)) == n
  {
    SymbolIsInTable(n);
    SymbolValue(n);
    ClassifyIs(Symbol(n));
  }

  lemma {:induction false} NumeralOfSymbols(s: seq<sextet>)
    ensures forall c <- Symbols(s) :: c in TABLE
    ensures Numeral64(Symbols(s)) == WordOf(s)
  {
    if s != [] {
      var front, last := s[..|s| - 1], s[|s| - 1];
      NumeralOfSymbols(front);
      IndexOfSymbol(last);
      assert Symbols(s)[..|s| - 1] == Symbols(front);
      assert Symbols(s) == Symbols(front) + [Symbol(last)];
      hide Symbol;
    }
  }

  function Pow(b: nat, n: nat): nat {
    if n == 0 then 1 else b * Pow(b, n - 1)
  }

  lemma {:induction false} PowersMeet(n: nat)
    ensures Pow(64, n) == Pow(256, n * 3 / 4) * Unused(n)
  {
    if n < 4 {
      assert Pow(64, 3) == 64 * Pow(64, 2) && Pow(64, 2) == 64 * Pow(64, 1) && Pow(64, 1) == 64 * Pow(64, 0);
      assert Pow(256, 2) == 256 * Pow(256, 1) && Pow(256, 1) == 256 * Pow(256, 0);
    } else {
      var m := n - 4;
      PowersMeet(m);
      assert n * 3 / 4 == m * 3 / 4 + 3;
      FourAndThree(m, m * 3 / 4);
    }
  }

  lemma FourAndThree(m: nat, k: nat)
    ensures Pow(64, m + 4) == 0x100_0000 * Pow(64, m) && Pow(256, k + 3) == 0x100_0000 * Pow(256, k)
  {
    assert Pow(64, m + 4) == 64 * Pow(64, m + 3) && Pow(64, m + 3) == 64 * Pow(64, m + 2)
        && Pow(64, m + 2) == 64 * Pow(64, m + 1) && Pow(64, m + 1) == 64 * Pow(64, m);
    assert Pow(256, k + 3) == 256 * Pow(256, k + 2) && Pow(256, k + 2) == 256 * Pow(256, k + 1)
        && Pow(256, k + 1) == 256 * Pow(256, k);
  }

  lemma {:induction false} WordOfConcat(s: seq<sextet>, t: seq<sextet>)
    ensures WordOf(s + t) == WordOf(s) * Pow(64, |t|) + WordOf(t)
  {
    if t == [] {
      assert s + t == s;
    } else {
      var front := t[..|t| - 1];
      assert (s + t)[..|s + t| - 1] == s + front;
      WordOfConcat(s, front);
      Distribute(WordOf(s), Pow(64, |front|), WordOf(front), 64);
    }
  }

  lemma {:induction false} NumeralOfConcat(s: seq<byte>, t: seq<byte>)
    ensures Numeral256(s + t) == Numeral256(s) * Pow(256, |t|) + Numeral256(t)
  {
    if t == [] {
      assert s + t == s;
    } else {
      var front := t[..|t| - 1];
      assert (s + t)[..|s + t| - 1] == s + front;
      NumeralOfConcat(s, front);
      Distribute(Numeral256(s), Pow(256, |front|), Numeral256(front), 256);
    }
  }

  lemma Distribute(x: nat, p: nat, y: nat, b: nat)
    ensures (x * p + y) * b == x * (b * p) + y * b
  {
  }

  /** The bits of the last characters that make no byte. */
  function Leftover(s: seq<sextet>): nat {
    if |s| % 4 == 0 then 0
    else if |s| % 4 == 1 then s[|s| - 1]
    else if |s| % 4 == 2 then (s[|s| - 1] as int) % 16
    else (s[|s| - 1] as int) % 4
  }

  /** The numbers of the symbols and of their bytes differ by what is left over. */
  lemma {:induction false} WordIsNumeral(s: seq<sextet>)
    ensures WordOf(s) == Numeral256(Bytes(s)) * Unused(|s|) + Leftover(s) && Leftover(s) < Unused(|s|)
  {
    hide WordOf, Numeral256, Bytes, First, Second, Third;
    if |s| < 4 {
      ShortIsNumeral(s);
    } else {
      var (a, b, c, d, rest) := (s[0], s[1], s[2], s[3], s[4..]);
      WordIsNumeral(rest);
      assert s == [a, b, c, d] + rest;
      WordOfConcat([a, b, c, d], rest);
      BytesConcat([a, b, c, d], rest);
      BytesOfShort(a, b, c, d);
      BytesLength(rest);
      WordOfShort(a, b, c, d);
      FourAreThree(a, b, c, d);
      NumeralOfThree(First(a, b), Second(b, c), Third(c, d));
      var three := [First(a, b), Second(b, c), Third(c, d)];
      NumeralOfConcat(three, Bytes(rest));
      PowersMeet(|rest|);
      hide Pow, Unused, Leftover;
      SameGroup(Numeral256(three), Pow(256, |Bytes(rest)|), Unused(|rest|), Numeral256(Bytes(rest)));
      AlikeAfterFour(s);
    }
  }

  lemma AlikeAfterFour(s: seq<sextet>)
    requires |s| >= 4
    ensures Unused(|s|) == Unused(|s[4..]|) && Leftover(s) == Leftover(s[4..])
  {
  }

  lemma SameGroup(x: nat, p: nat, u: nat, y: nat)
    ensures x * (p * u) + y * u == (x * p + y) * u
  {
  }

  lemma NumeralOfThree(x: byte, y: byte, z: byte)
    ensures Numeral256([]) == 0 && Numeral256([x]) == x as int
    ensures Numeral256([x, y]) == (x as int) * 256 + y as int
    ensures Numeral256([x, y, z]) == ((x as int) * 256 + y as int) * 256 + z as int
  {
    assert [x][..0] == [] && [x, y][..1] == [x] && [x, y, z][..2] == [x, y];
  }

  lemma ShortIsNumeral(s: seq<sextet>)
    requires |s| < 4
    ensures WordOf(s) == Numeral256(Bytes(s)) * Unused(|s|) + Leftover(s) && Leftover(s) < Unused(|s|)
  {
    hide *;
    PartIs(s);
    var a: sextet := if |s| > 0 then s[0] else 0;
    var b: sextet := if |s| > 1 then s[1] else 0;
    var c: sextet := if |s| > 2 then s[2] else 0;
    NoneOrOne(a);
    TwoOrThree(a, b, c);
  }

  lemma NoneOrOne(a: sextet)
    ensures WordOf([]) == Numeral256(Bytes([])) * Unused(0) + Leftover([]) && Leftover([]) < Unused(0)
    ensures WordOf([a]) == Numeral256(Bytes([a])) * Unused(1) + Leftover([a]) && Leftover([a]) < Unused(1)
  {
    WordOfAppend([], a);
    assert [] + [a] == [a];
  }

  lemma TwoOrThree(a: sextet, b: sextet, c: sextet)
    ensures var s := [a, b]; WordOf(s) == Numeral256(Bytes(s)) * Unused(2) + Leftover(s) && Leftover(s) < Unused(2)
    ensures var s := [a, b, c]; WordOf(s) == Numeral256(Bytes(s)) * Unused(3) + Leftover(s) && Leftover(s) < Unused(3)
  {
    hide WordOf, Numeral256, Bytes, First, Second, Third;
    WordOfShort(a, b, c, 0);
    BytesOfShort(a, b, c, 0);
    NumeralOfThree(First(a, b), Second(b, c), 0);
    ThreeSextets(a, b, c);
  }

  lemma ThreeSextets(a: sextet, b: sextet, c: sextet)
    ensures (a as int) * 64 + b as int == (First(a, b) as int) * 16 + (b as int) % 16
    ensures ((a as int) * 64 + b as int) * 64 + c as int
      == ((First(a, b) as int) * 256 + Second(b, c) as int) * 4 + (c as int) % 4
  {
    assert b as int == b as int / 16 * 16 + (b as int) % 16;
    assert c as int == c as int / 4 * 4 + (c as int) % 4;
  }

  lemma {:induction false} NothingLeftOver(data: seq<byte>)
    ensures Leftover(Sextets(data)) == 0
  {
    if |data| >= 3 {
      NothingLeftOver(data[3..]);
      AlikeAfterFour(Sextets(data));
      assert Sextets(data)[4..] == Sextets(data[3..]);
      hide Leftover;
    }
  }

  /** For all bytes, the text is theirs by the table. */
  lemma EncodedIsText(data: seq<byte>)
    ensures IsTextOf(Encoded(data), data)
  {
    var s := Sextets(data);
    EncodedLength(data);
    NumeralOfSymbols(s);
    WordIsNumeral(s);
    BytesOfSextets(data);
    NothingLeftOver(data);
    assert |s| == (|data| * 8 + 5) / 6;
    hide Sextets, Symbols, Numeral64, Numeral256, WordOf, Bytes, Leftover, Unused, Encoded;
  }

  lemma {:induction false} ValuesAreLetters(text: string)
    ensures Values(text).Some? <==> IsText(text)
    ensures Values(text).Some? ==> Symbols(Values(text).value) == Letters(text)
  {
    hide Classify, Symbol, TABLE;
    if text != "" && text[0] != NUL {
      ClassifyIs(text[0]);
      var c := Classify(text[0]);
      if !c.Pad? {
        ValuesAreLetters(text[1..]);
      }
      if !c.Pad? && !c.White? {
        assert Letters(text) == [text[0]] + Letters(text[1..]);
        assert forall x :: x in Letters(text) <==> x == text[0] || x in Letters(text[1..]);
      }
    }
  }

  /** For any text, what is decoded are its bytes by the table. */
  lemma DecodedAreBytes(text: string)
    ensures Values(text).Some? <==> IsText(text)
    ensures Values(text).Some? ==> AreBytesOf(Bytes(Values(text).value), text)
  {
    ValuesAreLetters(text);
    hide Values, IsText, Letters;
    if Values(text).Some? {
      var s := Values(text).value;
      NumeralOfSymbols(s);
      WordIsNumeral(s);
      BytesLength(s);
      DropRemainder(WordOf(s), Numeral256(Bytes(s)), Unused(|s|), Leftover(s));
      hide WordOf, Numeral256, Numeral64, Bytes, Unused, Leftover;
    }
  }

  lemma DecodedCount(text: string)
    ensures Values(text).Some? ==> |Bytes(Values(text).value)| == |Letters(text)| * 3 / 4
  {
    DecodedAreBytes(text);
    hide Numeral256, Numeral64, Values, IsText;
  }

  /** Bytes are determined by their number and their count. */
  lemma {:induction false} NumeralDetermines(x: seq<byte>, y: seq<byte>)
    requires |x| == |y| && Numeral256(x) == Numeral256(y)
    ensures x == y
  {
    if x != [] {
      var (xs, ys, a, b) := (x[..|x| - 1], y[..|y| - 1], x[|x| - 1], y[|y| - 1]);
      SameDigits(Numeral256(xs), a, Numeral256(ys), b);
      NumeralDetermines(xs, ys);
      assert x == xs + [a] && y == ys + [b];
    }
  }

  lemma SameDigits(m: nat, a: byte, n: nat, b: byte)
    requires m * 256 + a as int == n * 256 + b as int
    ensures m == n && a == b
  {
  }

  lemma {:induction false} LettersOfPadded(body: string, pad: string)
    requires (forall c <- body :: c in TABLE) && (forall c <- pad :: c == '=')
    ensures Letters(body + pad) == body
  {
    if body == "" {
      assert body + pad == pad && (pad != "" ==> pad[0] in pad);
    } else {
      ClassifyIs(body[0]);
      assert Classify(body[0]).Value? && body[0] != NUL;
      assert (body + pad)[1..] == body[1..] + pad;
      LettersOfPadded(body[1..], pad);
      hide Classify;
    }
  }

  /** The text of some bytes is a text, and of no other bytes. */
  lemma BytesOfText(text: string, data: seq<byte>, decoded: seq<byte>)
    requires IsTextOf(text, data)
    ensures IsText(text) && (AreBytesOf(decoded, text) <==> decoded == data)
  {
    hide Numeral64, Numeral256, TABLE, Letters;
    var n := (|data| * 8 + 5) / 6;
    LettersOfPadded(text[..n], text[n..]);
    assert text == text[..n] + text[n..];
    DropRemainder(Numeral64(text[..n]), Numeral256(data), Unused(n), 0);
    assert n * 3 / 4 == |data|;
    if AreBytesOf(decoded, text) {
      NumeralDetermines(decoded, data);
    }
  }

  lemma DropRemainder(n: nat, q: nat, u: nat, r: nat)
    requires n == q * u + r && r < u
    ensures n / u == q
  {
    var d := n / u - q;
    assert u * d == u * (n / u) - u * q == r - n % u;
  }

  lemma {:induction false} ValuesCount(text: string)
    ensures Values(text).Some? ==> |Values(text).value| <= |UpToNul(text)|
  {
    if text != "" && text[0] != NUL {
      ValuesCount(text[1..]);
    }
  }

  /** For any text at all, a buffer of edgex_b64_maxdecodesize bytes is large enough. */
  lemma {:induction false} MaxDecodeSizeSuffices(text: string)
    ensures Values(text).Some? ==> |Bytes(Values(text).value)| <= MaxDecodeSize(text)
  {
    ValuesCount(text);
    if Values(text).Some? {
      BytesLength(Values(text).value);
    }
  }

  /** A line break anywhere in the text changes nothing. */
  lemma {:induction false} LineBreaksAreIgnored(text: string, at: nat)
    requires at <= |text|
    ensures Values(text[..at] + "\n" + text[at..]) == Values(text)
  {
    var broken := text[..at] + "\n" + text[at..];
    if at == 0 {
      assert broken[1..] == text;
    } else {
      assert broken[1..] == text[1..][..at - 1] + "\n" + text[1..][at - 1..];
      LineBreaksAreIgnored(text[1..], at - 1);
    }
  }

  // ---- edgex_b64_encode ----

  /** Up to three bytes put together, as the loop does. */
  function Word24(data: seq<byte>, x: nat): nat
    requires x < |data|
  {
    (data[x] as int) * 65536 + (if x + 1 < |data| then (data[x + 1] as int) * 256 else 0)
    + (if x + 2 < |data| then data[x + 2] as int else 0)
  }

  /** The four 6-bit numbers a 24-bit word is split into; the casts to 8 bits come before the masks. */
  function Split(n: nat, k: nat): sextet
    requires k < 4
  {
    if k == 0 then n / 262144 % 256 % 64
    else if k == 1 then n / 4096 % 256 % 64
    else if k == 2 then n / 64 % 256 % 64
    else n % 256 % 64
  }

  function Min(a: nat, b: nat): nat {
    if a < b then a else b
  }

  /** The symbols of the group at `x`, by their word. */
  lemma GroupOfWord(data: seq<byte>, x: nat)
    requires x < |data|
    ensures var n := Word24(data, x);
      var group := [Split(n, 0), Split(n, 1), Split(n, 2), Split(n, 3)];
      Sextets(data[x..]) == group[..Min(|data| - x + 1, 4)] + Sextets(data[Min(x + 3, |data|)..])
  {
    var n := Word24(data, x);
    var rest := data[x..];
    assert rest[0] == data[x];
    if |rest| >= 3 {
      assert rest[1] == data[x + 1] && rest[2] == data[x + 2] && rest[3..] == data[x + 3..];
      SplitWord(data[x], data[x + 1], data[x + 2]);
    } else if |rest| == 2 {
      assert rest[1] == data[x + 1];
      SplitWord(data[x], data[x + 1], 0);
    } else {
      SplitWord(data[x], 0, 0);
    }
  }

  lemma SplitWord(a: byte, b: byte, c: byte)
    ensures var n := (a as int) * 65536 + (b as int) * 256 + c as int;
      Split(n, 0) == a as int / 4 && Split(n, 1) == (a as int) % 4 * 16 + b as int / 16
      && Split(n, 2) == (b as int) % 16 * 4 + c as int / 64 && Split(n, 3) == (c as int) % 64
  {
    var (i, j, k) := (a as int, b as int, c as int);
    var n := i * 65536 + j * 256 + k;
    assert n / 262144 == i / 4;
    assert n / 4096 == i * 16 + j / 16;
    assert n / 64 == i * 1024 + j * 4 + k / 64;
    FieldsOf(i / 4, 0);
    FieldsOf(i % 4 * 16 + j / 16, i / 4);
    FieldsOf(j % 16 * 4 + k / 64, i * 16 + j / 16);
    FieldsOf(k % 64, i * 1024 + j * 4 + k / 64);
  }

  lemma FieldsOf(low: nat, high: nat)
    requires low < 64
    ensures (high * 64 + low) % 256 % 64 == low
  {
  }

  method Encode(data: seq<byte>, out: array<char>) returns (ok: bool)
    modifies out
    ensures ok <==> out.Length >= EncodeSize(|data|)
    ensures ok ==> out[..EncodeSize(|data|)] == Encoded(data) + [NUL]
    ensures ok ==> IsTextOf(out[..EncodeSize(|data|) - 1], data) && out[EncodeSize(|data|) - 1] == NUL
    ensures ok ==> out[EncodeSize(|data|)..] == old(out[EncodeSize(|data|)..])
    ensures !ok ==> out[..] == old(out[..])
  {
    if out.Length < EncodeSize(|data|) {
      return false;
    }
    EncodedLength(data);
    var size := EncodeGroups(data, out);
    EncodedIsText(data);
    hide *;
    PadAndTerminate(out, size, Encoded(data));
    assert out[..EncodeSize(|data|) - 1] == out[..EncodeSize(|data|)][..EncodeSize(|data|) - 1] == Encoded(data);
    return true;
  }

  /** The end of edgex_b64_encode: pad characters up to a multiple of four, and the terminator. */
  method PadAndTerminate(out: array<char>, from: nat, ghost text: string)
    requires from <= |text| < out.Length && |text| % 4 == 0 && |text| < from + 4 && out[..from] == text[..from]
    requires forall k :: from <= k < |text| ==> text[k] == '='
    modifies out
    ensures out[..|text| + 1] == text + [NUL] && out[|text| + 1..] == old(out[|text| + 1..])
  {
    var size := from;
    while size % 4 != 0
      invariant from <= size <= |text|
      invariant forall k :: 0 <= k < size ==> out[k] == text[k]
      invariant forall k :: |text| < k < out.Length ==> out[k] == old(out[k])
      decreases |text| - size
    {
      out[size] := '=';
      size := size + 1;
    }
    out[size] := NUL;
  }

  /** The main loop of edgex_b64_encode: every symbol, before the padding. */
  method EncodeGroups(data: seq<byte>, out: array<char>) returns (size: nat)
    requires out.Length >= EncodeSize(|data|)
    modifies out
    ensures size == |Sextets(data)| && out[..size] == Symbols(Sextets(data))
    ensures out[EncodeSize(|data|)..] == old(out[EncodeSize(|data|)..])
  {
    hide Symbols, Sextets;
    var x: nat := 0;
    size := 0;
    assert data[0..] == data;
    while x < |data|
      invariant size <= |Sextets(data)|
      invariant out[..size] + Symbols(Sextets(data[Min(x, |data|)..])) == Symbols(Sextets(data))
      invariant out[EncodeSize(|data|)..] == old(out[EncodeSize(|data|)..])
    {
      assert size + |Sextets(data[x..])| == |Sextets(data)|;
      size := EncodeGroup(data, x, out, size);
      x := x + 3;
    }
  }

  /** The loop body: one, two or three bytes become two, three or four symbols. */
  method EncodeGroup(data: seq<byte>, x: nat, out: array<char>, size: nat) returns (next: nat)
    requires x < |data| && size + |Sextets(data[x..])| < out.Length
    modifies out
    ensures next <= out.Length && next - size == Min(|data| - x + 1, 4)
    ensures out[..next] + Symbols(Sextets(data[Min(x + 3, |data|)..])) == old(out[..size]) + Symbols(Sextets(data[x..]))
    ensures forall k :: next <= k < out.Length ==> out[k] == old(out[k])
  {
    hide Symbol, Symbols, Sextets, Split, Word24;
    var n := Word24(data, x);
    GroupOfWord(data, x);
    next := size;
    out[next] := Symbol(Split(n, 0));
    out[next + 1] := Symbol(Split(n, 1));
    next := next + 2;
    if x + 1 < |data| {
      out[next] := Symbol(Split(n, 2));
      next := next + 1;
    }
    if x + 2 < |data| {
      out[next] := Symbol(Split(n, 3));
      next := next + 1;
    }
  }

  // ---- edgex_b64_decode ----

  /** The symbols put together so far. */
  function WordOf(s: seq<sextet>): nat {
    if s == [] then 0 else WordOf(s[..|s| - 1]) * 64 + s[|s| - 1]
  }

  lemma WordOfAppend(s: seq<sextet>, v: sextet)
    ensures WordOf(s + [v]) == WordOf(s) * 64 + v
  {
    assert (s + [v])[..|s|] == s;
  }

  /** Four 6-bit numbers are three bytes, most significant first. */
  lemma FourAreThree(a: sextet, b: sextet, c: sextet, d: sextet)
    ensures ((a * 64 + b) * 64 + c) * 64 + d == (First(a, b) * 256 + Second(b, c)) * 256 + Third(c, d)
  {
    assert b as int == b as int / 16 * 16 + (b as int) % 16;
    assert c as int == c as int / 4 * 4 + (c as int) % 4;
  }

  lemma DigitsOf(n: nat, x: nat, y: nat, z: nat)
    requires x < 256 && y < 256 && z < 256 && n == (x * 256 + y) * 256 + z
    ensures n / 65536 % 256 == x && n / 256 % 256 == y && n % 256 == z
  {
    assert n / 256 == x * 256 + y;
  }

  lemma DigitsOfShort(n: nat, x: nat, y: nat, z: nat)
    requires x < 256 && y < 256 && z < 256
    ensures n * 64 == (x * 256 + y) * 256 + z ==> n / 1024 % 256 == x && n / 4 % 256 == y
    ensures n * 4096 == (x * 256 + y) * 256 + z ==> n / 16 % 256 == x
  {
    if n * 64 == (x * 256 + y) * 256 + z {
      assert n / 4 == x * 256 + y;
    }
  }

  lemma WordOfShort(a: sextet, b: sextet, c: sextet, d: sextet)
    ensures WordOf([]) == 0
    ensures WordOf([a, b]) == a * 64 + b
    ensures WordOf([a, b, c]) == (a * 64 + b) * 64 + c
    ensures WordOf([a, b, c, d]) == ((a * 64 + b) * 64 + c) * 64 + d
  {
    WordOfAppend([], a);
    WordOfAppend([a], b);
    WordOfAppend([a, b], c);
    WordOfAppend([a, b, c], d);
    assert [] + [a] == [a] && [a] + [b] == [a, b] && [a, b] + [c] == [a, b, c] && [a, b, c] + [d] == [a, b, c, d];
  }

  /** The numbers Decode writes for four, three and two symbols. */
  lemma WordBytes(a: sextet, b: sextet, c: sextet, d: sextet)
    ensures var n := WordOf([a, b, c, d]);
      n / 65536 % 256 == First(a, b) as int && n / 256 % 256 == Second(b, c) as int && n % 256 == Third(c, d) as int
  {
    WordOfShort(a, b, c, d);
    FourAreThree(a, b, c, d);
    hide *;
    DigitsOf(WordOf([a, b, c, d]), First(a, b), Second(b, c), Third(c, d));
  }

  lemma WordBytesShort(a: sextet, b: sextet, c: sextet)
    ensures var n := WordOf([a, b, c]);
      n / 1024 % 256 == First(a, b) as int && n / 4 % 256 == Second(b, c) as int
    ensures var n := WordOf([a, b]); n / 16 % 256 == First(a, b) as int
  {
    WordOfShort(a, b, c, 0);
    FourAreThree(a, b, c, 0);
    FourAreThree(a, b, 0, 0);
    hide *;
    DigitsOfShort(WordOf([a, b, c]), First(a, b), Second(b, c), Third(c, 0));
    DigitsOfShort(WordOf([a, b]), First(a, b), Second(b, 0), Third(0, 0));
  }

  lemma PartIs(part: seq<sextet>)
    ensures |part| == 0 ==> part == []
    ensures |part| == 1 ==> part == [part[0]]
    ensures |part| == 4 ==> part == [part[0], part[1], part[2], part[3]]
    ensures |part| == 3 ==> part == [part[0], part[1], part[2]]
    ensures |part| == 2 ==> part == [part[0], part[1]]
  {
  }

  lemma PartBytes(part: seq<sextet>)
    requires |part| <= 4
    ensures |part| < 2 ==> Bytes(part) == []
    ensures |part| == 2 ==> Bytes(part) == [WordOf(part) / 16 % 256]
    ensures |part| == 3 ==> Bytes(part) == [WordOf(part) / 1024 % 256, WordOf(part) / 4 % 256]
    ensures |part| == 4 ==> Bytes(part) == [WordOf(part) / 65536 % 256, WordOf(part) / 256 % 256, WordOf(part) % 256]
  {
    PartIs(part);
    var a: sextet := if |part| > 0 then part[0] else 0;
    var b: sextet := if |part| > 1 then part[1] else 0;
    var c: sextet := if |part| > 2 then part[2] else 0;
    var d: sextet := if |part| > 3 then part[3] else 0;
    WordBytes(a, b, c, d);
    WordBytesShort(a, b, c);
    BytesOfShort(a, b, c, d);
    hide *;
  }

  /** The symbols `s` are followed by those of a text. */
  ghost function Followed(s: seq<sextet>, rest: Option<seq<sextet>>): Option<seq<sextet>> {
    match rest
    case None => None
    case Some(r) => Some(s + r)
  }

  /** How the values of a text depend on its next character. */
  lemma NextSymbol(text: string, i: nat, done: seq<sextet>)
    requires i < |text| && text[i] != NUL
    ensures var now := Followed(done, Values(text[i..]));
      var c := Classify(text[i]);
      if c == White then now == Followed(done, Values(text[i + 1..]))
      else if c == Bad then now == None
      else if c == Pad then now == Some(done)
      else now == Followed(done + [c.v], Values(text[i + 1..]))
  {
    assert text[i..][0] == text[i] && text[i..][1..] == text[i + 1..];
    hide Classify;
    assert done + [] == done;
    var c := Classify(text[i]);
    if c.Value? && Values(text[i + 1..]).Some? {
      var r := Values(text[i + 1..]).value;
      assert done + ([c.v] + r) == done + [c.v] + r;
    }
  }

  lemma EndOfText(text: string, i: nat, done: seq<sextet>)
    requires i <= |text|
    ensures At(text, i) == NUL ==> Followed(done, Values(text[i..])) == Some(done)
  {
    assert done + [] == done;
  }

  /** Decoding succeeds exactly when no invalid character precedes the end and the bytes fit the caller's size. */
  method Decode(text: string, out: array<byte>, capacity: nat) returns (ok: bool, outLen: nat)
    requires capacity <= out.Length
    modifies out
    ensures ok <==> IsText(text) && |Letters(text)| * 3 / 4 <= capacity
    ensures ok ==> outLen == |Letters(text)| * 3 / 4 && AreBytesOf(out[..outLen], text)
    ensures ok <==> Values(text).Some? && |Bytes(Values(text).value)| <= capacity
    ensures ok ==> out[..] == Bytes(Values(text).value) + old(out[..])[|Bytes(Values(text).value)|..]
    ensures outLen == if ok then |Bytes(Values(text).value)| else capacity
    ensures out[capacity..] == old(out[capacity..])
  {
    hide WordOf, Values, Holding, Bytes, IsText, AreBytesOf, Letters, Numeral256, Numeral64;
    DecodedAreBytes(text);
    DecodedCount(text);
    var iter, buf, len;
    ghost var whole, part;
    ok, iter, buf, len, whole, part := DecodeGroups(text, out, capacity);
    if !ok {
      if Values(text).Some? {
        TooMany(Values(text).value, capacity);
      }
      return false, capacity;
    }
    HoldingBytes(whole, part, iter, buf, len);
    ok, outLen := DecodeTail(part, iter, buf, len, out, capacity);
  }

  lemma TooMany(s: seq<sextet>, capacity: nat)
    requires 3 * |s| >= 4 * (capacity + 1)
    ensures |Bytes(s)| > capacity
  {
    BytesLength(s);
  }

  lemma HoldingBytes(whole: seq<sextet>, part: seq<sextet>, iter: nat, buf: nat, len: nat)
    requires Holding(whole, part, iter, buf, len)
    ensures iter == |part| < 4 && buf == WordOf(part)
    ensures Bytes(whole + part) == Bytes(whole) + Bytes(part) && |Bytes(whole)| == len
  {
    hide Bytes, WordOf;
    WholeGroups(|whole|, len);
    BytesLength(whole);
    BytesConcat(whole, part);
  }

  lemma WholeGroups(n: nat, len: nat)
    requires 4 * len == 3 * n
    ensures n % 4 == 0 && n * 3 / 4 == len
  {
  }

  /** What the loop has in hand: whole groups already decoded, and fewer than four symbols in `buf`. */
  ghost predicate Holding(whole: seq<sextet>, part: seq<sextet>, iter: nat, buf: nat, len: nat) {
    iter == |part| < 4 && buf == WordOf(part) && 4 * len == 3 * |whole|
  }

  /** The loop: all whole groups of four symbols are decoded, the symbols of the last one are in `buf`. */
  method DecodeGroups(text: string, out: array<byte>, capacity: nat)
    returns (ok: bool, iter: nat, buf: nat, len: nat, ghost whole: seq<sextet>, ghost part: seq<sextet>)
    requires capacity <= out.Length
    modifies out
    ensures ok ==> Values(text) == Some(whole + part)
    ensures ok ==> Holding(whole, part, iter, buf, len) && len <= capacity && out[..len] == Bytes(whole)
    ensures forall k :: (if ok then len else capacity) <= k < out.Length ==> out[k] == old(out[k])
    ensures !ok ==> Values(text).None? || 3 * |Values(text).value| >= 4 * (capacity + 1)
  {
    WordOfShort(0, 0, 0, 0);
    hide Classify, Bytes, First, Second, Third, WordOf, Values;
    ok := true;
    iter, buf, len, whole, part := 0, 0, 0, [], [];
    var i: nat := 0;
    assert text[0..] == text && whole + part == [];
    assert forall r: seq<sextet> :: [] + r == r;
    PartBytes([]);
    hide Holding;
    while At(text, i) != NUL
      invariant i <= |text|
      invariant Holding(whole, part, iter, buf, len) && len <= capacity && out[..len] == Bytes(whole)
      invariant Values(text) == Followed(whole + part, Values(text[i..]))
      invariant forall k :: len <= k < out.Length ==> out[k] == old(out[k])
      decreases |text| - i
    {
      NextSymbol(text, i, whole + part);
      var c := Classify(text[i]);
      i := i + 1;
      if c == White {
        continue;
      }
      if c == Bad {
        ok := false;
        return;
      }
      if c == Pad {
        return;
      }
      ok, iter, buf, len, whole, part := TakeSymbol(whole, part, c.v, iter, buf, len, out, capacity);
      if !ok {
        return;
      }
    }
    EndOfText(text, i, whole + part);
  }

  /** One more symbol: the fourth of a group empties `buf` into three bytes, if they fit. */
  method TakeSymbol(ghost whole: seq<sextet>, ghost part: seq<sextet>, v: sextet,
                    iter: nat, buf: nat, len: nat, out: array<byte>, capacity: nat)
    returns (ok: bool, iter': nat, buf': nat, len': nat, ghost whole': seq<sextet>, ghost part': seq<sextet>)
    requires Holding(whole, part, iter, buf, len) && len <= capacity <= out.Length && out[..len] == Bytes(whole)
    modifies out
    ensures whole' + part' == whole + part + [v]
    ensures ok ==> Holding(whole', part', iter', buf', len') && len' <= capacity && out[..len'] == Bytes(whole')
    ensures !ok ==> 3 * |whole + part + [v]| >= 4 * (capacity + 1)
    ensures forall k :: (if ok then len' else capacity) <= k < out.Length ==> out[k] == old(out[k])
  {
    WordOfAppend(part, v);
    ok, len', whole' := true, len, whole;
    part', buf', iter' := part + [v], buf * 64 + v, iter + 1;
    if iter' == 4 {
      WholeGroups(|whole|, len);
      BytesConcat(whole, part');
      BytesLength(part');
      WordOfShort(0, 0, 0, 0);
      hide Bytes, WordOf;
      if len + 3 > capacity {
        ok := false;
        return;
      }
      PutThree(part', buf', len, out);
      iter', buf', len' := 0, 0, len + 3;
      whole', part' := whole + part', [];
    }
  }

  /** Three bytes for four symbols. */
  method PutThree(ghost part: seq<sextet>, buf: nat, len: nat, out: array<byte>)
    requires |part| == 4 && buf == WordOf(part)
    requires len + 3 <= out.Length
    modifies out
    ensures out[..len + 3] == old(out[..len]) + Bytes(part)
    ensures forall k :: len + 3 <= k < out.Length ==> out[k] == old(out[k])
  {
    PartBytes(part);
    hide *;
    out[len] := buf / 65536 % 256;
    out[len + 1] := buf / 256 % 256;
    out[len + 2] := buf % 256;
  }

  /** After the loop: three or two symbols left over are two bytes or one. */
  method DecodeTail(ghost part: seq<sextet>, iter: nat, buf: nat, len: nat, out: array<byte>, capacity: nat)
    returns (ok: bool, outLen: nat)
    requires iter == |part| < 4 && buf == WordOf(part)
    requires len <= capacity <= out.Length
    modifies out
    ensures outLen == if ok then len + |Bytes(part)| else capacity
    ensures ok <==> len + |Bytes(part)| <= capacity
    ensures ok ==> out[..] == old(out[..len]) + Bytes(part) + old(out[..])[outLen..]
    ensures out[..len] == old(out[..len]) && out[capacity..] == old(out[capacity..])
  {
    hide WordOf, First, Second, Third, Bytes;
    PartBytes(part);
    outLen := len;
    if iter == 3 {
      outLen := outLen + 2;
      if outLen > capacity {
        return false, capacity;
      }
      out[len] := buf / 1024 % 256;
      out[len + 1] := buf / 4 % 256;
    } else if iter == 2 {
      outLen := outLen + 1;
      if outLen > capacity {
        return false, capacity;
      }
      out[len] := buf / 16 % 256;
    }
    ok := true;
  }
}
