/** The integer transforms between a device's reading and the value the service reports. */
module Transform {
  import opened BitMask
  import opened CString

  datatype IntType = Uint8 | Uint16 | Uint32 | Uint64 | Int8 | Int16 | Int32 | Int64

  const TWO63: int := 0x8000_0000_0000_0000
  const TWO64: int := 0x1_0000_0000_0000_0000

  function MinOf(t: IntType): int {
    match t
    case Int8 => -0x80
    case Int16 => -0x8000
    case Int32 => -0x8000_0000
    case Int64 => -TWO63
    case _ => 0
  }

  function MaxOf(t: IntType): int {
    match t
    case Uint8 => 0xFF
    case Uint16 => 0xFFFF
    case Uint32 => 0xFFFF_FFFF
    case Uint64 => TWO64 - 1
    case Int8 => 0x7F
    case Int16 => 0x7FFF
    case Int32 => 0x7FFF_FFFF
    case Int64 => TWO63 - 1
  }

  predicate InRange(t: IntType, n: int) {
    MinOf(t) <= n <= MaxOf(t)
  }

  predicate IsLLInt(n: int) {
    -TWO63 <= n < TWO63
  }

  /** A transform argument, a signed 64-bit number when it is enabled. */
  datatype Arg = Off | On(ival: int)

  datatype Props = Props(t: IntType, mask: Arg, shift: Arg, scale: Arg, offset: Arg, base: Arg)

  predicate TransformsOn(p: Props) {
    p.offset.On? || p.scale.On? || p.base.On? || p.shift.On? || p.mask.On?
  }

  /** powl, and the quotient of two logl rounded by llroundl, as 64-bit integers; None where they do not fit one. */
  datatype LibM = LibM(power: (int, int) -> Option<int>, log: (int, int) -> Option<int>)

  datatype Value = Number(n: int) | Text(s: string)

  // ---- 64-bit arithmetic; None is undefined behaviour ----

  function Fit(n: int): (r: Option<int>)
    ensures r.Some? <==> IsLLInt(n)
    ensures r.Some? ==> r.value == n
  {
    if IsLLInt(n) then Some(n) else None
  }

  /** getLLInt: an unsigned number of 2^63 or more becomes negative. */
  function ToLLInt(n: int): int {
    if n >= TWO63 then n - TWO64 else n
  }

  function Bits(n: int): nat
    requires IsLLInt(n)
  {
    if n < 0 then n + TWO64 else n
  }

  /** Division of C: the quotient is rounded toward zero. */
  function TruncDiv(a: int, b: int): int
    requires b != 0
  {
    if a >= 0 then a / b else -((-a) / b)
  }

  /** `n << k` and, for a negative number, `n * 2^k`. */
  function ShiftLeft(n: int, k: int): Option<int> {
    if 0 <= k < 64 then Fit(n * Pow2(k)) else None
  }

  /** `n >> k`, arithmetic: rounded down. */
  function ShiftRight(n: int, k: int): Option<int> {
    if 0 <= k < 64 then Some(n / Pow2(k)) else None
  }

  function Masked(n: int, mask: Arg): int
    requires IsLLInt(n) && (mask.On? ==> IsLLInt(mask.ival))
  {
    if mask.On? then ToLLInt(BitAnd(Bits(n), Bits(mask.ival))) else n
  }

  function ShiftedOut(n: int, shift: Arg): Option<int> {
    if shift.Off? then Some(n) else if shift.ival < 0 then ShiftLeft(n, -shift.ival) else ShiftRight(n, shift.ival)
  }

  function ShiftedIn(n: int, shift: Arg): Option<int> {
    if shift.Off? then Some(n) else if shift.ival < 0 then ShiftRight(n, -shift.ival) else ShiftLeft(n, shift.ival)
  }

  function ScaledOut(n: int, scale: Arg): Option<int> {
    if scale.Off? then Some(n) else Fit(n * scale.ival)
  }

  function ScaledIn(n: int, scale: Arg): Option<int> {
    if scale.Off? then Some(n) else if scale.ival == 0 then None else Fit(TruncDiv(n, scale.ival))
  }

  function OffsetOut(n: int, offset: Arg): Option<int> {
    if offset.Off? then Some(n) else Fit(n + offset.ival)
  }

  function OffsetIn(n: int, offset: Arg): Option<int> {
    if offset.Off? then Some(n) else Fit(n - offset.ival)
  }

  function Powered(m: LibM, n: int, base: Arg): Option<int> {
    if base.Off? then Some(n) else m.power(base.ival, n)
  }

  function Logged(m: LibM, n: int, base: Arg): Option<int> {
    if base.Off? then Some(n) else m.log(n, base.ival)
  }

  /** The arguments are signed 64-bit numbers and the value is one of its type. */
  ghost predicate WellTyped(p: Props, n: int) {
    && InRange(p.t, n)
    && (p.mask.On? ==> IsLLInt(p.mask.ival)) && (p.shift.On? ==> IsLLInt(p.shift.ival))
    && (p.scale.On? ==> IsLLInt(p.scale.ival)) && (p.offset.On? ==> IsLLInt(p.offset.ival))
    && (p.base.On? ==> IsLLInt(p.base.ival))
  }

  /** What the logarithm and the shift of the incoming direction make of a number. */
  function Restored(m: LibM, p: Props, y: int): Option<int> {
    match Logged(m, y, p.base)
    case None => None
    case Some(z) => ShiftedIn(z, p.shift)
  }

  /** What the mask, the shift and the power of the outgoing direction make of a number. */
  function Prepared(m: LibM, p: Props, n: int): Option<int>
    requires IsLLInt(n) && (p.mask.On? ==> IsLLInt(p.mask.ival))
  {
    match ShiftedOut(Masked(n, p.mask), p.shift)
    case None => None
    case Some(x) => Powered(m, x, p.base)
  }

  /** The 64-bit result of the outgoing steps. */
  ghost function OutgoingResult(m: LibM, p: Props, n: int): Option<int>
    requires WellTyped(p, n)
  {
    match Prepared(m, p, ToLLInt(n))
    case None => None
    case Some(y) =>
      match ScaledOut(y, p.scale)
      case None => None
      case Some(c) => OffsetOut(c, p.offset)
  }

  ghost function IncomingResult(m: LibM, p: Props, n: int): Option<int>
    requires WellTyped(p, n)
  {
    match OffsetIn(ToLLInt(n), p.offset)
    case None => None
    case Some(a) =>
      match ScaledIn(a, p.scale)
      case None => None
      case Some(q) => Restored(m, p, q)
  }

  /** What is reported for a reading; None where the arithmetic is undefined. */
  ghost function Outgoing(m: LibM, p: Props, n: int): Option<Value>
    requires WellTyped(p, n)
  {
    if !TransformsOn(p) then Some(Number(n))
    else
      match OutgoingResult(m, p, n)
      case None => None
      case Some(r) => Some(if InRange(p.t, r) then Number(r) else Text("overflow"))
  }

  /** What a setting becomes and whether it is accepted; a refused one is left as it was. */
  ghost function Incoming(m: LibM, p: Props, n: int): Option<(bool, int)>
    requires WellTyped(p, n)
  {
    if !TransformsOn(p) then Some((true, n))
    else
      match IncomingResult(m, p, n)
      case None => None
      case Some(r) => Some(if InRange(p.t, r) then (true, r) else (false, n))
  }

  // ---- The code ----

  /** edgex_device_commandresult: a type, which may become String, and a value. */
  class CommandResult {
    var isString: bool
    var number: int
    var text: string

    constructor (n: int)
      ensures !isString && number == n
    {
      isString, number, text := false, n, "";
    }

    ghost function View(): Value
      reads this
    {
      if isString then Text(text) else Number(number)
    }
  }

  method SetLLInt(llival: int, cres: CommandResult, t: IntType) returns (ok: bool)
    requires IsLLInt(llival) && !cres.isString
    modifies cres
    ensures ok == InRange(t, llival)
    ensures cres.View() == if ok then Number(llival) else old(cres.View())
  {
    ok := match t
      case Uint8 => 0 <= llival <= 0xFF
      case Uint16 => 0 <= llival <= 0xFFFF
      case Uint32 => 0 <= llival <= 0xFFFF_FFFF
      case Uint64 => 0 <= llival
      case Int8 => -0x80 <= llival <= 0x7F
      case Int16 => -0x8000 <= llival <= 0x7FFF
      case Int32 => -0x8000_0000 <= llival <= 0x7FFF_FFFF
      case Int64 => true;
    if ok {
      cres.number := llival;
    }
  }

  /** The library functions give 64-bit integers. */
  ghost predicate GivesLLInts(m: LibM) {
    && (forall b, n :: m.power(b, n).Some? ==> IsLLInt(m.power(b, n).value))
    && (forall n, b :: m.log(n, b).Some? ==> IsLLInt(m.log(n, b).value))
  }

  method TransformOutgoing(m: LibM, cres: CommandResult, p: Props) returns (defined: bool)
    requires !cres.isString && WellTyped(p, cres.number) && GivesLLInts(m)
    modifies cres
    ensures defined == Outgoing(m, p, old(cres.number)).Some?
    ensures defined ==> Some(cres.View()) == Outgoing(m, p, old(cres.number))
  {
    if !TransformsOn(p) {
      return true;
    }
    var result := PrepareOutgoing(m, p, ToLLInt(cres.number));
    if result.None? {
      return false;
    }
    hide Prepared;
    if p.scale.On? {
      result := Fit(result.value * p.scale.ival);
      if result.None? {
        return false;
      }
    }
    if p.offset.On? {
      result := Fit(result.value + p.offset.ival);
      if result.None? {
        return false;
      }
    }
    var fits := SetLLInt(result.value, cres, p.t);
    if !fits {
      cres.isString := true;
      cres.text := "overflow";
    }
    return true;
  }

  /** The mask, the shift and the power. */
  method PrepareOutgoing(m: LibM, p: Props, n: int) returns (result: Option<int>)
    requires IsLLInt(n) && (p.mask.On? ==> IsLLInt(p.mask.ival)) && GivesLLInts(m)
    ensures result == Prepared(m, p, n)
    ensures result.Some? ==> IsLLInt(result.value)
  {
    result := Some(n);
    if p.mask.On? {
      result := Some(ToLLInt(BitAnd(Bits(result.value), Bits(p.mask.ival))));
    }
    MaskedFits(n, p.mask);
    if p.shift.On? {
      ShiftFits(result.value, p.shift.ival);
      hide ShiftLeft, ShiftRight, BitAnd;
      if p.shift.ival < 0 {
        result := ShiftLeft(result.value, -p.shift.ival);
      } else {
        result := ShiftRight(result.value, p.shift.ival);
      }
      if result.None? {
        return None;
      }
    }
    hide ShiftLeft, ShiftRight, BitAnd;
    if p.base.On? {
      result := m.power(p.base.ival, result.value);
    }
  }

  method TransformIncoming(m: LibM, cres: CommandResult, p: Props) returns (defined: bool, success: bool)
    requires !cres.isString && WellTyped(p, cres.number) && GivesLLInts(m)
    modifies cres
    ensures defined == Incoming(m, p, old(cres.number)).Some?
    ensures defined ==> !cres.isString && Incoming(m, p, old(cres.number)) == Some((success, cres.number))
  {
    if !TransformsOn(p) {
      return true, true;
    }
    hide TruncDiv, Restored;
    var result := Some(ToLLInt(cres.number));
    if p.offset.On? {
      result := Fit(result.value - p.offset.ival);
      if result.None? {
        return false, false;
      }
    }
    if p.scale.On? {
      result := if p.scale.ival == 0 then None else Fit(TruncDiv(result.value, p.scale.ival));
      if result.None? {
        return false, false;
      }
    }
    result := RestoreIncoming(m, p, result.value);
    if result.None? {
      return false, false;
    }
    success := SetLLInt(result.value, cres, p.t);
    return true, success;
  }

  /** The logarithm and the shift. */
  method RestoreIncoming(m: LibM, p: Props, n: int) returns (result: Option<int>)
    requires IsLLInt(n) && GivesLLInts(m)
    ensures result == Restored(m, p, n)
    ensures result.Some? ==> IsLLInt(result.value)
  {
    result := Some(n);
    if p.base.On? {
      result := m.log(result.value, p.base.ival);
      if result.None? {
        return None;
      }
    }
    if p.shift.On? {
      ShiftFits(result.value, p.shift.ival);
      hide ShiftLeft, ShiftRight;
      if p.shift.ival < 0 {
        result := ShiftRight(result.value, -p.shift.ival);
      } else {
        result := ShiftLeft(result.value, p.shift.ival);
      }
    }
  }

  lemma {:induction false} BitAndBelow(a: nat, b: nat)
    ensures BitAnd(a, b) <= a
    decreases a
  {
    if a > 0 && b > 0 {
      BitAndBelow(a / 2, b / 2);
    }
  }

  lemma MaskedFits(n: int, mask: Arg)
    requires IsLLInt(n) && (mask.On? ==> IsLLInt(mask.ival))
    ensures IsLLInt(Masked(n, mask))
  {
    if mask.On? {
      BitAndBelow(Bits(n), Bits(mask.ival));
    }
  }

  lemma ShiftFits(n: int, k: int)
    requires IsLLInt(n)
    ensures k < 0 ==>
      (ShiftLeft(n, -k).Some? ==> IsLLInt(ShiftLeft(n, -k).value))
      && (ShiftRight(n, -k).Some? ==> IsLLInt(ShiftRight(n, -k).value))
    ensures k >= 0 ==>
      (ShiftLeft(n, k).Some? ==> IsLLInt(ShiftLeft(n, k).value))
      && (ShiftRight(n, k).Some? ==> IsLLInt(ShiftRight(n, k).value))
  {
    var j := if k < 0 then -k else k;
    DivideShrinks(n, Pow2(j));
  }

  lemma Multiple(d: nat, q: int)
    requires d > 0
    ensures q >= 0 ==> d * q >= q
    ensures q < 0 ==> d * q <= q && d * q + d <= 0
  {
    NotNegative(d - 1, if q >= 0 then q else -q);
    NotNegative(d, if q >= 0 then q else -q - 1);
    assert d * q - q == (d - 1) * q;
  }

  lemma NotNegative(a: nat, b: nat)
    ensures a * b >= 0
  {
  }

  lemma DivideShrinks(n: int, d: nat)
    requires d > 0
    ensures n >= 0 ==> 0 <= n / d <= n
    ensures n < 0 ==> n <= n / d < 0
  {
    var q, r := n / d, n % d;
    assert n == d * q + r;
    Multiple(d, q);
    Multiple(d, q + 1);
  }

  // ---- Division ----

  lemma ExactQuotient(x: int, b: int, s: int)
    requires b != 0 && x == b * s
    ensures x / b == s && TruncDiv(x, b) == s && x % b == 0
  {
    EuclidIsExact(x, b, s);
    EuclidIsExact(-x, b, -s);
  }

  lemma EuclidIsExact(x: int, b: int, s: int)
    requires b != 0 && x == b * s
    ensures x / b == s && x % b == 0
  {
    var d := s - x / b;
    assert b * d == x % b;
    SmallMultiple(if b > 0 then b else -b, if b > 0 then d else -d);
  }

  // ---- What the transforms compute ----

  /** The reading under the mask, as the number it is: of an unsigned reading the top bit counts for 2^63. */
  function MaskMeant(n: int, mask: Arg): int
    requires -TWO63 <= n < TWO64 && (mask.On? ==> IsLLInt(mask.ival))
  {
    if mask.Off? then n else if n < 0 then Masked(n, mask) else BitAnd(n, Bits(mask.ival))
  }

  function ShiftMeant(n: int, shift: Arg): int
    requires shift.On? ==> -64 < shift.ival < 64
  {
    if shift.Off? then n else if shift.ival < 0 then n * Pow2(-shift.ival) else n / Pow2(shift.ival)
  }

  /** The number the arguments ask for: the true reading masked, shifted, scaled and moved, with nothing wrapped. */
  ghost function Meant(p: Props, n: int): int
    requires WellTyped(p, n) && (p.shift.On? ==> -64 < p.shift.ival < 64)
  {
    ShiftMeant(MaskMeant(n, p.mask), p.shift) * FactorOf(p.scale) + AmountOf(p.offset)
  }

  /** What the code works out instead: the same from the reading as a signed number. */
  ghost function Computed(p: Props, n: int): int
    requires WellTyped(p, n) && (p.shift.On? ==> -64 < p.shift.ival < 64)
  {
    ShiftMeant(Masked(ToLLInt(n), p.mask), p.shift) * FactorOf(p.scale) + AmountOf(p.offset)
  }

  function Reported(t: IntType, n: int): Value {
    if InRange(t, n) then Number(n) else Text("overflow")
  }

  /** Where the steps are defined they report the number computed, or "overflow". */
  lemma OutgoingIsComputed(m: LibM, p: Props, n: int)
    requires WellTyped(p, n) && TransformsOn(p) && p.base.Off? && Outgoing(m, p, n).Some?
    ensures p.shift.On? ==> -64 < p.shift.ival < 64
    ensures IsLLInt(Computed(p, n)) && Outgoing(m, p, n) == Some(Reported(p.t, Computed(p, n)))
  {
    MaskedFits(ToLLInt(n), p.mask);
    ShiftOutFits(Masked(ToLLInt(n), p.mask), p.shift);
    hide Masked;
  }

  /**
   * Signed and unsigned reading part only when the top bit of a 64-bit unsigned reading passes the mask; shifted, the
   * one is then negative and the other is not.
   */
  lemma WrapsWhenTopBitSet(p: Props, n: int)
    requires WellTyped(p, n) && (p.shift.On? ==> -64 < p.shift.ival < 64)
    ensures var (meant, wrapped) := (MaskMeant(n, p.mask), Masked(ToLLInt(n), p.mask));
      if meant < TWO63 then wrapped == meant
      else
        && p.t == Uint64 && wrapped == meant - TWO64 < 0
        && ShiftMeant(wrapped, p.shift) < 0 <= ShiftMeant(meant, p.shift)
  {
    if p.mask.On? && n >= 0 {
      BitAndBelow(n, Bits(p.mask.ival));
    }
    MaskedFits(ToLLInt(n), p.mask);
    hide BitAnd;
    if p.shift.On? {
      ShiftKeepsSign(MaskMeant(n, p.mask), p.shift.ival);
      ShiftKeepsSign(Masked(ToLLInt(n), p.mask), p.shift.ival);
    }
  }

  lemma ShiftKeepsSign(n: int, k: int)
    requires -64 < k < 64
    ensures ShiftMeant(n, On(k)) < 0 <==> n < 0
  {
    if k < 0 {
      var d := Pow2(-k);
      assert n >= 0 ==> n * d >= 0;
      assert n < 0 ==> n * d < 0;
    } else {
      DivideShrinks(n, Pow2(k));
    }
  }

  /**
   * With no base, what is reported is the number meant, or "overflow" when that is no value of the type, exactly when
   * the top bit of the masked reading is clear, or the scale is 0, or the number computed is negative where the number
   * meant is no value of the type either.
   */
  lemma OutgoingIsExactOrOverflow(m: LibM, p: Props, n: int)
    requires WellTyped(p, n) && TransformsOn(p) && p.base.Off? && Outgoing(m, p, n).Some?
    ensures p.shift.On? ==> -64 < p.shift.ival < 64
    ensures Outgoing(m, p, n) == Some(Reported(p.t, Meant(p, n))) <==>
      MaskMeant(n, p.mask) < TWO63 || FactorOf(p.scale) == 0 || (Computed(p, n) < 0 && !InRange(p.t, Meant(p, n)))
  {
    OutgoingIsComputed(m, p, n);
    MeantOrNot(p, n);
    hide Outgoing, Meant, Computed, MaskMeant;
  }

  /**
   * A wrong number goes out, silently, exactly when the top bit is set, the scale is not 0 and nothing negative
   * results.
   */
  lemma WrongNumberIff(m: LibM, p: Props, n: int)
    requires WellTyped(p, n) && TransformsOn(p) && p.base.Off? && Outgoing(m, p, n).Some?
    ensures p.shift.On? ==> -64 < p.shift.ival < 64
    ensures Outgoing(m, p, n).value.Number? && Outgoing(m, p, n).value.n != Meant(p, n) <==>
      MaskMeant(n, p.mask) >= TWO63 && FactorOf(p.scale) != 0 && Computed(p, n) >= 0
  {
    OutgoingIsComputed(m, p, n);
    MeantOrNot(p, n);
    hide Outgoing, Meant, Computed, MaskMeant;
  }

  lemma MeantOrNot(p: Props, n: int)
    requires WellTyped(p, n) && (p.shift.On? ==> -64 < p.shift.ival < 64)
    ensures Computed(p, n) == Meant(p, n) <==> MaskMeant(n, p.mask) < TWO63 || FactorOf(p.scale) == 0
    ensures MaskMeant(n, p.mask) >= TWO63 ==> p.t == Uint64
  {
    WrapsWhenTopBitSet(p, n);
    DifferentProducts(ShiftMeant(MaskMeant(n, p.mask), p.shift), ShiftMeant(Masked(ToLLInt(n), p.mask), p.shift),
                      FactorOf(p.scale));
    hide ShiftMeant, MaskMeant, Masked;
  }

  lemma DifferentProducts(x: int, y: int, f: int)
    ensures x * f == y * f <==> x == y || f == 0
  {
    if x * f == y * f && f != 0 {
      ExactQuotient(x * f, f, x);
      ExactQuotient(y * f, f, y);
    }
  }

  /** It happens: 2^64 - 5 with 10 to be added is reported as 5, and so is 2^64 - 5 scaled by -1. */
  lemma WrongNumbers(m: LibM)
    ensures var (p, n) := (Props(Uint64, Off, Off, Off, On(10), Off), TWO64 - 5);
      Outgoing(m, p, n) == Some(Number(5)) && Meant(p, n) == TWO64 + 5
    ensures var (p, n) := (Props(Uint64, Off, Off, On(-1), Off, Off), TWO64 - 5);
      Outgoing(m, p, n) == Some(Number(5)) && Meant(p, n) == 5 - TWO64
  {
  }

  // ---- Masks, bit by bit ----

  /** Adding 2^64 changes none of the low 64 bits. */
  lemma LowBitsStay(x: int, k: nat)
    requires k < 64
    ensures Bit(x + TWO64, k) == Bit(x, k)
  {
    hide Pow2;
    var (p, q) := (Pow2(k), Pow2(63 - k));
    Pow2Splits(k, 63 - k);
    Pow2Of63();
    assert TWO64 == p * (2 * q);
    assert x == p * (x / p) + x % p;
    assert x + TWO64 == p * (x / p + 2 * q) + x % p;
    QuotientIs(x + TWO64, p, x / p + 2 * q, x % p);
  }

  /** A mask keeps exactly the bits that are set in the reading and in it, on signed and unsigned numbers alike. */
  lemma MaskedBits(n: int, mask: int, k: nat)
    requires -TWO63 <= n < TWO64 && IsLLInt(mask) && k < 64
    ensures Bit(Masked(ToLLInt(n), On(mask)), k) <==> Bit(n, k) && Bit(mask, k)
  {
    hide Pow2, BitAnd, Bit;
    var (a, b) := (Bits(ToLLInt(n)), Bits(mask));
    BitOfAnd(a, b, k);
    LowBitsStay(n, k);
    LowBitsStay(n - TWO64, k);
    LowBitsStay(mask, k);
    LowBitsStay(BitAnd(a, b) - TWO64, k);
  }

  /** With only a mask, bit `k` of what is reported is set exactly when it is set in the reading and in the mask. */
  lemma MaskKeepsBits(m: LibM, p: Props, n: int, k: nat)
    requires WellTyped(p, n) && p.mask.On? && p.shift.Off? && p.scale.Off? && p.offset.Off? && p.base.Off? && k < 64
    ensures Outgoing(m, p, n).Some?
    ensures Outgoing(m, p, n).value.Number? ==>
      (Bit(Outgoing(m, p, n).value.n, k) <==> Bit(n, k) && Bit(p.mask.ival, k))
  {
    MaskedBits(n, p.mask.ival, k);
    hide Masked, Bit;
  }

  /** Division in the incoming direction rounds toward zero: never past the number, and short of it by less than `b`. */
  lemma TruncDivIs(a: int, b: int)
    requires b != 0
    ensures var (q, r) := (TruncDiv(a, b), a - b * TruncDiv(a, b));
      && (if b > 0 then -b < r < b else b < r < -b)
      && (a >= 0 ==> r >= 0) && (a <= 0 ==> r <= 0)
  {
    var n := if a >= 0 then a else -a;
    assert n == b * (n / b) + n % b;
    if a < 0 {
      assert b * TruncDiv(a, b) == -(b * (n / b));
    }
  }

  /** A 64-bit unsigned reading of 2^63 or more is not preserved even by arguments that change nothing. */
  lemma IdentityArguments(m: LibM, p: Props, n: int)
    requires WellTyped(p, n) && TransformsOn(p) && p.base.Off? && p.mask.Off?
    requires p.scale.On? ==> p.scale.ival == 1
    requires p.offset.On? ==> p.offset.ival == 0
    requires p.shift.On? ==> p.shift.ival == 0
    ensures Outgoing(m, p, n) == Some(if n < TWO63 then Number(n) else Text("overflow"))
  {
    assert Pow2(0) == 1;
  }

  /** The shift loses bits on the way out: it is to the right, and a bit shifted away is set. */
  ghost predicate OutLosesBits(shift: Arg, n: int) {
    shift.On? && 0 < shift.ival < 64 && n % Pow2(shift.ival) != 0
  }

  ghost predicate InLosesBits(shift: Arg, n: int) {
    shift.On? && -64 < shift.ival < 0 && n % Pow2(-shift.ival) != 0
  }

  /** Rounding down to a multiple of a power of two stays within 64 bits. */
  lemma FloorTimes(n: int, k: nat)
    requires IsLLInt(n) && k < 64
    ensures n / Pow2(k) * Pow2(k) == n - n % Pow2(k) && IsLLInt(n / Pow2(k) * Pow2(k))
  {
    Pow2Splits(k, 63 - k);
    Pow2Of63();
    hide Pow2;
    FloorAbove(n, Pow2(k), Pow2(63 - k));
  }

  lemma FloorAbove(n: int, d: nat, e: nat)
    requires d > 0 && n >= -(d * e)
    ensures n / d * d == n - n % d && n / d * d >= -(d * e)
  {
    var q, r := n / d, n % d;
    assert n == d * q + r;
    Multiple(d, q + e);
    assert d * (q + e) == d * q + d * e;
  }

  lemma {:induction false} Pow2Splits(a: nat, b: nat)
    ensures Pow2(a) * Pow2(b) == Pow2(a + b)
  {
    if a > 0 {
      Pow2Splits(a - 1, b);
      assert Pow2(a) == 2 * Pow2(a - 1) && Pow2(a + b) == 2 * Pow2(a - 1 + b);
      assert 2 * Pow2(a - 1) * Pow2(b) == 2 * (Pow2(a - 1) * Pow2(b));
    }
  }

  lemma Pow2Of63()
    ensures Pow2(63) == TWO63
  {
    assert Pow2(7) == 0x80;
    hide Pow2;
    Pow2Known(7, 0x80, 7, 0x80);
    Pow2Known(14, 0x4000, 7, 0x80);
    Pow2Known(21, 0x20_0000, 21, 0x20_0000);
    Pow2Known(42, 0x400_0000_0000, 21, 0x20_0000);
  }

  lemma Pow2Known(a: nat, x: nat, b: nat, y: nat)
    requires Pow2(a) == x && Pow2(b) == y
    ensures Pow2(a + b) == x * y
  {
    Pow2Splits(a, b);
  }

  lemma ScaleOutIn(n: int, scale: Arg)
    requires IsLLInt(n) && ScaledOut(n, scale).Some? && (scale.On? ==> scale.ival != 0)
    ensures ScaledIn(ScaledOut(n, scale).value, scale) == Some(n)
  {
    if scale.On? {
      ExactQuotient(n * scale.ival, scale.ival, n);
      hide TruncDiv;
    }
  }

  lemma ShiftOutFits(n: int, shift: Arg)
    requires IsLLInt(n)
    ensures ShiftedOut(n, shift).Some? ==> IsLLInt(ShiftedOut(n, shift).value)
    ensures ShiftedIn(n, shift).Some? ==> IsLLInt(ShiftedIn(n, shift).value)
  {
    if shift.On? {
      ShiftFits(n, shift.ival);
    }
  }

  /** A number with the bits cleared that a right shift loses. */
  function Kept(n: int, shift: Arg): int {
    if shift.On? && 0 < shift.ival < 64 then n - n % Pow2(shift.ival) else n
  }

  lemma ShiftOutInKeeps(n: int, shift: Arg)
    requires IsLLInt(n) && ShiftedOut(n, shift).Some?
    ensures ShiftedIn(ShiftedOut(n, shift).value, shift) == Some(Kept(n, shift)) && IsLLInt(Kept(n, shift))
    ensures Kept(n, shift) == n <==> !OutLosesBits(shift, n)
  {
    if shift.On? {
      var k := if shift.ival < 0 then -shift.ival else shift.ival;
      var d := Pow2(k);
      if shift.ival < 0 {
        ExactQuotient(n * d, d, n);
      } else {
        FloorTimes(n, k);
        assert k == 0 ==> d == 1;
      }
    }
  }

  function FactorOf(scale: Arg): int {
    if scale.On? then scale.ival else 1
  }

  function AmountOf(offset: Arg): int {
    if offset.On? then offset.ival else 0
  }

  /**
   * What was reported, sent back, whatever the arguments: scale and offset cancel, unless the scale is 0, so the
   * reading is recovered exactly when the incoming logarithm and shift undo the outgoing mask, shift and power.
   */
  lemma {:induction false} IncomingUndoesScaling(m: LibM, p: Props, n: int)
    requires WellTyped(p, n) && GivesLLInts(m) && TransformsOn(p)
    requires Outgoing(m, p, n).Some? && Outgoing(m, p, n).value.Number?
    ensures WellTyped(p, Outgoing(m, p, n).value.n) && Prepared(m, p, ToLLInt(n)).Some?
    ensures Incoming(m, p, Outgoing(m, p, n).value.n) == Some((true, n)) <==>
      n < TWO63 && FactorOf(p.scale) != 0 && Restored(m, p, Prepared(m, p, ToLLInt(n)).value) == Some(n)
  {
    var masked := Masked(ToLLInt(n), p.mask);
    MaskedFits(ToLLInt(n), p.mask);
    ShiftOutFits(masked, p.shift);
    var x := ShiftedOut(masked, p.shift).value;
    var y := Powered(m, x, p.base).value;
    assert IsLLInt(y);
    if FactorOf(p.scale) != 0 {
      ScaleOutIn(y, p.scale);
      RestoredFits(m, p, y);
    }
    hide ShiftedOut, ShiftedIn, Masked, Logged, Powered, GivesLLInts, TruncDiv;
  }

  lemma RestoredFits(m: LibM, p: Props, y: int)
    requires GivesLLInts(m) && IsLLInt(y)
    ensures Restored(m, p, y).Some? ==> IsLLInt(Restored(m, p, y).value)
  {
    var z := Logged(m, y, p.base);
    if z.Some? {
      ShiftOutFits(z.value, p.shift);
    }
    hide ShiftedIn;
  }

  /**
   * Without a base the reading is recovered exactly when it is below 2^63, the scale is not 0, and neither the mask
   * nor a shift to the right has cleared a bit that is set in it.
   */
  lemma {:induction false} IncomingUndoesOutgoing(m: LibM, p: Props, n: int)
    requires WellTyped(p, n) && GivesLLInts(m) && p.base.Off?
    requires Outgoing(m, p, n).Some? && Outgoing(m, p, n).value.Number?
    ensures WellTyped(p, Outgoing(m, p, n).value.n)
    ensures Incoming(m, p, Outgoing(m, p, n).value.n) == Some((true, n)) <==>
      (TransformsOn(p) ==>
        n < TWO63 && FactorOf(p.scale) != 0 && Kept(Masked(ToLLInt(n), p.mask), p.shift) == n)
    ensures p.mask.Off? && n < TWO63 ==>
      (Kept(Masked(ToLLInt(n), p.mask), p.shift) == n <==> !OutLosesBits(p.shift, n))
  {
    MaskedFits(ToLLInt(n), p.mask);
    if TransformsOn(p) {
      IncomingUndoesScaling(m, p, n);
      ShiftOutInKeeps(Masked(ToLLInt(n), p.mask), p.shift);
      hide Outgoing, Incoming, ShiftedOut, ShiftedIn, Kept, OutLosesBits, GivesLLInts;
    } else {
      KeptUnlessLost(n, p.shift);
      hide Kept, OutLosesBits;
    }
  }

  lemma KeptUnlessLost(n: int, shift: Arg)
    ensures Kept(n, shift) == n <==> !OutLosesBits(shift, n)
  {
    hide Pow2;
  }

  lemma ShiftInOut(n: int, shift: Arg)
    requires IsLLInt(n) && ShiftedIn(n, shift).Some?
    ensures var back := ShiftedOut(ShiftedIn(n, shift).value, shift);
      back.Some? && (back.value == n <==> !InLosesBits(shift, n))
  {
    if shift.On? {
      var k := if shift.ival < 0 then -shift.ival else shift.ival;
      var d := Pow2(k);
      if shift.ival >= 0 {
        ExactQuotient(n * d, d, n);
      } else {
        FloorTimes(n, k);
      }
    }
  }

  lemma ScaleInIs(a: int, scale: Arg)
    requires IsLLInt(a) && ScaledIn(a, scale).Some?
    ensures FactorOf(scale) != 0 && ScaledIn(a, scale) == Some(TruncDiv(a, FactorOf(scale)))
    ensures IsLLInt(ScaledIn(a, scale).value)
  {
    ExactQuotient(a, 1, a);
  }

  /** Scaling `q` gives `a` exactly when `q` is the quotient of `a` and there is no remainder. */
  lemma ScaleInOut(a: int, q: int, scale: Arg)
    requires IsLLInt(a) && FactorOf(scale) != 0
    ensures ScaledOut(q, scale) == Some(a) <==> a % FactorOf(scale) == 0 && q == TruncDiv(a, FactorOf(scale))
  {
    var f := FactorOf(scale);
    if q * f == a {
      ExactQuotient(a, f, q);
    }
    if a % f == 0 && q == TruncDiv(a, f) {
      assert a == f * (a / f);
      ExactQuotient(a, f, a / f);
      assert q * f == a;
    }
  }

  /**
   * What was set, reported back, whatever the arguments: recovered exactly when it is below 2^63, the scale divides
   * it after the offset, and the outgoing mask, shift and power undo the incoming logarithm and shift.
   */
  lemma {:induction false} OutgoingUndoesScaling(m: LibM, p: Props, n: int)
    requires WellTyped(p, n) && GivesLLInts(m) && TransformsOn(p)
    requires Incoming(m, p, n).Some? && Incoming(m, p, n).value.0
    ensures var v := Incoming(m, p, n).value.1; WellTyped(p, v) && IsLLInt(v) && FactorOf(p.scale) != 0
    ensures var (v, a) := (Incoming(m, p, n).value.1, ToLLInt(n) - AmountOf(p.offset));
      && Restored(m, p, TruncDiv(a, FactorOf(p.scale))) == Some(v)
      && (Outgoing(m, p, v) == Some(Number(n)) <==>
           n < TWO63 && a % FactorOf(p.scale) == 0 && Prepared(m, p, v) == Some(TruncDiv(a, FactorOf(p.scale))))
  {
    var a := ToLLInt(n) - AmountOf(p.offset);
    assert OffsetIn(ToLLInt(n), p.offset) == Some(a);
    ScaleInIs(a, p.scale);
    var q := TruncDiv(a, FactorOf(p.scale));
    RestoredFits(m, p, q);
    var v := Incoming(m, p, n).value.1;
    var y := Prepared(m, p, v);
    if y.Some? {
      ScaleInOut(a, y.value, p.scale);
    }
    if n < TWO63 {
      OffsetBack(n, p.offset);
    } else {
      OutgoingIsLLInt(m, p, v);
    }
    hide ShiftedOut, ShiftedIn, Masked, Logged, Powered, GivesLLInts, TruncDiv, ScaledOut, ScaledIn, Prepared,
      OffsetOut, OffsetIn;
  }

  lemma OffsetBack(n: int, offset: Arg)
    requires IsLLInt(n)
    ensures forall c :: OffsetOut(c, offset) == Some(n) <==> c == n - AmountOf(offset)
  {
  }

  lemma OutgoingIsLLInt(m: LibM, p: Props, v: int)
    requires WellTyped(p, v) && GivesLLInts(m)
    ensures OutgoingResult(m, p, v).Some? ==> IsLLInt(OutgoingResult(m, p, v).value)
  {
    MaskedFits(ToLLInt(v), p.mask);
    ShiftOutFits(Masked(ToLLInt(v), p.mask), p.shift);
    hide ShiftedOut, Masked;
  }

  /**
   * Without a base the setting is recovered exactly when it is below 2^63, the scale divides it after the offset, the
   * mask clears no bit of what it became, and no set bit was shifted out of the quotient.
   */
  lemma {:induction false} OutgoingUndoesIncoming(m: LibM, p: Props, n: int)
    requires WellTyped(p, n) && GivesLLInts(m) && p.base.Off?
    requires Incoming(m, p, n).Some? && Incoming(m, p, n).value.0
    ensures var v := Incoming(m, p, n).value.1;
      WellTyped(p, v) && FactorOf(p.scale) != 0 && (TransformsOn(p) ==> IsLLInt(v))
    ensures var (v, a) := (Incoming(m, p, n).value.1, ToLLInt(n) - AmountOf(p.offset));
      Outgoing(m, p, v) == Some(Number(n)) <==>
        (TransformsOn(p) ==>
          && n < TWO63 && a % FactorOf(p.scale) == 0
          && ShiftedOut(Masked(v, p.mask), p.shift) == Some(TruncDiv(a, FactorOf(p.scale))))
    ensures var (v, a) := (Incoming(m, p, n).value.1, ToLLInt(n) - AmountOf(p.offset));
      TransformsOn(p) && p.mask.Off? ==>
        (ShiftedOut(Masked(v, p.mask), p.shift) == Some(TruncDiv(a, FactorOf(p.scale))) <==>
          !InLosesBits(p.shift, TruncDiv(a, FactorOf(p.scale))))
  {
    if TransformsOn(p) {
      OutgoingUndoesScaling(m, p, n);
      var a := ToLLInt(n) - AmountOf(p.offset);
      ScaleInFits(m, p, n);
      ShiftInOut(TruncDiv(a, FactorOf(p.scale)), p.shift);
      hide Outgoing, Incoming, ShiftedOut, ShiftedIn, InLosesBits, GivesLLInts, TruncDiv;
    }
  }

  lemma ScaleInFits(m: LibM, p: Props, n: int)
    requires WellTyped(p, n) && TransformsOn(p) && Incoming(m, p, n).Some?
    ensures FactorOf(p.scale) != 0 && IsLLInt(TruncDiv(ToLLInt(n) - AmountOf(p.offset), FactorOf(p.scale)))
  {
    var a := ToLLInt(n) - AmountOf(p.offset);
    assert OffsetIn(ToLLInt(n), p.offset) == Some(a);
    ScaleInIs(a, p.scale);
    hide ShiftedIn, TruncDiv, ScaledIn;
  }
}
