/**
 Arithmetic flags and branches (crates/mcr-jit/src/registers.rs and execution.rs): the bit formulas that set the
 flags, and that the conditional jumps of Appendix B of the Intel SDM, volume 1, then follow the comparison.
 */
module Flags {
  import opened Ranges

  // Bits

  function Pow2(n: nat): (r: nat)
    ensures r > 0
  {
    if n == 0 then 1 else 2 * Pow2(n - 1)
  }

  function And(a: nat, b: nat): nat {
    if a == 0 || b == 0 then 0 else (if a % 2 == 1 && b % 2 == 1 then 1 else 0) + 2 * And(a / 2, b / 2)
  }

  function Xor(a: nat, b: nat): nat
    decreases a + b
  {
    if a == 0 then b else if b == 0 then a else (a + b) % 2 + 2 * Xor(a / 2, b / 2)
  }

  predicate Bit(v: nat, k: nat) {
    if k == 0 then v % 2 == 1 else Bit(v / 2, k - 1)
  }

  lemma {:induction false} ZeroBit(k: nat)
    ensures !Bit(0, k)
  {
    if k > 0 { ZeroBit(k - 1); }
  }

  lemma {:induction false} AndBit(a: nat, b: nat, k: nat)
    ensures Bit(And(a, b), k) == (Bit(a, k) && Bit(b, k))
  {
    ZeroBit(k);
    if a != 0 && b != 0 && k > 0 {
      AndBit(a / 2, b / 2, k - 1);
      assert And(a, b) / 2 == And(a / 2, b / 2);
    }
  }

  lemma {:induction false} XorBit(a: nat, b: nat, k: nat)
    ensures Bit(Xor(a, b), k) == (Bit(a, k) != Bit(b, k))
  {
    ZeroBit(k);
    if a != 0 && b != 0 && k > 0 {
      XorBit(a / 2, b / 2, k - 1);
      assert Xor(a, b) / 2 == Xor(a / 2, b / 2);
    }
  }

  /** Masking with a single bit tests it. */
  lemma {:induction false} TestBit(v: nat, k: nat)
    ensures And(v, Pow2(k)) != 0 <==> Bit(v, k)
  {
    ZeroBit(k);
    if v != 0 && k > 0 {
      TestBit(v / 2, k - 1);
      assert Pow2(k) / 2 == Pow2(k - 1);
    }
  }

  /** Masking with all ones below a power keeps the remainder. */
  lemma {:induction false} MaskRemainder(v: nat, n: nat)
    ensures And(v, Pow2(n) - 1) == v % Pow2(n)
  {
    if v != 0 && n > 0 {
      MaskRemainder(v / 2, n - 1);
      assert (Pow2(n) - 1) / 2 == Pow2(n - 1) - 1;
      HalvedRemainder(v, Pow2(n - 1));
    }
  }

  lemma HalvedRemainder(v: nat, p: nat)
    requires p > 0
    ensures v % (2 * p) == v % 2 + 2 * (v / 2 % p)
  {
    var q, r := v / 2 / p, v / 2 % p;
    assert v / 2 == q * p + r;
    assert v == q * (2 * p) + (v % 2 + 2 * r);
    RemainderIs(v, 2 * p, q, v % 2 + 2 * r);
  }

  lemma MultipleInside(e: int, d: int)
    requires -d < e * d < d
    ensures e == 0
  {
    assert e >= 1 ==> e * d >= 1 * d;
    assert e <= -1 ==> e * d <= -1 * d;
  }

  lemma RemainderIs(v: int, d: nat, q: int, r: nat)
    requires d > 0 && v == q * d + r && r < d
    ensures v % d == r && v / d == q
  {
    var e := v / d - q;
    assert v / d * d + v % d == v;
    assert e * d == r - v % d;
    MultipleInside(e, d);
  }

  /** The top bit of a value says whether it is in the upper half. */
  lemma {:induction false} TopBit(v: nat, k: nat)
    requires v < Pow2(k + 1)
    ensures Bit(v, k) <==> v >= Pow2(k)
  {
    if k > 0 {
      TopBit(v / 2, k - 1);
    }
  }

  // Setting flags

  datatype FlagState = FlagState(carry: bool, zero: bool, sign: bool, overflow: bool)

  predicate Width(bits: nat) {
    0 < bits <= 64
  }

  function MaskForWidth(bits: nat): nat {
    Pow2(bits) - 1
  }

  function MaskToWidth(value: nat, bits: nat): nat {
    And(value, MaskForWidth(bits))
  }

  function SignBit(bits: nat): nat
    requires bits > 0
  {
    Pow2(bits - 1)
  }

  class GuestFlags {
    var carry: bool
    var zero: bool
    var sign: bool
    var overflow: bool

    function Value(): FlagState
      reads this
    {
      FlagState(carry, zero, sign, overflow)
    }

    method SetZeroSign(result: nat, bits: nat)
      requires Width(bits)
      modifies this`zero, this`sign
      ensures zero == (result == 0) && sign == (And(result, SignBit(bits)) != 0)
    {
      zero := result == 0;
      sign := And(result, SignBit(bits)) != 0;
    }

    /** Flags of an addition: carry and overflow say when the true sum leaves the unsigned or signed range. */
    method SetAddResult(lhs: U64, rhs: U64, result: U64, bits: nat)
      requires Width(bits)
      modifies this
      ensures result % Pow2(bits) == (lhs % Pow2(bits) + rhs % Pow2(bits)) % Pow2(bits) ==>
              AddFlags(Value(), lhs, rhs, bits)
      ensures SignJumps(Value(), result, bits)
    {
      hide And, Xor, Pow2, AddFlags, SignJumps;
      var l, r, t := MaskToWidth(lhs, bits), MaskToWidth(rhs, bits), MaskToWidth(result, bits);
      SetZeroSign(t, bits);
      carry := l + r > MaskForWidth(bits);
      overflow := And(And(Xor(l, t), Xor(r, t)), SignBit(bits)) != 0;
      AddFormulas(lhs, rhs, result, bits, Value());
      SignFormula(result, bits, Value());
    }

    /** Flags of a subtraction or comparison: afterwards every conditional jump follows the comparison. */
    method SetSubResult(lhs: U64, rhs: U64, result: U64, bits: nat)
      requires Width(bits)
      modifies this
      ensures result % Pow2(bits) == (lhs % Pow2(bits) - rhs % Pow2(bits)) % Pow2(bits) ==>
                Compares(Value(), lhs % Pow2(bits), rhs % Pow2(bits), bits)
      ensures SignJumps(Value(), result, bits)
    {
      hide And, Xor, Pow2, Compares, SignJumps;
      var l, r, t := MaskToWidth(lhs, bits), MaskToWidth(rhs, bits), MaskToWidth(result, bits);
      SetZeroSign(t, bits);
      carry := l < r;
      overflow := And(And(Xor(l, r), Xor(l, t)), SignBit(bits)) != 0;
      SubFormulas(lhs, rhs, result, bits, Value());
      SignFormula(result, bits, Value());
    }

    /** Flags of a bitwise operation: the jumps compare its result with zero. */
    method SetLogicResult(result: U64, bits: nat)
      requires Width(bits)
      modifies this
      ensures Compares(Value(), result % Pow2(bits), 0, bits) && !carry && !overflow
      ensures SignJumps(Value(), result, bits)
    {
      hide And, Xor, Pow2;
      var t := MaskToWidth(result, bits);
      SetZeroSign(t, bits);
      carry := false;
      overflow := false;
      MaskRemainder(result, bits);
      Halves(bits);
      TestBit(t, bits - 1);
      TopBit(t, bits - 1);
    }
  }

  lemma Halves(bits: nat)
    requires bits > 0
    ensures Pow2(bits) == 2 * Pow2(bits - 1)
  {}

  /** The jumps on the sign follow the result, read as a signed number; the plain jump is always taken. */
  ghost predicate SignJumps(f: FlagState, result: nat, bits: nat)
    requires bits > 0
  {
    var signed := Signed(result % Pow2(bits), bits);
    BranchTaken(Js, f) == (signed < 0) && BranchTaken(Jns, f) == (signed >= 0) && BranchTaken(Jmp, f)
  }

  lemma SignFormula(result: nat, bits: nat, f: FlagState)
    requires Width(bits) && f.sign == (And(MaskToWidth(result, bits), SignBit(bits)) != 0)
    ensures SignJumps(f, result, bits)
  {
    hide And, Pow2;
    MaskRemainder(result, bits);
    Halves(bits);
    TestBit(result % Pow2(bits), bits - 1);
    TopBit(result % Pow2(bits), bits - 1);
  }

  /** The formulas the addition setter evaluates. */
  lemma AddFormulas(lhs: nat, rhs: nat, result: nat, bits: nat, f: FlagState)
    requires Width(bits)
    requires var l, r, t := MaskToWidth(lhs, bits), MaskToWidth(rhs, bits), MaskToWidth(result, bits);
             && f.zero == (t == 0) && f.sign == (And(t, SignBit(bits)) != 0) && f.carry == (l + r > MaskForWidth(bits))
             && f.overflow == (And(And(Xor(l, t), Xor(r, t)), SignBit(bits)) != 0)
    ensures result % Pow2(bits) == (lhs % Pow2(bits) + rhs % Pow2(bits)) % Pow2(bits) ==> AddFlags(f, lhs, rhs, bits)
  {
    hide And, Xor, Pow2;
    MaskRemainder(lhs, bits);
    MaskRemainder(rhs, bits);
    MaskRemainder(result, bits);
    Halves(bits);
    var l, r, t := lhs % Pow2(bits), rhs % Pow2(bits), result % Pow2(bits);
    SignTests(l, t, r, t, bits);
    if t == (l + r) % Pow2(bits) {
      AddHalves(l, r, t, Pow2(bits - 1), f);
    }
  }

  lemma SubFormulas(lhs: nat, rhs: nat, result: nat, bits: nat, f: FlagState)
    requires Width(bits)
    requires var l, r, t := MaskToWidth(lhs, bits), MaskToWidth(rhs, bits), MaskToWidth(result, bits);
             && f.zero == (t == 0) && f.sign == (And(t, SignBit(bits)) != 0) && f.carry == (l < r)
             && f.overflow == (And(And(Xor(l, r), Xor(l, t)), SignBit(bits)) != 0)
    ensures result % Pow2(bits) == (lhs % Pow2(bits) - rhs % Pow2(bits)) % Pow2(bits) ==>
              Compares(f, lhs % Pow2(bits), rhs % Pow2(bits), bits)
  {
    hide And, Xor, Pow2, Compares;
    MaskRemainder(lhs, bits);
    MaskRemainder(rhs, bits);
    MaskRemainder(result, bits);
    Halves(bits);
    var l, r, t := lhs % Pow2(bits), rhs % Pow2(bits), result % Pow2(bits);
    SignTests(l, r, l, t, bits);
    if t == (l - r) % Pow2(bits) {
      SubHalves(l, r, t, Pow2(bits - 1), bits, f);
    }
  }

  /** The value read as a signed number of that width. */
  function Signed(v: nat, bits: nat): (r: int)
    requires bits > 0 && v < Pow2(bits)
    ensures 0 <= r + Pow2(bits - 1) && r < Pow2(bits - 1)
  {
    if v < Pow2(bits - 1) then v else v - Pow2(bits)
  }

  ghost predicate AddFlags(f: FlagState, lhs: nat, rhs: nat, bits: nat)
    requires bits > 0
  {
    var w := Pow2(bits);
    var l, r := lhs % w, rhs % w;
    var sum := Signed(l, bits) + Signed(r, bits);
    && f.zero == ((l + r) % w == 0)
    && f.carry == (l + r >= w)
    && f.overflow == (sum + Pow2(bits - 1) < 0 || sum >= Pow2(bits - 1))
    && (!f.overflow ==> f.sign == (sum < 0))
  }

  // Branches

  datatype Condition = Jmp | Je | Jne | Js | Jns | Jl | Jge | Jg | Jle | Jb | Jae | Ja | Jbe

  function BranchTaken(condition: Condition, f: FlagState): bool {
    match condition
    case Jmp => true
    case Je => f.zero
    case Jne => !f.zero
    case Js => f.sign
    case Jns => !f.sign
    case Jl => f.sign != f.overflow
    case Jge => f.sign == f.overflow
    case Jg => !f.zero && f.sign == f.overflow
    case Jle => f.zero || f.sign != f.overflow
    case Jb => f.carry
    case Jae => !f.carry
    case Ja => !f.carry && !f.zero
    case Jbe => f.carry || f.zero
  }

  /** Every conditional jump follows the comparison of the two operands, signed or unsigned. */
  ghost predicate Compares(f: FlagState, l: nat, r: nat, bits: nat)
    requires bits > 0 && l < Pow2(bits) && r < Pow2(bits)
  {
    && BranchTaken(Je, f) == (l == r) && BranchTaken(Jne, f) == (l != r)
    && BranchTaken(Jb, f) == (l < r) && BranchTaken(Jae, f) == (l >= r)
    && BranchTaken(Ja, f) == (l > r) && BranchTaken(Jbe, f) == (l <= r)
    && BranchTaken(Jl, f) == (Signed(l, bits) < Signed(r, bits))
       && BranchTaken(Jge, f) == (Signed(l, bits) >= Signed(r, bits))
    && BranchTaken(Jg, f) == (Signed(l, bits) > Signed(r, bits))
       && BranchTaken(Jle, f) == (Signed(l, bits) <= Signed(r, bits))
  }

  /** The overflow formula tests whether the operands' top bits differ as it says, and the sign test the upper half. */
  lemma SignTests(a: nat, b: nat, c: nat, d: nat, bits: nat)
    requires bits > 0 && a < Pow2(bits) && b < Pow2(bits) && c < Pow2(bits) && d < Pow2(bits)
    ensures And(And(Xor(a, b), Xor(c, d)), SignBit(bits)) != 0 <==>
            ((a >= Pow2(bits - 1)) != (b >= Pow2(bits - 1))) && ((c >= Pow2(bits - 1)) != (d >= Pow2(bits - 1)))
    ensures And(d, SignBit(bits)) != 0 <==> d >= Pow2(bits - 1)
  {
    hide And, Xor;
    var k := bits - 1;
    TestBit(And(Xor(a, b), Xor(c, d)), k);
    AndBit(Xor(a, b), Xor(c, d), k);
    XorBit(a, b, k);
    XorBit(c, d, k);
    TestBit(d, k);
    TopBit(a, k);
    TopBit(b, k);
    TopBit(c, k);
    TopBit(d, k);
  }

  lemma WrappedSum(l: nat, r: nat, w: nat)
    requires l < w && r < w
    ensures (l + r) % w == (if l + r < w then l + r else l + r - w)
    ensures (l - r) % w == (if l >= r then l - r else l - r + w)
  {
    RemainderIs(l + r, w, if l + r < w then 0 else 1, if l + r < w then l + r else l + r - w);
    RemainderIs(l - r, w, if l >= r then 0 else -1, if l >= r then l - r else l - r + w);
  }

  lemma AddHalves(l: nat, r: nat, t: nat, half: nat, f: FlagState)
    requires l < 2 * half && r < 2 * half && t == (l + r) % (2 * half)
    requires f.zero == (t == 0) && f.sign == (t >= half) && f.carry == (l + r > 2 * half - 1)
    requires f.overflow == (((l >= half) != (t >= half)) && ((r >= half) != (t >= half)))
    ensures var sl, sr := if l < half then l else l - 2 * half, if r < half then r else r - 2 * half;
            && (f.overflow <==> sl + sr + half < 0 || sl + sr >= half)
            && (!f.overflow ==> f.sign == (sl + sr < 0))
  {
    WrappedSum(l, r, 2 * half);
  }

  lemma SubHalves(l: nat, r: nat, t: nat, half: nat, bits: nat, f: FlagState)
    requires bits > 0 && half == Pow2(bits - 1) && l < 2 * half && r < 2 * half && t == (l - r) % (2 * half)
    requires f.zero == (t == 0) && f.sign == (t >= half) && f.carry == (l < r)
    requires f.overflow == (((l >= half) != (r >= half)) && ((l >= half) != (t >= half)))
    ensures Compares(f, l, r, bits) && (t == 0 <==> l == r)
  {
    WrappedSum(l, r, 2 * half);
  }

  // Sign extension

  function ShiftLeft(v: U64, n: nat): (r: U64) {
    v * Pow2(n) % U64_LIMIT
  }

  /** Arithmetic shift of the 64-bit two's complement value: division rounding down. */
  function ShiftRightSigned(v: U64, n: nat): (r: U64) {
    var signed := if v < U64_LIMIT / 2 then v else v - U64_LIMIT;
    signed / Pow2(n) % U64_LIMIT
  }

  function SignExtend(value: U64, bits: nat): U64
    requires bits <= 64
  {
    ShiftRightSigned(ShiftLeft(value, 64 - bits), 64 - bits)
  }

  lemma {:induction false} Pow2Adds(a: nat, b: nat)
    ensures Pow2(a) * Pow2(b) == Pow2(a + b)
  {
    if a > 0 {
      Pow2Adds(a - 1, b);
      assert Pow2(a) * Pow2(b) == 2 * (Pow2(a - 1) * Pow2(b));
    }
  }

  lemma Pow2Is64()
    ensures Pow2(64) == U64_LIMIT && Pow2(63) == U64_LIMIT / 2
  {
    assert Pow2(8) == 0x100;
    Pow2Adds(8, 8);
    Pow2Adds(16, 16);
    Pow2Adds(32, 32);
    Halves(64);
  }

  /** Sign extension keeps the signed value of the low bits. */
  lemma SignExtendKeepsValue(value: U64, bits: nat)
    requires 0 < bits <= 64
    ensures SignExtend(value, bits) < Pow2(64)
    ensures Signed(SignExtend(value, bits), 64) == Signed(value % Pow2(bits), bits)
  {
    hide Pow2;
    Pow2Is64();
    Halves(bits);
    var s := Pow2(64 - bits);
    Pow2Adds(bits, 64 - bits);
    Pow2Adds(bits - 1, 64 - bits);
    var low := value % Pow2(bits);
    ShiftedLow(value, Pow2(bits), s);
    var signed := Signed(low, bits);
    ShiftedBack(low, Pow2(bits - 1), s, signed);
    assert U64_LIMIT / 2 == Pow2(bits - 1) * s;
    assert Pow2(bits - 1) * 1 <= Pow2(bits - 1) * s;
    RemainderIs(signed, U64_LIMIT, if signed >= 0 then 0 else -1, if signed >= 0 then signed else signed + U64_LIMIT);
  }

  lemma ShiftedLow(v: nat, w: nat, s: nat)
    requires w > 0 && s > 0
    ensures w * s > 0 && v * s % (w * s) == v % w * s
  {
    var q, low := v / w, v % w;
    assert v == q * w + low;
    assert v * s == q * (w * s) + low * s;
    assert w * s > 0;
    assert (w - low) * s > 0;
    assert low * s < w * s;
    RemainderIs(v * s, w * s, q, low * s);
  }

  lemma ShiftedBack(low: nat, half: nat, s: nat, signed: int)
    requires s > 0 && low < 2 * half && signed == if low < half then low else low - 2 * half
    ensures low < half <==> low * s < half * s
    ensures (if low * s < half * s then low * s else low * s - 2 * (half * s)) / s == signed
  {
    if low < half {
      assert (half - low) * s > 0;
    } else {
      assert (low - half) * s >= 0;
    }
    assert (low - 2 * half) * s == low * s - 2 * (half * s);
    RemainderIs(signed * s, s, signed, 0);
  }
}
