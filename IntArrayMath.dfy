/**
 * Natural numbers stored little-endian in arrays of 31-bit limbs
 * (`IntArrayMath`): limb i weighs 2^(31·i), and any number of trailing zero
 * limbs is allowed, so an array's capacity may exceed its cardinality.
 * Every operation writes a caller-supplied output array in place.
 */
module IntArrayMath {

  /** Each limb holds one of 2^31 symbols. */
  const Radix: int := 0x8000_0000

  /** Bound of a signed 64-bit Long, the type of the intermediate sums. */
  const LongBound: int := 0x8000_0000_0000_0000

  function Max(x: int, y: int): int { if x < y then y else x }

  /** Radix^k, the weight of limb k. */
  function Pow(k: nat): (r: int)
    ensures r >= 1
  {
    if k == 0 then 1 else Radix * Pow(k - 1)
  }

  /** Every limb lies in [0, 2^31), as the representation assumes. */
  predicate Limbs(s: seq<int>) {
    forall i :: 0 <= i < |s| ==> 0 <= s[i] < Radix
  }

  /** The limbs below index n lie in [0, 2^31). */
  predicate LimbsBelow(s: seq<int>, n: nat) {
    forall i :: 0 <= i < n && i < |s| ==> 0 <= s[i] < Radix
  }

  /** The limb at index i, or 0 past the end (`getOr(i, 0)`). */
  function Digit(s: seq<int>, i: nat): int {
    if i < |s| then s[i] else 0
  }

  /** The number formed by the limbs below index n. */
  function ValueUpTo(s: seq<int>, n: nat): int {
    if n == 0 then 0 else ValueUpTo(s, n - 1) + Digit(s, n - 1) * Pow(n - 1)
  }

  /** The abstraction function: Σ s[i]·2^(31·i). */
  function Value(s: seq<int>): int {
    ValueUpTo(s, |s|)
  }

  /** A choice of sign for multi-valued comparisons. */
  function Sign(x: int): int {
    if x < 0 then -1 else if x == 0 then 0 else 1
  }

  // ---------------------------------------------------------------------
  // Facts about the abstraction function
  // ---------------------------------------------------------------------

  lemma {:induction false} PowAdd(i: nat, j: nat)
    ensures Pow(i + j) == Pow(i) * Pow(j)
  {
    if i > 0 {
      PowAdd(i - 1, j);
      assert Pow(i + j) == Radix * Pow(i - 1 + j);
      assert Radix * (Pow(i - 1) * Pow(j)) == (Radix * Pow(i - 1)) * Pow(j);
    }
  }

  lemma {:induction false} PowMonotone(i: nat, j: nat)
    requires i <= j
    ensures Pow(i) <= Pow(j)
  {
    if i < j {
      PowMonotone(i, j - 1);
    }
  }

  /** Limbs below n determine the value below n. */
  lemma {:induction false} ValueUpToFrame(s: seq<int>, t: seq<int>, n: nat)
    requires forall j :: 0 <= j < n ==> Digit(s, j) == Digit(t, j)
    ensures ValueUpTo(s, n) == ValueUpTo(t, n)
  {
    if n > 0 {
      ValueUpToFrame(s, t, n - 1);
    }
  }

  /** Zero limbs contribute nothing. */
  lemma {:induction false} ValueUpToZeros(s: seq<int>, k: nat, n: nat)
    requires k <= n
    requires forall j :: k <= j < n ==> Digit(s, j) == 0
    ensures ValueUpTo(s, n) == ValueUpTo(s, k)
  {
    if n > k {
      ValueUpToZeros(s, k, n - 1);
    }
  }

  /** Reading past the end adds only zero limbs. */
  lemma ValueUpToBeyond(s: seq<int>, n: nat)
    requires n >= |s|
    ensures ValueUpTo(s, n) == Value(s)
  {
    ValueUpToZeros(s, |s|, n);
  }

  /** A limb sequence below n denotes a number in [0, Radix^n). */
  lemma {:induction false} ValueUpToBound(s: seq<int>, n: nat)
    requires LimbsBelow(s, n)
    ensures 0 <= ValueUpTo(s, n) < Pow(n)
  {
    if n > 0 {
      ValueUpToBound(s, n - 1);
      MulLe(Digit(s, n - 1), Pow(n - 1), Radix - 1, Pow(n - 1));
      MulLe(0, 0, Digit(s, n - 1), Pow(n - 1));
    }
  }

  lemma ValueBound(s: seq<int>)
    requires Limbs(s)
    ensures 0 <= Value(s) < Pow(|s|)
  {
    ValueUpToBound(s, |s|);
  }

  /** Overwriting limb k by v changes the value by (v - s[k])·Radix^k. */
  lemma {:induction false} ValueUpToUpdate(s: seq<int>, k: nat, v: int, n: nat)
    requires k < |s|
    ensures ValueUpTo(s[k := v], n) ==
            ValueUpTo(s, n) + (if k < n then (v - s[k]) * Pow(k) else 0)
  {
    if n > 0 {
      ValueUpToUpdate(s, k, v, n - 1);
      if k == n - 1 {
        assert v * Pow(k) - s[k] * Pow(k) == (v - s[k]) * Pow(k);
      }
    }
  }

  lemma ValueUpdate(s: seq<int>, k: nat, v: int)
    requires k < |s|
    ensures Value(s[k := v]) == Value(s) + (v - s[k]) * Pow(k)
  {
    ValueUpToUpdate(s, k, v, |s|);
  }

  /**
   * The highest differing limb decides the order: if s and t agree on
   * [k+1, n) and s has the larger limb at k, s denotes the larger number.
   */
  lemma {:induction false} ValueUpToTopLimb(s: seq<int>, t: seq<int>, k: nat, n: nat)
    requires Limbs(s) && Limbs(t)
    requires k < n
    requires Digit(s, k) > Digit(t, k)
    requires forall j :: k < j < n ==> Digit(s, j) == Digit(t, j)
    ensures ValueUpTo(s, n) > ValueUpTo(t, n)
  {
    if n == k + 1 {
      ValueUpToBound(t, k);
      ValueUpToBound(s, k);
      assert Digit(s, k) * Pow(k) >= (Digit(t, k) + 1) * Pow(k);
    } else {
      ValueUpToTopLimb(s, t, k, n - 1);
    }
  }

  /** Two limb sequences denote the same number iff they agree limb by limb below n. */
  lemma {:induction false} ValueUpToInjective(s: seq<int>, t: seq<int>, n: nat)
    requires Limbs(s) && Limbs(t)
    ensures ValueUpTo(s, n) == ValueUpTo(t, n) <==>
            forall j :: 0 <= j < n ==> Digit(s, j) == Digit(t, j)
  {
    if n > 0 {
      if Digit(s, n - 1) == Digit(t, n - 1) {
        ValueUpToInjective(s, t, n - 1);
      } else if Digit(s, n - 1) > Digit(t, n - 1) {
        ValueUpToTopLimb(s, t, n - 1, n);
      } else {
        ValueUpToTopLimb(t, s, n - 1, n);
      }
    }
  }

  /** One carry step: writing `sum % Radix` and carrying `sum / Radix` loses nothing. */
  lemma CarryStep(sum: int, p: int)
    requires sum >= 0
    ensures (sum % Radix) * p + (sum / Radix) * (Radix * p) == sum * p
  {
    assert sum == (sum / Radix) * Radix + sum % Radix;
    assert (sum / Radix) * (Radix * p) == ((sum / Radix) * Radix) * p;
  }

  lemma MulLe(x: int, y: int, xMax: int, yMax: int)
    requires 0 <= x <= xMax && 0 <= y <= yMax
    ensures x * y <= xMax * yMax
  {
    assert x * y <= xMax * y;
  }

  /**
   * One step of the addition loops: limb i of c becomes the sum of the
   * limbs of a and b and the incoming carry, less Radix when a carry goes
   * out.
   */
  lemma AddLimbStep(before: seq<int>, after: seq<int>, a: seq<int>, b: seq<int>, i: nat,
                    carryIn: int, carryOut: int)
    requires i < |before| && |after| == |before| && after == before[i := after[i]]
    requires ValueUpTo(before, i) + carryIn * Pow(i) == ValueUpTo(a, i) + ValueUpTo(b, i)
    requires after[i] + carryOut * Radix == Digit(a, i) + Digit(b, i) + carryIn
    ensures ValueUpTo(after, i + 1) + carryOut * Pow(i + 1) == ValueUpTo(a, i + 1) + ValueUpTo(b, i + 1)
  {
    ValueUpToFrame(before, after, i);
    var p := Pow(i);
    var sum := Digit(a, i) + Digit(b, i) + carryIn;
    assert after[i] * p + carryOut * (Radix * p) == sum * p;
    assert sum * p == Digit(a, i) * p + Digit(b, i) * p + carryIn * p;
  }

  /**
   * One step of the subtraction loop: limb i of c becomes the difference of
   * the limbs of a and b less the incoming borrow, plus Radix when a borrow
   * goes out.
   */
  lemma SubStep(before: seq<int>, after: seq<int>, a: seq<int>, b: seq<int>, i: nat,
                borrowIn: int, borrowOut: int)
    requires i < |before| && |after| == |before| && after == before[i := after[i]]
    requires ValueUpTo(before, i) - borrowIn * Pow(i) == ValueUpTo(a, i) - ValueUpTo(b, i)
    requires after[i] - borrowOut * Radix == Digit(a, i) - Digit(b, i) - borrowIn
    ensures ValueUpTo(after, i + 1) - borrowOut * Pow(i + 1) == ValueUpTo(a, i + 1) - ValueUpTo(b, i + 1)
  {
    ValueUpToFrame(before, after, i);
    var p := Pow(i);
    var sub := Digit(a, i) - Digit(b, i) - borrowIn;
    assert after[i] * p - borrowOut * (Radix * p) == sub * p;
    assert sub * p == Digit(a, i) * p - Digit(b, i) * p - borrowIn * p;
  }

  /**
   * One step of the first `constMulShiftAdd` loop: limb ci of c at weight
   * p = ps·pi becomes `sum % Radix` and `sum / Radix` is carried.
   */
  lemma MulStep(vc: int, ci: int, carry: int, p: int, v0: int, va: int, ai: int,
                b: int, ps: int, pi: int, sum: int)
    requires vc + carry * p == v0 + va * b * ps
    requires sum == ci + ai * b + carry && sum >= 0 && p == ps * pi
    ensures (vc + (sum % Radix - ci) * p) + (sum / Radix) * (Radix * p) == v0 + (va + ai * pi) * b * ps
  {
    CarryStep(sum, p);
    assert sum * p == ci * p + (ai * b) * p + carry * p;
    assert (ai * b) * p == ai * pi * b * ps;
    assert (va + ai * pi) * b * ps == va * b * ps + ai * pi * b * ps;
  }

  /** One step of the carry-propagation loop of `constMulShiftAdd`. */
  lemma PropagateStep(vc: int, ci: int, carry: int, p: int, total: int, sum: int)
    requires vc + carry * p == total && sum == ci + carry && sum >= 0
    ensures (vc + (sum % Radix - ci) * p) + (sum / Radix) * (Radix * p) == total
  {
    CarryStep(sum, p);
    assert sum * p == ci * p + carry * p;
  }

  // ---------------------------------------------------------------------
  // addition
  // ---------------------------------------------------------------------

  /**
   * The two carry loops of `addition` for |a| >= |b|: limbs [0, |a|) of c
   * receive a + b, and the final carry is returned. Fails when c is
   * shorter than a (the index error the source turns into an
   * ArithmeticException).
   */
  method AddLimbs(a: array<int>, b: array<int>, c: array<int>) returns (ok: bool, carry: int)
    requires c != a && c != b
    requires Limbs(a[..]) && Limbs(b[..]) && a.Length >= b.Length
    modifies c
    ensures ok <==> c.Length >= a.Length
    ensures ok ==> 0 <= carry <= 1
    ensures ok ==> forall j :: 0 <= j < a.Length ==> 0 <= c[j] < Radix
    ensures ok ==> ValueUpTo(c[..], a.Length) + carry * Pow(a.Length) == Value(a[..]) + Value(b[..])
  {
    carry := 0;
    var i := 0;
    while i < b.Length
      invariant 0 <= i <= b.Length && i <= c.Length
      invariant 0 <= carry <= 1
      invariant forall j :: 0 <= j < i ==> 0 <= c[j] < Radix
      invariant ValueUpTo(c[..], i) + carry * Pow(i) == ValueUpTo(a[..], i) + ValueUpTo(b[..], i)
    {
      if i >= c.Length {
        return false, 0;
      }
      carry := AddRound(a, b, c, i, carry);
      i := i + 1;
    }
    while i < a.Length
      invariant b.Length <= i <= a.Length && i <= c.Length
      invariant 0 <= carry <= 1
      invariant forall j :: 0 <= j < i ==> 0 <= c[j] < Radix
      invariant ValueUpTo(c[..], i) + carry * Pow(i) == ValueUpTo(a[..], i) + ValueUpTo(b[..], i)
    {
      if i >= c.Length {
        return false, 0;
      }
      carry := AddRound(a, b, c, i, carry);
      i := i + 1;
    }
    ValueUpToBeyond(b[..], i);
    ok := true;
  }

  /**
   * Limb i of both addition loops: c[i] receives the low 31 bits of
   * a[i] + b[i] + carry (b's limb is absent past its end, as in the second
   * loop), and the high bits are the next carry.
   */
  method AddRound(a: array<int>, b: array<int>, c: array<int>, i: nat, carry: int) returns (next: int)
    requires c != a && c != b
    requires Limbs(a[..]) && Limbs(b[..]) && i < a.Length && i < c.Length && 0 <= carry <= 1
    requires forall j :: 0 <= j < i ==> 0 <= c[j] < Radix
    requires ValueUpTo(c[..], i) + carry * Pow(i) == ValueUpTo(a[..], i) + ValueUpTo(b[..], i)
    modifies c
    ensures 0 <= next <= 1
    ensures forall j :: 0 <= j < i + 1 ==> 0 <= c[j] < Radix
    ensures ValueUpTo(c[..], i + 1) + next * Pow(i + 1) == ValueUpTo(a[..], i + 1) + ValueUpTo(b[..], i + 1)
    ensures c[..] == old(c[..])[i := c[i]]
  {
    var sum := a[i] + (if i < b.Length then b[i] else 0) + carry;
    ghost var before := c[..];
    c[i] := sum % Radix;
    next := sum / Radix;
    AddLimbStep(before, c[..], a[..], b[..], i, carry, next);
  }

  /**
   * c = a + b (`addition`). Fails exactly when c is shorter than the longer
   * argument. A sum that fits into c is written exactly; one that does not
   * (possible only when c is exactly as long as the longer argument) loses
   * its final carry, so c holds the sum minus Radix^|c|. The result depends neither on the argument order nor on
   * what c held before.
   */
  method Addition(a: array<int>, b: array<int>, c: array<int>) returns (ok: bool)
    requires c != a && c != b
    requires Limbs(a[..]) && Limbs(b[..])
    modifies c
    ensures ok <==> c.Length >= Max(a.Length, b.Length)
    ensures ok ==> Limbs(c[..])
    ensures ok && Value(a[..]) + Value(b[..]) < Pow(c.Length) ==> Value(c[..]) == Value(a[..]) + Value(b[..])
    ensures ok && Value(a[..]) + Value(b[..]) >= Pow(c.Length) ==>
              c.Length == Max(a.Length, b.Length) && Value(c[..]) == Value(a[..]) + Value(b[..]) - Pow(c.Length)
    decreases if a.Length < b.Length then 1 else 0
  {
    if a.Length < b.Length {
      ok := Addition(b, a, c);
      return;
    }
    var carry;
    ok, carry := AddLimbs(a, b, c);
    if !ok {
      return;
    }
    var i := a.Length;
    while i < c.Length
      invariant a.Length <= i <= c.Length
      invariant 0 <= carry <= 1 && (i > a.Length ==> carry == 0)
      invariant forall j :: 0 <= j < i ==> 0 <= c[j] < Radix
      invariant ValueUpTo(c[..], i) + carry * Pow(i) == Value(a[..]) + Value(b[..])
    {
      ghost var before := c[..];
      c[i] := carry;
      carry := 0;
      ValueUpToFrame(before, c[..], i);
      i := i + 1;
    }
    ValueBound(c[..]);
  }

  /**
   * The addition the documentation describes: c = a + b, failing whenever
   * the sum does not fit into c, instead of dropping the final carry.
   */
  method CheckedAddition(a: array<int>, b: array<int>, c: array<int>) returns (ok: bool)
    requires c != a && c != b
    requires Limbs(a[..]) && Limbs(b[..])
    modifies c
    ensures ok <==> c.Length >= Max(a.Length, b.Length) && Value(a[..]) + Value(b[..]) < Pow(c.Length)
    ensures ok ==> Limbs(c[..]) && Value(c[..]) == Value(a[..]) + Value(b[..])
    decreases if a.Length < b.Length then 1 else 0
  {
    if a.Length < b.Length {
      ok := CheckedAddition(b, a, c);
      return;
    }
    var carry;
    ok, carry := AddLimbs(a, b, c);
    if !ok {
      return;
    }
    if c.Length == a.Length && carry != 0 {
      ValueUpToBound(c[..], a.Length);
      return false;
    }
    ghost var longer := c.Length > a.Length;
    var i := a.Length;
    while i < c.Length
      invariant a.Length <= i <= c.Length
      invariant 0 <= carry <= 1 && (i > a.Length ==> carry == 0)
      invariant forall j :: 0 <= j < i ==> 0 <= c[j] < Radix
      invariant ValueUpTo(c[..], i) + carry * Pow(i) == Value(a[..]) + Value(b[..])
      invariant !longer ==> carry == 0
    {
      ghost var before := c[..];
      c[i] := carry;
      carry := 0;
      ValueUpToFrame(before, c[..], i);
      i := i + 1;
    }
    assert carry == 0;
    assert Value(c[..]) == Value(a[..]) + Value(b[..]);
    ValueBound(c[..]);
  }

  /**
   * With an output exactly as long as the longer argument, `addition`
   * succeeds on [2^31 - 1] + [1] yet writes 0: the carry into the missing
   * limb is lost instead of being reported.
   */
  lemma AdditionDropsCarry()
    ensures Limbs([Radix - 1]) && Limbs([1])
    ensures Value([Radix - 1]) + Value([1]) == Pow(1)
    ensures Value([Radix - 1]) + Value([1]) - Pow(1) == 0
  {
    assert Value([Radix - 1]) == ValueUpTo([Radix - 1], 0) + Digit([Radix - 1], 0) * Pow(0) == Radix - 1;
    assert Value([1]) == ValueUpTo([1], 0) + Digit([1], 0) * Pow(0) == 1;
    assert Pow(1) == Radix * Pow(0) == Radix;
  }

  // ---------------------------------------------------------------------
  // subtraction
  // ---------------------------------------------------------------------

  /** Zeroes the limbs of c from index `from` on, keeping those below. */
  method ClearFrom(c: array<int>, from: nat)
    modifies c
    ensures forall j :: 0 <= j < from && j < c.Length ==> c[j] == old(c[j])
    ensures forall j :: from <= j < c.Length ==> c[j] == 0
  {
    var i := from;
    while i < c.Length
      invariant forall j :: 0 <= j < from && j < c.Length ==> c[j] == old(c[j])
      invariant forall j :: from <= j < i && j < c.Length ==> c[j] == 0
    {
      c[i] := 0;
      i := i + 1;
    }
  }

  datatype SubtractionOutcome =
    | Difference       // c holds a - b
    | OutputTooSmall   // ArithmeticException: c is shorter than an argument
    | Underflow        // IllegalStateException: a < b

  function Bit(b: bool): int { if b then 1 else 0 }

  /**
   * The borrow loop of `subtraction`: limbs [0, max(|a|, |b|)) of c receive
   * a - b modulo Radix^max(|a|, |b|), and the final borrow is returned.
   * Fails when c is shorter than an argument.
   */
  method SubtractLimbs(a: array<int>, b: array<int>, c: array<int>) returns (ok: bool, carry: bool)
    requires c != a && c != b
    requires Limbs(a[..]) && Limbs(b[..])
    modifies c
    ensures ok <==> c.Length >= Max(a.Length, b.Length)
    ensures ok ==> forall j :: 0 <= j < Max(a.Length, b.Length) ==> 0 <= c[j] < Radix
    ensures ok ==> ValueUpTo(c[..], Max(a.Length, b.Length)) - (if carry then Pow(Max(a.Length, b.Length)) else 0)
                   == Value(a[..]) - Value(b[..])
  {
    var n := Max(a.Length, b.Length);
    var i := 0;
    carry := false;
    while i < a.Length || i < b.Length
      invariant 0 <= i <= n && i <= c.Length
      invariant forall j :: 0 <= j < i ==> 0 <= c[j] < Radix
      invariant ValueUpTo(c[..], i) - (if carry then Pow(i) else 0) == ValueUpTo(a[..], i) - ValueUpTo(b[..], i)
      decreases n - i
    {
      if i >= c.Length {
        return false, false;
      }
      var base := Digit(a[..], i);
      var remove := Digit(b[..], i) + Bit(carry);
      var sub := base - remove;
      ghost var before := c[..];
      ghost var borrow := Bit(carry);
      c[i] := (sub + Radix) % Radix;
      carry := sub < 0;
      SubStep(before, c[..], a[..], b[..], i, borrow, Bit(carry));
      i := i + 1;
    }
    ValueUpToBeyond(a[..], n);
    ValueUpToBeyond(b[..], n);
    ok := true;
  }

  /**
   * c = a - b (`subtraction`). Fails with OutputTooSmall exactly when c is
   * shorter than an argument, and otherwise with Underflow exactly when
   * a < b; on success c holds a - b and its limbs above both arguments are
   * zero.
   */
  method Subtraction(a: array<int>, b: array<int>, c: array<int>) returns (outcome: SubtractionOutcome)
    requires c != a && c != b
    requires Limbs(a[..]) && Limbs(b[..])
    modifies c
    ensures outcome == OutputTooSmall <==> c.Length < Max(a.Length, b.Length)
    ensures outcome == Underflow <==> c.Length >= Max(a.Length, b.Length) && Value(a[..]) < Value(b[..])
    ensures outcome == Difference ==> Limbs(c[..]) && Value(c[..]) == Value(a[..]) - Value(b[..])
    ensures outcome == Difference ==> forall j :: Max(a.Length, b.Length) <= j < c.Length ==> c[j] == 0
  {
    var n := Max(a.Length, b.Length);
    var ok, carry := SubtractLimbs(a, b, c);
    if !ok {
      return OutputTooSmall;
    }
    ValueUpToBound(c[..], n);
    if carry {
      return Underflow;
    }
    ghost var written := c[..];
    ClearFrom(c, n);
    ValueUpToFrame(written, c[..], n);
    ValueUpToZeros(c[..], n, c.Length);
    outcome := Difference;
  }


  // ---------------------------------------------------------------------
  // multiplication
  // ---------------------------------------------------------------------

  /**
   * The Long intermediate `c[k] + a[i]·b + carry` of `constMulShiftAdd`
   * never overflows, and its carry is again below Radix.
   */
  lemma LongSumBound(x: int, y: int, z: int, carry: int)
    requires 0 <= x < Radix && 0 <= y < Radix && 0 <= z < Radix && 0 <= carry < Radix
    ensures 0 <= x + y * z + carry < LongBound
    ensures (x + y * z + carry) / Radix < Radix
  {
    MulLe(y, z, 0x7FFF_FFFF, 0x7FFF_FFFF);
    MulLe(0, 0, y, z);
    var sum := x + y * z + carry;
    assert 0 <= sum <= 0x3FFF_FFFF_FFFF_FFFF;
    assert sum / 0x8000_0000 <= 0x7FFF_FFFF;
  }

  /**
   * One step of the first `constMulShiftAdd` loop: limb k = shift + i of c
   * becomes `sum % Radix`, with sum = c[k] + a[i]·b + carry, and
   * `sum / Radix` is carried to limb k + 1.
   */
  lemma MulAddStep(before: seq<int>, after: seq<int>, a: seq<int>, i: nat, shift: nat,
                   b: int, carry: int, v0: int)
    requires i < |a| && shift + i < |before| && |after| == |before|
    requires before[shift + i] + a[i] * b + carry >= 0
    requires after == before[shift + i := (before[shift + i] + a[i] * b + carry) % Radix]
    requires Value(before) + carry * Pow(shift + i) == v0 + ValueUpTo(a, i) * b * Pow(shift)
    ensures Value(after) + ((before[shift + i] + a[i] * b + carry) / Radix) * Pow(shift + i + 1)
            == v0 + ValueUpTo(a, i + 1) * b * Pow(shift)
  {
    var k := shift + i;
    var sum := before[k] + a[i] * b + carry;
    ValueUpdate(before, k, sum % Radix);
    PowAdd(shift, i);
    MulStep(Value(before), before[k], carry, Pow(k), v0, ValueUpTo(a, i), a[i], b, Pow(shift), Pow(i), sum);
  }

  /** One step of the carry-propagation loop: limb k of c absorbs the carry. */
  lemma CarryIntoStep(before: seq<int>, after: seq<int>, k: nat, carry: int, total: int)
    requires k < |before| && |after| == |before| && before[k] + carry >= 0
    requires after == before[k := (before[k] + carry) % Radix]
    requires Value(before) + carry * Pow(k) == total
    ensures Value(after) + ((before[k] + carry) / Radix) * Pow(k + 1) == total
  {
    var sum := before[k] + carry;
    ValueUpdate(before, k, sum % Radix);
    PropagateStep(Value(before), before[k], carry, Pow(k), total, sum);
  }

  /**
   * The first loop of `constMulShiftAdd`: adds a·b·Radix^shift into limbs
   * [shift, shift + |a|) of c and returns the carry into limb shift + |a|.
   * Fails when a shifted does not fit into c.
   */
  method MulAddLimbs(a: array<int>, b: int, shift: nat, c: array<int>) returns (ok: bool, carry: int)
    requires c != a
    requires Limbs(a[..]) && 0 <= b < Radix && Limbs(c[..])
    modifies c
    ensures ok <==> a.Length == 0 || shift + a.Length <= c.Length
    ensures ok ==> Limbs(c[..]) && 0 <= carry < Radix && (a.Length == 0 ==> carry == 0)
    ensures ok ==> Value(c[..]) + carry * Pow(shift + a.Length) == old(Value(c[..])) + Value(a[..]) * b * Pow(shift)
    ensures forall j :: 0 <= j < shift && j < c.Length ==> c[j] == old(c[j])
  {
    ghost var c0 := c[..];
    var i := 0;
    carry := 0;
    while i < a.Length
      invariant 0 <= i <= a.Length && (i > 0 ==> shift + i <= c.Length)
      invariant 0 <= carry < Radix && (i == 0 ==> carry == 0)
      invariant Limbs(c[..])
      invariant forall j :: 0 <= j < shift && j < c.Length ==> c[j] == c0[j]
      invariant Value(c[..]) + carry * Pow(shift + i) == Value(c0) + ValueUpTo(a[..], i) * b * Pow(shift)
    {
      if i + shift >= c.Length {
        return false, 0;
      }
      LongSumBound(c[i + shift], a[i], b, carry);
      var sum := c[i + shift] + a[i] * b + carry;
      ghost var before, carryIn := c[..], carry;
      c[i + shift] := sum % Radix;
      carry := sum / Radix;
      MulAddStep(before, c[..], a[..], i, shift, b, carryIn, Value(c0));
      i := i + 1;
    }
    ok := true;
  }

  /**
   * The second loop of `constMulShiftAdd`: adds carry·Radix^k into c in
   * place, rippling it upward while it is non-zero. Fails when the carry
   * runs off the end of c.
   */
  method PropagateCarry(c: array<int>, k: nat, carry: int) returns (ok: bool)
    requires Limbs(c[..]) && 0 <= carry < Radix && (carry > 0 ==> k <= c.Length)
    modifies c
    ensures ok <==> old(Value(c[..])) + carry * Pow(k) < Pow(c.Length)
    ensures ok ==> Limbs(c[..]) && Value(c[..]) == old(Value(c[..])) + carry * Pow(k)
    ensures forall j :: 0 <= j < k && j < c.Length ==> c[j] == old(c[j])
  {
    ghost var total := Value(c[..]) + carry * Pow(k);
    var i := k;
    var carry' := carry;
    while carry' > 0
      invariant k <= i && (carry' > 0 ==> i <= c.Length)
      invariant 0 <= carry' < Radix
      invariant Limbs(c[..])
      invariant forall j :: 0 <= j < k && j < c.Length ==> c[j] == old(c[j])
      invariant Value(c[..]) + carry' * Pow(i) == total
      decreases c.Length - i
    {
      if i >= c.Length {
        ValueBound(c[..]);
        assert i == c.Length;
        MulLe(1, Pow(i), carry', Pow(i));
        return false;
      }
      var sum := c[i] + carry';
      ghost var before := c[..];
      c[i] := sum % Radix;
      carry' := sum / Radix;
      CarryIntoStep(before, c[..], i, sum - before[i], total);
      i := i + 1;
    }
    ValueBound(c[..]);
    ok := true;
  }

  /**
   * c += (a·b) << (31·shift) (`constMulShiftAdd`), in place. Fails (the
   * source's index error) exactly when a non-empty a shifted does not fit
   * into c or the sum exceeds c's capacity; on success the limbs below
   * `shift` are untouched, and no intermediate sum leaves the range of a
   * Long.
   */
  method ConstMulShiftAdd(a: array<int>, b: int, shift: nat, c: array<int>) returns (ok: bool)
    requires c != a
    requires Limbs(a[..]) && 0 <= b < Radix && Limbs(c[..])
    modifies c
    ensures ok <==> (a.Length == 0 || shift + a.Length <= c.Length) &&
                    old(Value(c[..])) + Value(a[..]) * b * Pow(shift) < Pow(c.Length)
    ensures ok ==> Limbs(c[..]) && Value(c[..]) == old(Value(c[..])) + Value(a[..]) * b * Pow(shift)
    ensures forall j :: 0 <= j < shift && j < c.Length ==> c[j] == old(c[j])
  {
    var carry;
    ok, carry := MulAddLimbs(a, b, shift, c);
    if !ok {
      return;
    }
    ok := PropagateCarry(c, shift + a.Length, carry);
  }

  /** The product of a and b fits into n limbs the way `multiplication` fills them. */
  predicate ProductFits(a: seq<int>, b: seq<int>, n: nat) {
    Value(a) * Value(b) < Pow(n) &&
    forall i :: 0 <= i < |b| && b[i] != 0 ==> i + |a| <= n
  }

  lemma {:induction false} ValueUpToMonotone(s: seq<int>, i: nat, j: nat)
    requires Limbs(s) && i <= j
    ensures ValueUpTo(s, i) <= ValueUpTo(s, j)
  {
    if i < j {
      ValueUpToMonotone(s, i, j - 1);
      assert Digit(s, j - 1) * Pow(j - 1) >= 0;
    }
  }

  lemma Distribute(x: int, y: int, d: int, p: int)
    ensures x * (y + d * p) == x * y + x * d * p
  {
    assert x * (d * p) == (x * d) * p;
  }

  lemma MulMonotone(x: int, y: int, z: int)
    requires x >= 0 && y <= z
    ensures x * y <= x * z
  {
  }

  /**
   * c = a·b (`multiplication`), schoolbook: c is cleared, then every
   * non-zero limb of the shorter argument adds a shifted multiple of the
   * longer one. Succeeds whenever |c| >= |a| + |b| and then holds the
   * product; in general it succeeds exactly when every shifted partial
   * product fits.
   */
  method Multiplication(a: array<int>, b: array<int>, c: array<int>) returns (ok: bool)
    requires c != a && c != b
    requires Limbs(a[..]) && Limbs(b[..])
    modifies c
    ensures ok <==> if a.Length < b.Length then ProductFits(b[..], a[..], c.Length)
                                          else ProductFits(a[..], b[..], c.Length)
    ensures c.Length >= a.Length + b.Length ==> ok
    ensures ok ==> Limbs(c[..]) && Value(c[..]) == Value(a[..]) * Value(b[..])
    decreases if a.Length < b.Length then 1 else 0
  {
    if a.Length < b.Length {
      ok := Multiplication(b, a, c);
      return;
    }
    if c.Length >= a.Length + b.Length {
      ProductFitsWhenLongEnough(a[..], b[..], c.Length);
    }
    ClearFrom(c, 0);
    ValueUpToZeros(c[..], 0, c.Length);
    var i := 0;
    while i < b.Length
      invariant 0 <= i <= b.Length
      invariant Limbs(c[..])
      invariant Value(c[..]) == Value(a[..]) * ValueUpTo(b[..], i)
      invariant forall j :: 0 <= j < i && b[j] != 0 ==> j + a.Length <= c.Length
    {
      ValueBound(a[..]);
      ValueUpToMonotone(b[..], i + 1, b.Length);
      MulMonotone(Value(a[..]), ValueUpTo(b[..], i + 1), Value(b[..]));
      assert ValueUpTo(b[..], i + 1) == ValueUpTo(b[..], i) + b[i] * Pow(i);
      Distribute(Value(a[..]), ValueUpTo(b[..], i), b[i], Pow(i));
      if b[i] != 0 {
        ok := ConstMulShiftAdd(a, b[i], i, c);
        if !ok {
          if i + a.Length > c.Length {
            assert 0 <= i < b.Length && b[..][i] != 0 && i + |a[..]| > c.Length;
          } else {
            assert Value(a[..]) * Value(b[..]) >= Pow(c.Length);
          }
          return;
        }
      }
      i := i + 1;
    }
    ValueBound(c[..]);
    ok := true;
  }

  lemma ProductBound(x: int, y: int, m: nat, n: nat)
    requires 0 <= x < Pow(m) && 0 <= y < Pow(n)
    ensures x * y < Pow(m + n)
  {
    PowAdd(m, n);
    ProductBelow(x, y, Pow(m), Pow(n));
  }

  /** x < p and y < q bound x * y strictly by p * q, for non-negative factors. */
  lemma ProductBelow(x: int, y: int, p: int, q: int)
    requires 0 <= x < p && 0 <= y < q
    ensures x * y < p * q
  {
    assert x * y <= x * q;
    assert x * q < p * q;
  }

  /** With |a| + |b| limbs there is always room for the product. */
  lemma ProductFitsWhenLongEnough(a: seq<int>, b: seq<int>, n: nat)
    requires Limbs(a) && Limbs(b) && n >= |a| + |b|
    ensures ProductFits(a, b, n)
  {
    ValueBound(a);
    ValueBound(b);
    ProductBound(Value(a), Value(b), |a|, |b|);
    PowMonotone(|a| + |b|, n);
  }

  // ---------------------------------------------------------------------
  // equals, compare, cardinality, toBigInteger
  // ---------------------------------------------------------------------

  /** `getOr(index, 0)`: the limb at index, or 0 past the end. */
  function GetOr(x: array<int>, index: nat): (r: int)
    reads x
    ensures r == Digit(x[..], index)
  {
    if index < x.Length then x[index] else 0
  }

  /** Appending zero limbs never changes the number. */
  lemma ValueIgnoresTrailingZeros(s: seq<int>, zeros: seq<int>)
    requires forall j :: 0 <= j < |zeros| ==> zeros[j] == 0
    ensures Value(s + zeros) == Value(s)
  {
    ValueUpToFrame(s + zeros, s, |s|);
    ValueUpToZeros(s + zeros, |s|, |s + zeros|);
  }

  /**
   * `equals`: compares limb by limb from the top of the longer array, so
   * it holds exactly when both arrays denote the same number, whatever
   * trailing zeros they carry.
   */
  method Equals(a: array<int>, b: array<int>) returns (r: bool)
    requires Limbs(a[..]) && Limbs(b[..])
    ensures r <==> Value(a[..]) == Value(b[..])
    decreases if a.Length < b.Length then 1 else 0
  {
    if a.Length < b.Length {
      r := Equals(b, a);
      return;
    }
    ValueUpToBeyond(b[..], a.Length);
    ValueUpToInjective(a[..], b[..], a.Length);
    var i := a.Length - 1;
    while i >= 0
      invariant -1 <= i < a.Length
      invariant forall j :: i < j < a.Length ==> Digit(a[..], j) == Digit(b[..], j)
    {
      if a[i] != GetOr(b, i) {
        return false;
      }
      i := i - 1;
    }
    r := true;
  }

  /**
   * `compare`: scans from the top limb of the longer array down and
   * returns -1, 0 or 1 with the sign of value(a) - value(b).
   */
  method Compare(a: array<int>, b: array<int>) returns (r: int)
    requires Limbs(a[..]) && Limbs(b[..])
    ensures r == Sign(Value(a[..]) - Value(b[..]))
  {
    var n := Max(a.Length, b.Length);
    ValueUpToBeyond(a[..], n);
    ValueUpToBeyond(b[..], n);
    var i := n - 1;
    while i >= 0
      invariant -1 <= i < n
      invariant forall j :: i < j < n ==> Digit(a[..], j) == Digit(b[..], j)
    {
      var x := GetOr(a, i);
      var y := GetOr(b, i);
      if x > y {
        ValueUpToTopLimb(a[..], b[..], i, n);
        return 1;
      }
      if x < y {
        ValueUpToTopLimb(b[..], a[..], i, n);
        return -1;
      }
      i := i - 1;
    }
    ValueUpToFrame(a[..], b[..], n);
    r := 0;
  }

  /**
   * `cardinality`: the number of limbs left after dropping trailing zeros.
   * The dropped limbs are all zero, the last kept one is not, and the
   * kept prefix denotes the same number.
   */
  method Cardinality(x: array<int>) returns (r: int)
    ensures 0 <= r <= x.Length
    ensures forall j :: r <= j < x.Length ==> x[j] == 0
    ensures r == 0 || x[r - 1] != 0
    ensures Value(x[..r]) == Value(x[..])
  {
    r := x.Length;
    while r - 1 >= 0 && x[r - 1] == 0
      invariant 0 <= r <= x.Length
      invariant forall j :: r <= j < x.Length ==> x[j] == 0
    {
      r := r - 1;
    }
    assert x[..] == x[..r] + x[r..];
    ValueIgnoresTrailingZeros(x[..r], x[r..]);
  }

  /** `toBigInteger`: accumulates limb·radix^i, which is the abstraction function. */
  method ToBigInteger(a: array<int>) returns (result: int)
    ensures result == Value(a[..])
  {
    result := 0;
    var radix := 1;
    var i := 0;
    while i < a.Length
      invariant 0 <= i <= a.Length
      invariant radix == Pow(i)
      invariant result == ValueUpTo(a[..], i)
    {
      result := result + a[i] * radix;
      radix := radix * Radix;
      i := i + 1;
    }
  }
}
