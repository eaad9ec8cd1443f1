/**
 The field of 256 elements that the QR code's error correction computes in, by logarithm tables
 (`os`). The tables list the powers of 2 modulo x^8 + x^4 + x^3 + x^2 + 1.
 */
module GaloisField {
  import opened Outcomes

  /** Multiplication by x. */
  function Xtime(a: bv8): bv8 {
    if a & 0x80 != 0 then (a << 1) ^ 0x1d else a << 1
  }

  /** Multiplication by x to the power n. */
  function Shift(a: bv8, n: nat): bv8 {
    if n == 0 then a else Xtime(Shift(a, n - 1))
  }

  function Power(n: nat): bv8 {
    Shift(1, n)
  }

  lemma {:induction false} ShiftAdds(a: bv8, m: nat, n: nat)
    ensures Shift(Shift(a, m), n) == Shift(a, m + n)
  {
    if n == 0 {
    } else {
      ShiftAdds(a, m, n - 1);
    }
  }

  /** Addition of the field. */
  function Plus(a: bv8, b: bv8): bv8 {
    a ^ b
  }

  /** The conditional reduction as a product with the top bit. */
  function MaskedXtime(a: bv8): bv8 {
    (a << 1) ^ ((a >> 7) * 0x1d)
  }

  lemma XtimeMasked(a: bv8)
    ensures Xtime(a) == MaskedXtime(a)
  {
  }

  lemma MaskedXtimeLinear(a: bv8, b: bv8)
    ensures MaskedXtime(Plus(a, b)) == Plus(MaskedXtime(a), MaskedXtime(b))
  {
  }

  lemma XtimeLinear(a: bv8, b: bv8)
    ensures Xtime(Plus(a, b)) == Plus(Xtime(a), Xtime(b))
  {
    hide Xtime, Plus, MaskedXtime;
    XtimeMasked(a);
    XtimeMasked(b);
    XtimeMasked(Plus(a, b));
    MaskedXtimeLinear(a, b);
  }

  lemma XtimeInjective(a: bv8, b: bv8)
    requires Xtime(a) == Xtime(b)
    ensures a == b
  {
  }

  lemma {:induction false} ShiftLinear(a: bv8, b: bv8, n: nat)
    ensures Shift(Plus(a, b), n) == Plus(Shift(a, n), Shift(b, n))
  {
    hide Xtime, Plus;
    if n == 0 {
    } else {
      ShiftLinear(a, b, n - 1);
      XtimeLinear(Shift(a, n - 1), Shift(b, n - 1));
    }
  }

  lemma {:induction false} ShiftInjective(a: bv8, b: bv8, n: nat)
    requires Shift(a, n) == Shift(b, n)
    ensures a == b
  {
    hide Xtime;
    if n == 0 {
    } else {
      XtimeInjective(Shift(a, n - 1), Shift(b, n - 1));
      ShiftInjective(a, b, n - 1);
    }
  }

  // ---------------------------------------------------------------- 2 generates the field

  /** From v the next n powers are w at last, and none before it is 1. */
  predicate Walk(v: bv8, n: nat, w: bv8)
    decreases n
  {
    if n == 0 then v == w else v != 1 && Walk(Xtime(v), n - 1, w)
  }

  lemma {:induction false} WalkOn(v: bv8, m: nat, w: bv8, n: nat, u: bv8)
    requires Walk(v, m, w) && Walk(w, n, u)
    ensures Walk(v, m + n, u)
    decreases m
  {
    if m == 0 {
    } else {
      WalkOn(Xtime(v), m - 1, w, n, u);
    }
  }

  lemma {:induction false} WalkShifts(v: bv8, n: nat, w: bv8, k: nat)
    requires Walk(v, n, w) && k <= n
    ensures Shift(v, n) == w
    ensures k < n ==> Shift(v, k) != 1
    decreases n
  {
    if n == 0 {
    } else {
      WalkShifts(Xtime(v), n - 1, w, if k == 0 then 0 else k - 1);
      ShiftAdds(v, 1, n - 1);
      if k > 0 {
        ShiftAdds(v, 1, k - 1);
      }
      assert Shift(v, 1) == Xtime(v);
    }
  }

  /** Eight steps of the walk, written out so that they can be checked by their values. */
  predicate EightSteps(v: bv8, w: bv8) {
    var v1 := Xtime(v);
    var v2 := Xtime(v1);
    var v3 := Xtime(v2);
    var v4 := Xtime(v3);
    var v5 := Xtime(v4);
    var v6 := Xtime(v5);
    var v7 := Xtime(v6);
    && v != 1 && v1 != 1 && v2 != 1 && v3 != 1 && v4 != 1 && v5 != 1 && v6 != 1 && v7 != 1
    && Xtime(v7) == w
  }

  lemma WalkEight(n: nat, v: bv8, w: bv8) returns (m: nat)
    requires Walk(0x02, n, v) && EightSteps(v, w)
    ensures m == n + 8 && Walk(0x02, m, w)
  {
    m := n + 8;
    var v4 := Xtime(Xtime(Xtime(Xtime(v))));
    assert Walk(v4, 4, w);
    assert Walk(v, 4, v4);
    WalkOn(v, 4, v4, 4, w);
    WalkOn(0x02, n, v, 8, w);
  }

  lemma FirstQuarter(start: nat) returns (n: nat)
    requires start == 0
    ensures n == 64 && Walk(0x02, n, 0xbe)
  {
    n := start;
    n := WalkEight(n, 0x02, 0x3a);
    n := WalkEight(n, 0x3a, 0x98);
    n := WalkEight(n, 0x98, 0x03);
    n := WalkEight(n, 0x03, 0x27);
    n := WalkEight(n, 0x27, 0xd4);
    n := WalkEight(n, 0xd4, 0x8c);
    n := WalkEight(n, 0x8c, 0xba);
    n := WalkEight(n, 0xba, 0xbe);
  }

  lemma SecondQuarter(start: nat) returns (n: nat)
    requires start == 64 && Walk(0x02, start, 0xbe)
    ensures n == 128 && Walk(0x02, n, 0x17)
  {
    n := start;
    n := WalkEight(n, 0xbe, 0xca);
    n := WalkEight(n, 0xca, 0xe7);
    n := WalkEight(n, 0xe7, 0xe1);
    n := WalkEight(n, 0xe1, 0xaf);
    n := WalkEight(n, 0xaf, 0x1a);
    n := WalkEight(n, 0x1a, 0x1f);
    n := WalkEight(n, 0x1f, 0x76);
    n := WalkEight(n, 0x76, 0x17);
  }

  lemma ThirdQuarter(start: nat) returns (n: nat)
    requires start == 128 && Walk(0x02, start, 0x17)
    ensures n == 192 && Walk(0x02, n, 0x19)
  {
    n := start;
    n := WalkEight(n, 0x17, 0x9e);
    n := WalkEight(n, 0x9e, 0x4d);
    n := WalkEight(n, 0x4d, 0x92);
    n := WalkEight(n, 0x92, 0xd1);
    n := WalkEight(n, 0xd1, 0xe5);
    n := WalkEight(n, 0xe5, 0xdb);
    n := WalkEight(n, 0xdb, 0x37);
    n := WalkEight(n, 0x37, 0x19);
  }

  /** The powers of 2 first come back to 1 at 255. */
  lemma AllPowersWalk()
    ensures Walk(0x02, 254, 0x01)
  {
    var n := FirstQuarter(0);
    n := SecondQuarter(n);
    n := ThirdQuarter(n);
    n := WalkEight(n, 0x19, 0x38);
    n := WalkEight(n, 0x38, 0xa2);
    n := WalkEight(n, 0xa2, 0x9b);
    n := WalkEight(n, 0x9b, 0x24);
    n := WalkEight(n, 0x24, 0xf3);
    n := WalkEight(n, 0xf3, 0x58);
    n := WalkEight(n, 0x58, 0x36);
    assert Walk(0x36, 6, 0x01);
    WalkOn(0x02, n, 0x36, 6, 0x01);
  }

  lemma OrderOfTwo(k: nat)
    requires 0 < k <= 255
    ensures Power(k) == 1 <==> k == 255
  {
    AllPowersWalk();
    WalkShifts(2, 254, 1, k - 1);
    assert Shift(1, 1) == 2;
    ShiftAdds(1, 1, k - 1);
    ShiftAdds(1, 1, 254);
  }

  lemma PowersDiffer(i: nat, j: nat)
    requires i < j < 255
    ensures Power(i) != Power(j)
  {
    if Power(i) == Power(j) {
      ShiftAdds(1, j - i, i);
      ShiftInjective(1, Power(j - i), i);
      OrderOfTwo(j - i);
    }
  }

  lemma {:induction false} PowerNonZero(n: nat)
    ensures Power(n) != 0
  {
    if n == 0 {
    } else {
      PowerNonZero(n - 1);
      if Power(n) == 0 {
        assert Xtime(0) == 0;
        XtimeInjective(Power(n - 1), 0);
      }
    }
  }

  lemma PowerPeriod(n: nat)
    ensures Power(n + 255) == Power(n)
  {
    OrderOfTwo(255);
    ShiftAdds(1, 255, n);
  }

  // ---------------------------------------------------------------- every non-zero byte is a power

  lemma ByteValuesDiffer(a: bv8, b: bv8)
    requires a as int == b as int
    ensures a == b
  {
  }

  function PowerValues(n: nat): set<int> {
    set i | 0 <= i < n :: Power(i) as int
  }

  lemma {:induction false} PowerValuesCount(n: nat)
    requires n <= 255
    ensures |PowerValues(n)| == n
  {
    if n == 0 {
      assert PowerValues(0) == {};
    } else {
      PowerValuesCount(n - 1);
      var last := Power(n - 1) as int;
      assert PowerValues(n) == PowerValues(n - 1) + {last};
      assert last !in PowerValues(n - 1) by {
        forall i | 0 <= i < n - 1 ensures Power(i) as int != last {
          PowersDiffer(i, n - 1);
        }
      }
    }
  }

  function Range(n: nat): set<int> {
    if n == 0 then {} else Range(n - 1) + {n}
  }

  lemma {:induction false} RangeCount(n: nat)
    ensures |Range(n)| == n
    ensures forall i :: i in Range(n) <==> 1 <= i <= n
  {
    if n == 0 {
    } else {
      RangeCount(n - 1);
    }
  }

  lemma SubsetOfSameSize<T>(a: set<T>, b: set<T>)
    requires a <= b && |a| >= |b|
    ensures a == b
  {
    if x :| x in b && x !in a {
      assert a <= b - {x};
      SubsetIsNoLarger(a, b - {x});
    }
  }

  lemma {:induction false} SubsetIsNoLarger<T>(a: set<T>, b: set<T>)
    requires a <= b
    ensures |a| <= |b|
  {
    if x :| x in a {
      SubsetIsNoLarger(a - {x}, b - {x});
    }
  }

  lemma EveryNonZeroIsPower(a: bv8)
    requires a != 0
    ensures exists i :: 0 <= i < 255 && Power(i) == a
  {
    var all := Range(255);
    PowerValuesCount(255);
    RangeCount(255);
    forall i | 0 <= i < 255 ensures Power(i) as int in all {
      PowerNonZero(i);
    }
    SubsetOfSameSize(PowerValues(255), all);
    assert a as int in all;
    var i :| 0 <= i < 255 && Power(i) as int == a as int;
    ByteValuesDiffer(Power(i), a);
  }

  // ---------------------------------------------------------------- multiplication

  ghost function Log(a: bv8): (i: nat)
    requires a != 0
    ensures i < 255 && Power(i) == a
  {
    EveryNonZeroIsPower(a);
    var i :| 0 <= i < 255 && Power(i) == a;
    i
  }

  /** The product by adding logarithms. */
  ghost function Mul(a: bv8, b: bv8): bv8 {
    if a == 0 || b == 0 then 0 else Power(Log(a) + Log(b))
  }

  lemma {:induction false} ShiftZero(n: nat)
    ensures Shift(0, n) == 0
  {
    if n == 0 {
    } else {
      ShiftZero(n - 1);
      assert Xtime(0) == 0;
    }
  }

  /** Multiplying by a is shifting by its logarithm. */
  lemma MulIsShift(a: bv8, b: bv8)
    requires a != 0
    ensures Mul(a, b) == Shift(b, Log(a))
  {
    hide Xtime, Plus;
    if b == 0 {
      ShiftZero(Log(a));
    } else {
      ShiftAdds(1, Log(b), Log(a));
    }
  }

  lemma MulNonZero(a: bv8, b: bv8)
    requires a != 0 && b != 0
    ensures Mul(a, b) != 0
  {
    PowerNonZero(Log(a) + Log(b));
  }

  lemma MulCommutes(a: bv8, b: bv8)
    ensures Mul(a, b) == Mul(b, a)
  {
  }

  lemma MulOne(b: bv8)
    ensures Mul(1, b) == b
  {
    hide Xtime;
    if b != 0 {
      assert Power(0) == 1;
      if Log(1) > 0 {
        PowersDiffer(0, Log(1));
      }
    }
  }

  lemma MulDistributes(a: bv8, b: bv8, c: bv8)
    ensures Mul(a, Plus(b, c)) == Plus(Mul(a, b), Mul(a, c))
  {
    if a == 0 {
      assert Plus(0, 0) == 0;
    } else {
      DistributesNonZero(a, b, c);
    }
  }

  lemma DistributesNonZero(a: bv8, b: bv8, c: bv8)
    requires a != 0
    ensures Mul(a, Plus(b, c)) == Plus(Mul(a, b), Mul(a, c))
  {
    hide Xtime, Plus;
    MulIsShift(a, b);
    MulIsShift(a, c);
    MulIsShift(a, Plus(b, c));
    ShiftLinear(b, c, Log(a));
  }

  /** Shifts by two logarithms of the same number agree. */
  lemma SamePowerSameShift(c: bv8, m: nat, n: nat)
    requires Power(m) == Power(n)
    ensures Shift(c, m) == Shift(c, n)
  {
    hide Xtime;
    if c == 0 {
      ShiftZero(m);
      ShiftZero(n);
    } else {
      ShiftAdds(1, Log(c), m);
      ShiftAdds(1, m, Log(c));
      ShiftAdds(1, Log(c), n);
      ShiftAdds(1, n, Log(c));
    }
  }

  lemma MulAssociates(a: bv8, b: bv8, c: bv8)
    ensures Mul(Mul(a, b), c) == Mul(a, Mul(b, c))
  {
    hide Xtime;
    if a != 0 && b != 0 {
      MulNonZero(a, b);
      MulIsShift(Mul(a, b), c);
      SamePowerSameShift(c, Log(Mul(a, b)), Log(a) + Log(b));
      MulIsShift(b, c);
      ShiftAdds(c, Log(b), Log(a));
      MulIsShift(a, Mul(b, c));
    }
  }

  // ---------------------------------------------------------------- against shift-and-add

  /** The schoolbook product: the multiples of `a` by x, x^2, ... selected by the bits of `b`. */
  function ShiftAndAdd(a: bv8, b: bv8, bits: nat): bv8
    decreases bits
  {
    if bits == 0 then 0
    else Plus(if b & 1 == 1 then a else 0, ShiftAndAdd(Xtime(a), b >> 1, bits - 1))
  }

  lemma LowBitSplit(b: bv8)
    ensures b == Plus(if b & 1 == 1 then 1 else 0, Xtime(b >> 1))
  {
  }

  lemma MulXtime(a: bv8, b: bv8)
    ensures Mul(a, Xtime(b)) == Mul(Xtime(a), b)
  {
    if b == 0 {
      assert Xtime(0) == 0;
    } else if a == 0 {
      assert Xtime(0) == 0;
    } else {
      XtimeIsMulTwo(a);
      XtimeIsMulTwo(b);
      MulCommutes(a, 2);
      MulAssociates(a, 2, b);
    }
  }

  lemma XtimeIsMulTwo(a: bv8)
    ensures Xtime(a) == Mul(2, a)
  {
    assert Power(1) == Xtime(Power(0)) == 2;
    MulIsShift(2, a);
    SamePowerSameShift(a, Log(2), 1);
    assert Shift(a, 1) == Xtime(Shift(a, 0));
  }

  /** The tables compute the polynomial product modulo x^8 + x^4 + x^3 + x^2 + 1. */
  lemma {:induction false} MulIsShiftAndAdd(a: bv8, b: bv8, bits: nat)
    requires bits <= 8 && (b as int) < Bound(bits)
    ensures Mul(a, b) == ShiftAndAdd(a, b, bits)
    decreases bits
  {
    if bits == 0 {
      assert b == 0 by { ByteValuesDiffer(b, 0); }
    } else {
      HalfBound(b, bits);
      MulIsShiftAndAdd(Xtime(a), b >> 1, bits - 1);
      ShiftAndAddStep(a, b);
    }
  }

  function Bound(bits: nat): nat {
    if bits == 0 then 1 else 2 * Bound(bits - 1)
  }

  lemma HalfBound(b: bv8, bits: nat)
    requires 0 < bits <= 8 && (b as int) < Bound(bits)
    ensures ((b >> 1) as int) < Bound(bits - 1)
  {
    assert (b >> 1) as int == (b as int) / 2;
  }

  lemma ShiftAndAddStep(a: bv8, b: bv8)
    ensures Mul(a, b) == Plus(if b & 1 == 1 then a else 0, Mul(Xtime(a), b >> 1))
  {
    LowBitSplit(b);
    MulDistributes(a, if b & 1 == 1 then 1 else 0, Xtime(b >> 1));
    MulXtime(a, b >> 1);
    MulCommutes(a, 1);
    MulOne(a);
  }

  // ---------------------------------------------------------------- the tables

  /** `os`: exponentials for two periods, and logarithms of the non-zero bytes. */
  datatype Tables = Tables(exp: seq<bv8>, log: seq<byte>)

  ghost predicate ValidTables(t: Tables) {
    && |t.exp| == 512 && |t.log| == 256
    && (forall n | 0 <= n < 512 :: t.exp[n] == Power(n))
    && (forall i | 0 <= i < 255 :: t.log[Power(i) as int] == i)
  }

  /** The next power, doubled in a wider register and reduced when it overflows a byte. */
  method NextPower(e: bv8) returns (next: bv8)
    ensures next == Xtime(e)
  {
    var wide := (e as bv16) << 1;
    if wide & 256 != 0 {
      wide := wide ^ 285;
    }
    next := (wide & 255) as bv8;
  }

  lemma NewPowerValue(n: nat)
    requires n < 255
    ensures forall k | 0 <= k < n :: Power(k) as int != Power(n) as int
  {
    forall k | 0 <= k < n ensures Power(k) as int != Power(n) as int {
      PowersDiffer(k, n);
      if Power(k) as int == Power(n) as int {
        ByteValuesDiffer(Power(k), Power(n));
      }
    }
  }

  /** The first loop: every power once, with its logarithm. */
  method FillPeriod(exp: array<bv8>, log: array<byte>)
    requires exp.Length == 512 && log.Length == 256
    modifies exp, log
    ensures forall k | 0 <= k < 255 :: exp[k] == Power(k)
    ensures forall k | 0 <= k < 255 :: log[Power(k) as int] == k
  {
    hide Xtime;
    var e: bv8 := 1;
    var n := 0;
    while n < 255
      invariant 0 <= n <= 255
      invariant e == Power(n)
      invariant forall k | 0 <= k < n :: exp[k] == Power(k)
      invariant forall k | 0 <= k < n :: log[Power(k) as int] == k
    {
      NewPowerValue(n);
      exp[n] := e;
      log[e as int] := n;
      e := NextPower(e);
      n := n + 1;
    }
  }

  method BuildTables() returns (t: Tables)
    ensures ValidTables(t)
  {
    hide Xtime;
    var exp, log := new bv8[512](_ => 0), new byte[256](_ => 0);
    FillPeriod(exp, log);
    var n := 255;
    while n < 512
      invariant 255 <= n <= 512
      invariant forall k | 0 <= k < n :: exp[k] == Power(k)
      invariant forall k | 0 <= k < 255 :: log[Power(k) as int] == k
    {
      PowerPeriod(n - 255);
      exp[n] := exp[n - 255];
      n := n + 1;
    }
    t := Tables(exp[..], log[..]);
  }

  /** `mul` by table lookup; the sum of two logarithms never leaves the table. */
  method TableMul(t: Tables, e: bv8, n: bv8) returns (r: bv8)
    requires ValidTables(t)
    ensures r == Mul(e, n)
  {
    if e == 0 || n == 0 {
      return 0;
    }
    assert t.log[Power(Log(e)) as int] == Log(e);
    assert t.log[Power(Log(n)) as int] == Log(n);
    var i: int, j: int := t.log[e as int], t.log[n as int];
    r := t.exp[i + j];
  }
}
