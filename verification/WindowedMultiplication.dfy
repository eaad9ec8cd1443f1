/**
 Scalar multiplication with signed windows (class `Bt` with its helpers `ln` and `qr`).

 A scalar is cut into digits between -(2^(W-1) - 1) and 2^(W-1), one for each window; the table
 holds every positive digit times the weight of its window, so that each digit costs one addition.
 */
module WindowedMultiplication {
  import opened Arithmetic
  import opened PowersOfTwo
  import opened CommutativeGroup
  import opened Outcomes

  /** What `ln` derives from a window width and a scalar length. */
  datatype WindowSizes = WindowSizes(windows: nat, windowSize: nat, maxNumber: nat)

  ghost predicate ValidWidth(width: int, bits: nat) {
    1 <= width <= bits
  }

  function Sizes(width: nat, bits: nat): WindowSizes
    requires 1 <= width <= bits
  {
    WindowSizes((bits + width - 1) / width + 1, Pow2(width - 1), Pow2(width))
  }

  /** One step of the recoding: the digit of this window and the rest of the scalar. */
  datatype Recoding = Recoding(nextN: nat, offset: int, isZero: bool, isNeg: bool, isNegF: bool, offsetF: nat)

  function Recode(n: nat, window: nat, s: WindowSizes): Recoding
    requires s.maxNumber > 0
  {
    var low := n % s.maxNumber;
    var high := n / s.maxNumber;
    var digit := if low > s.windowSize then low - s.maxNumber else low;
    var rest := if low > s.windowSize then high + 1 else high;
    var first := window * s.windowSize;
    var magnitude := if digit < 0 then -digit else digit;
    Recoding(rest, first + magnitude - 1, digit == 0, digit < 0, window % 2 != 0, first)
  }

  /** The signed digit that a recoding stands for, read back from its table offset. */
  function DigitOf(r: Recoding): int {
    if r.isZero then 0
    else if r.isNeg then -(r.offset - r.offsetF + 1)
    else r.offset - r.offsetF + 1
  }

  /** One digit takes out of the scalar a number between -windowSize and windowSize. */
  ghost predicate WellSized(s: WindowSizes) {
    s.windowSize >= 1 && s.maxNumber == 2 * s.windowSize
  }

  lemma SizesAreWellSized(width: nat, bits: nat)
    requires 1 <= width <= bits
    ensures WellSized(Sizes(width, bits))
  {
  }

  /** A step loses nothing, and the digit it takes out names an entry of its own window. */
  lemma RecodeSplits(n: nat, window: nat, s: WindowSizes)
    requires WellSized(s)
    ensures var r := Recode(n, window, s);
            && n == s.maxNumber * r.nextN + DigitOf(r)
            && 0 - s.windowSize < DigitOf(r) <= s.windowSize
            && r.offsetF == window * s.windowSize
            && (!r.isZero ==> r.offsetF <= r.offset < r.offsetF + s.windowSize)
  {
    DivMod(n, s.maxNumber);
    MulDistributes(s.maxNumber, n / s.maxNumber, 1);
  }

  /** The largest scalar whose digits fit in the given number of windows. */
  function MaxScalar(s: WindowSizes, windows: nat): nat {
    if windows == 0 then 0 else s.windowSize + s.maxNumber * MaxScalar(s, windows - 1)
  }

  lemma QuotientFits(n: int, half: int, rest: int, digit: int, m: int)
    requires half >= 1 && n == (2 * half) * rest + digit && -half < digit <= half
    ensures n <= half + (2 * half) * m <==> rest <= m
  {
    if rest <= m {
      MulMonotone(rest, m, 2 * half);
    } else {
      MulMonotone(m + 1, rest, 2 * half);
      MulDistributes(2 * half, m, 1);
    }
  }

  /** The rest fits in one window fewer exactly when the scalar fits. */
  lemma RecodeFits(n: nat, window: nat, s: WindowSizes, windows: nat)
    requires WellSized(s) && windows >= 1
    ensures n <= MaxScalar(s, windows) <==> Recode(n, window, s).nextN <= MaxScalar(s, windows - 1)
  {
    RecodeSplits(n, window, s);
    var r := Recode(n, window, s);
    QuotientFits(n, s.windowSize, r.nextN, DigitOf(r), MaxScalar(s, windows - 1));
  }

  /** Enough windows for the scalar length leave nothing over, even for the scalar 2^bits. */
  lemma {:induction false} ScalarFits(width: nat, bits: nat, windows: nat, s: WindowSizes)
    requires width >= 1
    requires s.windowSize == Pow2(width - 1) && s.maxNumber == Pow2(width)
    requires windows >= 1 && bits < windows * width
    ensures Pow2(bits) <= MaxScalar(s, windows)
    decreases windows
  {
    var m := MaxScalar(s, windows - 1);
    if bits < width {
      Pow2Monotone(bits, width - 1);
      MulMonotone(0, m, s.maxNumber);
    } else {
      MulDistributes(width, windows - 1, 1);
      ScalarFits(width, bits - width, windows - 1, s);
      Pow2Add(width, bits - width);
      MulMonotone(Pow2(bits - width), m, s.maxNumber);
    }
  }

  lemma WindowsCoverBits(width: nat, bits: nat)
    requires 1 <= width <= bits
    ensures bits < Sizes(width, bits).windows * width
  {
    var q := (bits + width - 1) / width;
    assert q * width > bits - 1;
    assert (q + 1) * width == q * width + width;
  }

  /** Every scalar of at most `bits` bits passes the leftover check `Mr`. */
  lemma InRangeScalarFits(width: nat, bits: nat, n: nat)
    requires 1 <= width <= bits
    requires n <= Pow2(bits)
    ensures n <= MaxScalar(Sizes(width, bits), Sizes(width, bits).windows)
  {
    WindowsCoverBits(width, bits);
    ScalarFits(width, bits, Sizes(width, bits).windows, Sizes(width, bits));
  }

  /** Entry k of the table is the (k mod windowSize + 1)-th multiple of its window's weight. */
  ghost predicate IsWindowTable<P>(g: Group<P>, p: P, s: WindowSizes, table: seq<P>) {
    && |table| == s.windows * s.windowSize
    && forall w: nat, j: nat | w < s.windows && j < s.windowSize ::
         TableEntry(g, p, s, table, w, j)
  }

  ghost predicate TableEntry<P>(g: Group<P>, p: P, s: WindowSizes, table: seq<P>, w: nat, j: nat) {
    var k := w * s.windowSize + j;
    k < |table| && table[k] == Times(g, (j + 1) * Weight(s, w), p)
  }

  function Weight(s: WindowSizes, w: nat): nat {
    if w == 0 then 1 else s.maxNumber * Weight(s, w - 1)
  }

  /** The double-and-add form: acc + n*p. */
  method UnsafeLadder<P(!new)>(g: Group<P>, p: P, n: nat, acc: P) returns (r: P)
    requires IsCommutativeGroup(g)
    ensures r == g.add(acc, Times(g, n, p))
  {
    var d := p;
    var k: nat := n;
    r := acc;
    ghost var weight := 1;
    TimesOne(g, p);
    while k > 0
      invariant d == Times(g, weight, p)
      invariant g.add(r, Times(g, weight * k, p)) == g.add(acc, Times(g, n, p))
    {
      ghost var half := k / 2;
      assert weight * k == (2 * weight) * half + weight * (k % 2);
      if k % 2 == 1 {
        TimesAdd(g, weight, 2 * weight * half, p);
        assert Associates(g, r, d, Times(g, 2 * weight * half, p));
        r := g.add(r, d);
      }
      TimesAdd(g, weight, weight, p);
      d, k := g.add(d, d), k / 2;
      weight := 2 * weight;
    }
    assert weight * k == 0;
    assert Commutes(g, r, g.zero) && HasUnit(g, r);
  }

  /** The multiples 1, 2, ..., windowSize of one window's weight. */
  function WindowEntries<P>(g: Group<P>, p: P, weight: nat, count: nat): (entries: seq<P>)
    ensures |entries| == count
  {
    seq(count, (j: nat) => Times(g, (j + 1) * weight, p))
  }

  lemma TableExtended<P>(g: Group<P>, p: P, s: WindowSizes, table: seq<P>, a: nat)
    requires |table| == a * s.windowSize
    requires forall w: nat, j: nat | w < a && j < s.windowSize :: TableEntry(g, p, s, table, w, j)
    ensures var longer := table + WindowEntries(g, p, Weight(s, a), s.windowSize);
            && |longer| == (a + 1) * s.windowSize
            && forall w: nat, j: nat | w < a + 1 && j < s.windowSize :: TableEntry(g, p, s, longer, w, j)
  {
    var longer := table + WindowEntries(g, p, Weight(s, a), s.windowSize);
    MulDistributes(s.windowSize, a, 1);
    forall w: nat, j: nat | w < a + 1 && j < s.windowSize ensures TableEntry(g, p, s, longer, w, j) {
      if w < a {
        assert TableEntry(g, p, s, table, w, j);
      }
    }
  }

  /** The table of `precomputeWindow`. */
  method PrecomputeWindow<P(!new)>(g: Group<P>, p: P, width: int, bits: nat) returns (res: Result<seq<P>>)
    requires IsCommutativeGroup(g)
    ensures res.Ok? <==> ValidWidth(width, bits)
    ensures res.Ok? ==> IsWindowTable(g, p, Sizes(width, bits), res.value)
  {
    if !(1 <= width <= bits) {
      return Thrown;
    }
    var s := Sizes(width, bits);
    SizesAreWellSized(width, bits);
    var table, base, c := [], p, p;
    var a := 0;
    TimesOne(g, p);
    while a < s.windows
      invariant a <= s.windows
      invariant |table| == a * s.windowSize
      invariant base == Times(g, Weight(s, a), p)
      invariant forall w: nat, j: nat | w < a && j < s.windowSize :: TableEntry(g, p, s, table, w, j)
    {
      ghost var weight := Weight(s, a);
      ghost var before := table;
      c := base;
      table := table + [c];
      var f := 1;
      while f < s.windowSize
        invariant 1 <= f <= s.windowSize
        invariant table == before + WindowEntries(g, p, weight, f)
        invariant c == Times(g, f * weight, p)
      {
        TimesAdd(g, weight, f * weight, p);
        MulDistributes(weight, f, 1);
        assert Commutes(g, c, base);
        c := g.add(c, base);
        table := table + [c];
        f := f + 1;
      }
      TableExtended(g, p, s, before, a);
      TimesAdd(g, f * weight, f * weight, p);
      MulDistributes(weight, f, f);
      base := g.add(c, c);
      a := a + 1;
    }
    res := Ok(table);
  }

  /** The sum so far and what is left of the scalar always make up the whole multiple. */
  ghost predicate Remaining<P>(g: Group<P>, p: P, s: WindowSizes, n: nat, acc: P, w: nat, k: nat, sum: P) {
    g.add(sum, Times(g, Weight(s, w) * k, p)) == g.add(acc, Times(g, n, p))
  }

  /** What is left after a digit, seen from the weight of the window. */
  lemma WeightedSplit(s: WindowSizes, w: nat, k: int, rest: int, digit: int)
    requires k == s.maxNumber * rest + digit
    ensures Weight(s, w) * k == digit * Weight(s, w) + Weight(s, w + 1) * rest
  {
    var weight := Weight(s, w);
    MulDistributes(weight, s.maxNumber * rest, digit);
    MulAssociates(weight, s.maxNumber, rest);
    assert weight * s.maxNumber == s.maxNumber * weight;
  }

  lemma OffsetsInRange(s: WindowSizes, w: nat)
    requires w < s.windows
    ensures w * s.windowSize + s.windowSize <= s.windows * s.windowSize
  {
    MulMonotone(w + 1, s.windows, s.windowSize);
    MulDistributes(s.windowSize, w, 1);
  }

  /** A table entry, negated for a negative digit, is the digit's multiple of the weight. */
  lemma EntryForDigit<P(!new)>(g: Group<P>, p: P, s: WindowSizes, table: seq<P>, w: nat, r: Recoding)
    requires IsCommutativeGroup(g) && IsWindowTable(g, p, s, table)
    requires WellSized(s) && w < s.windows
    requires !r.isZero && r.offsetF == w * s.windowSize && r.offsetF <= r.offset < r.offsetF + s.windowSize
    ensures r.offset < |table|
    ensures Times(g, DigitOf(r) * Weight(s, w), p)
            == if r.isNeg then g.negate(table[r.offset]) else table[r.offset]
  {
    OffsetsInRange(s, w);
    var j := r.offset - r.offsetF;
    assert TableEntry(g, p, s, table, w, j);
    TimesNegate(g, (j + 1) * Weight(s, w), p);
    MulAssociates(-1, j + 1, Weight(s, w));
  }

  lemma DigitAdded<P(!new)>(g: Group<P>, p: P, s: WindowSizes, table: seq<P>, n: nat, acc: P, w: nat, k: nat, sum: P)
    requires IsCommutativeGroup(g) && IsWindowTable(g, p, s, table)
    requires WellSized(s) && w < s.windows
    requires Remaining(g, p, s, n, acc, w, k, sum)
    ensures var r := Recode(k, w, s);
            && 0 <= r.offsetF < |table|
            && (!r.isZero ==> 0 <= r.offset < |table|)
            && Remaining(g, p, s, n, acc, w + 1, r.nextN,
                 if r.isZero then sum
                 else g.add(sum, if r.isNeg then g.negate(table[r.offset]) else table[r.offset]))
  {
    var r := Recode(k, w, s);
    RecodeSplits(k, w, s);
    OffsetsInRange(s, w);
    WeightedSplit(s, w, k, r.nextN, DigitOf(r));
    var digit, rest := DigitOf(r) * Weight(s, w), Weight(s, w + 1) * r.nextN;
    TimesAdd(g, digit, rest, p);
    if r.isZero {
      assert HasUnit(g, Times(g, rest, p));
    } else {
      EntryForDigit(g, p, s, table, w, r);
      assert Associates(g, sum, Times(g, digit, p), Times(g, rest, p));
    }
  }

  lemma NothingLeft<P(!new)>(g: Group<P>, p: P, s: WindowSizes, n: nat, acc: P, w: nat, sum: P)
    requires IsCommutativeGroup(g)
    requires Remaining(g, p, s, n, acc, w, 0, sum)
    ensures sum == g.add(acc, Times(g, n, p))
  {
    assert Weight(s, w) * 0 == 0;
    assert Commutes(g, sum, g.zero) && HasUnit(g, sum);
  }

  /**
   The constant-time form: returns n*p, and a decoy sum that soaks up the additions of zero digits.
   It throws when the scalar is not below the group order, and otherwise exactly when the digits of
   the scalar do not fit in the windows.
   */
  method WNAF<P(!new)>(g: Group<P>, base: P, ghost p: P, width: int, bits: nat, order: nat, table: seq<P>, n: nat)
    returns (res: Result<(P, P)>)
    requires IsCommutativeGroup(g)
    requires ValidWidth(width, bits) ==> IsWindowTable(g, p, Sizes(width, bits), table)
    ensures res.Ok? <==> n < order && ValidWidth(width, bits)
                         && n <= MaxScalar(Sizes(width, bits), Sizes(width, bits).windows)
    ensures res.Ok? ==> res.value.0 == Times(g, n, p)
  {
    if n >= order || !(1 <= width <= bits) {
      return Thrown;
    }
    hide IsCommutativeGroup, Remaining, Recode, MaxScalar, IsWindowTable, Times;
    var s := Sizes(width, bits);
    SizesAreWellSized(width, bits);
    var sum, fake := g.zero, base;
    var k: nat, w: nat := n, 0;
    ghost var whole := Times(g, n, p);
    while w < s.windows
      invariant w <= s.windows
      invariant Remaining(g, p, s, n, g.zero, w, k, sum)
      invariant n <= MaxScalar(s, s.windows) <==> k <= MaxScalar(s, s.windows - w)
    {
      DigitAdded(g, p, s, table, n, g.zero, w, k, sum);
      RecodeFits(k, w, s, s.windows - w);
      var r := Recode(k, w, s);
      k := r.nextN;
      if r.isZero {
        fake := g.add(fake, if r.isNegF then g.negate(table[r.offsetF]) else table[r.offsetF]);
      } else {
        sum := g.add(sum, if r.isNeg then g.negate(table[r.offset]) else table[r.offset]);
      }
      w := w + 1;
    }
    if k != 0 {
      return Thrown;
    }
    NothingLeft(g, p, s, n, g.zero, w, sum);
    assert HasUnit(g, whole);
    res := Ok((sum, fake));
  }

  /** The early-exit form: acc + n*p, stopping as soon as the scalar is used up. */
  method WNAFUnsafe<P(!new)>(g: Group<P>, ghost p: P, width: int, bits: nat, table: seq<P>, n: nat, acc: P)
    returns (res: Result<P>)
    requires IsCommutativeGroup(g)
    requires ValidWidth(width, bits) ==> IsWindowTable(g, p, Sizes(width, bits), table)
    ensures res.Ok? <==> ValidWidth(width, bits)
                         && n <= MaxScalar(Sizes(width, bits), Sizes(width, bits).windows)
    ensures res.Ok? ==> res.value == g.add(acc, Times(g, n, p))
  {
    if !(1 <= width <= bits) {
      return Thrown;
    }
    hide IsCommutativeGroup, Remaining, Recode, MaxScalar, IsWindowTable, Times;
    var s := Sizes(width, bits);
    SizesAreWellSized(width, bits);
    var sum := acc;
    var k: nat, w: nat := n, 0;
    while w < s.windows && k != 0
      invariant w <= s.windows
      invariant Remaining(g, p, s, n, acc, w, k, sum)
      invariant n <= MaxScalar(s, s.windows) <==> k <= MaxScalar(s, s.windows - w)
    {
      DigitAdded(g, p, s, table, n, acc, w, k, sum);
      RecodeFits(k, w, s, s.windows - w);
      var r := Recode(k, w, s);
      k := r.nextN;
      if !r.isZero {
        var item := table[r.offset];
        sum := g.add(sum, if r.isNeg then g.negate(item) else item);
      }
      w := w + 1;
    }
    if k != 0 {
      return Thrown;
    }
    NothingLeft(g, p, s, n, acc, w, sum);
    res := Ok(sum);
  }
}
