/**
 The inverse-distribution table builder of netem/maketable.c: histogram,
 running sum, inversion and integer interpolation, in place on arrays.
 */
module MakeTable {

  const MINSHORT := -32768
  const MAXSHORT := 32767
  const TABLESIZE := 4096
  const TABLEFACTOR := 8192
  const DISTTABLEDOMAIN := 4
  const DISTTABLEGRANULARITY := 50000
  const DISTTABLESIZE := DISTTABLEDOMAIN * DISTTABLEGRANULARITY * 2

  // ----- rounding

  /** `rint`: to the nearest integer, halves to the even one. */
  function Rint(x: real): int {
    var f := x.Floor;
    var d := x - f as real;
    if d < 0.5 then f else if d > 0.5 then f + 1 else if f % 2 == 0 then f else f + 1
  }

  lemma RintMonotone(x: real, y: real)
    requires x <= y
    ensures Rint(x) <= Rint(y)
  {
    assert x.Floor <= y.Floor;
    if x.Floor == y.Floor {
    } else {
      assert x.Floor + 1 <= y.Floor;
    }
  }

  function Clamp(x: int, lo: int, hi: int): int {
    if x < lo then lo else if x > hi then hi else x
  }

  // ----- histogram

  function RawBin(x: real, mu: real, sigma: real): int
    requires sigma > 0.0
  {
    Rint(((x - mu) / sigma + DISTTABLEDOMAIN as real) * DISTTABLEGRANULARITY as real)
  }

  /** The bin of one sample. */
  function Bin(x: real, mu: real, sigma: real): (k: nat)
    requires sigma > 0.0
    ensures k < DISTTABLESIZE
  {
    Clamp(RawBin(x, mu, sigma), 0, DISTTABLESIZE - 1)
  }

  function Count(xs: seq<real>, mu: real, sigma: real, k: nat): nat
    requires sigma > 0.0
  {
    if xs == [] then 0
    else Count(xs[..|xs| - 1], mu, sigma, k) + if Bin(xs[|xs| - 1], mu, sigma) == k then 1 else 0
  }

  lemma CountSnoc(xs: seq<real>, mu: real, sigma: real, i: nat, k: nat)
    requires sigma > 0.0 && i < |xs|
    ensures Count(xs[..i + 1], mu, sigma, k)
         == Count(xs[..i], mu, sigma, k) + if Bin(xs[i], mu, sigma) == k then 1 else 0
  {
    assert xs[..i + 1][..i] == xs[..i];
  }

  function Sum(t: seq<int>): int {
    if t == [] then 0 else Sum(t[..|t| - 1]) + t[|t| - 1]
  }

  lemma {:induction false} SumUpdate(t: seq<int>, k: nat, v: int)
    requires k < |t|
    ensures Sum(t[k := v]) == Sum(t) - t[k] + v
  {
    var n := |t| - 1;
    if k < n {
      assert t[k := v][..n] == t[..n][k := v];
      SumUpdate(t[..n], k, v);
    } else {
      assert t[k := v][..n] == t[..n];
    }
  }

  lemma {:induction false} SumZero(t: seq<int>)
    requires forall i | 0 <= i < |t| :: t[i] == 0
    ensures Sum(t) == 0
  {
    if t == [] {
    } else {
      SumZero(t[..|t| - 1]);
    }
  }

  /** Bin `k` counts the samples that fall into it, so that the counts add up to the samples. */
  method MakeDist(xs: seq<real>, mu: real, sigma: real) returns (table: array<int>)
    requires sigma > 0.0
    ensures fresh(table) && table.Length == DISTTABLESIZE
    ensures forall k | 0 <= k < DISTTABLESIZE :: table[k] == Count(xs, mu, sigma, k)
    ensures Sum(table[..]) == |xs|
  {
    table := new int[DISTTABLESIZE](_ => 0);
    SumZero(table[..]);
    for i := 0 to |xs|
      invariant forall k | 0 <= k < DISTTABLESIZE :: table[k] == Count(xs[..i], mu, sigma, k)
      invariant Sum(table[..]) == i
    {
      var index := RawBin(xs[i], mu, sigma);
      if index < 0 {
        index := 0;
      }
      if index >= DISTTABLESIZE {
        index := DISTTABLESIZE - 1;
      }
      assert index == Bin(xs[i], mu, sigma);
      forall k | 0 <= k < DISTTABLESIZE
        ensures Count(xs[..i + 1], mu, sigma, k) == Count(xs[..i], mu, sigma, k) + if index == k then 1 else 0
      {
        CountSnoc(xs, mu, sigma, i, k);
      }
      ghost var before := table[..];
      table[index] := table[index] + 1;
      assert table[..] == before[index := before[index] + 1];
      SumUpdate(before, index, before[index] + 1);
    }
    assert xs[..|xs|] == xs;
  }

  // ----- running sum

  /** Entry `k` of the running sum is the sum of the entries up to `k`. */
  function Cumulative(t: seq<int>): (c: seq<int>)
    ensures |c| == |t|
  {
    if t == [] then [] else Cumulative(t[..|t| - 1]) + [Sum(t)]
  }

  lemma {:induction false} CumulativeEntry(t: seq<int>, k: nat)
    requires k < |t|
    ensures Cumulative(t)[k] == Sum(t[..k + 1])
  {
    if k == |t| - 1 {
      assert t[..|t|] == t;
    } else {
      CumulativeEntry(t[..|t| - 1], k);
      assert t[..|t| - 1][..k + 1] == t[..k + 1];
    }
  }

  lemma SumSnoc(t: seq<int>, p: nat)
    requires p < |t|
    ensures Sum(t[..p + 1]) == Sum(t[..p]) + t[p]
    ensures Cumulative(t[..p + 1]) == Cumulative(t[..p]) + [Sum(t[..p + 1])]
  {
    assert t[..p + 1][..p] == t[..p];
  }

  method CumulativeDist(table: array<int>) returns (total: int)
    modifies table
    ensures table[..] == Cumulative(old(table[..]))
    ensures total == Sum(old(table[..]))
  {
    ghost var t := table[..];
    var accum, p := 0, 0;
    var limit := table.Length;
    while limit > 0
      invariant 0 <= limit && p == table.Length - limit
      invariant accum == Sum(t[..p])
      invariant forall k | p <= k < table.Length :: table[k] == t[k]
      invariant table[..p] == Cumulative(t[..p])
    {
      limit := limit - 1;
      SumSnoc(t, p);
      accum := accum + table[p];
      table[p] := accum;
      assert table[..p + 1] == table[..p] + [accum];
      p := p + 1;
    }
    assert t[..p] == t && table[..p] == table[..];
    total := accum;
  }

  predicate Nondecreasing(t: seq<int>) {
    forall i, j | 0 <= i <= j < |t| :: t[i] <= t[j]
  }

  predicate Within(c: seq<int>, lo: int, hi: int) {
    forall k | 0 <= k < |c| :: lo <= c[k] <= hi
  }

  lemma RisingSnoc(c: seq<int>, lo: int, hi: int, x: int)
    requires Nondecreasing(c) && Within(c, lo, hi) && lo <= x && hi <= x
    ensures Nondecreasing(c + [x]) && Within(c + [x], lo, x)
  {
  }

  /** The running sum of a histogram never falls and ends on the total. */
  lemma {:induction false} CumulativeShape(t: seq<int>)
    requires forall k | 0 <= k < |t| :: t[k] >= 0
    ensures Nondecreasing(Cumulative(t)) && Within(Cumulative(t), 0, Sum(t)) && Sum(t) >= 0
    ensures t != [] ==> Cumulative(t)[|t| - 1] == Sum(t)
  {
    if t == [] {
    } else {
      var front := t[..|t| - 1];
      CumulativeShape(front);
      RisingSnoc(Cumulative(front), 0, Sum(front), Sum(t));
    }
  }

  // ----- inversion

  /** The slot that bin `i`'s share of the total is mapped to. */
  function InverseIndex(acc: int, cumulative: int, inversesize: nat): int
    requires cumulative > 0
  {
    Rint(Scaled(acc, cumulative, inversesize))
  }

  function Scaled(acc: int, cumulative: int, inversesize: nat): real
    requires cumulative > 0
  {
    Share(acc, cumulative) * inversesize as real
  }

  function Share(acc: int, cumulative: int): real
    requires cumulative > 0
  {
    acc as real / cumulative as real
  }

  function FIndex(i: int): real {
    i as real / DISTTABLEGRANULARITY as real - DISTTABLEDOMAIN as real
  }

  /** The scaled value of bin `i`, kept off the marker MINSHORT and inside a short. */
  function InverseValue(i: int): (v: int)
    ensures MINSHORT < v <= MAXSHORT
  {
    Clamp(Rint(FIndex(i) * TABLEFACTOR as real), MINSHORT + 1, MAXSHORT)
  }

  lemma InverseValueMonotone(i: int, j: int)
    requires i <= j
    ensures InverseValue(i) <= InverseValue(j)
  {
    RintMonotone(FIndex(i) * TABLEFACTOR as real, FIndex(j) * TABLEFACTOR as real);
  }

  lemma RealMulMonotone(x: real, y: real, z: real)
    requires x <= y && z >= 0.0
    ensures x * z <= y * z
  {
  }

  lemma ShareMonotone(a: int, b: int, c: int)
    requires a <= b && c > 0
    ensures Share(a, c) <= Share(b, c)
  {
  }

  lemma ScaleMonotone(a: int, b: int, c: int, s: nat)
    requires a <= b && c > 0
    ensures InverseIndex(a, c, s) <= InverseIndex(b, c, s)
  {
    ShareMonotone(a, b, c);
    RealMulMonotone(Share(a, c), Share(b, c), s as real);
    assert Scaled(a, c, s) <= Scaled(b, c, s);
    RintMonotone(Scaled(a, c, s), Scaled(b, c, s));
  }

  lemma IndexEnds(c: int, s: nat)
    requires c > 0
    ensures InverseIndex(0, c, s) == 0 && InverseIndex(c, c, s) == s
  {
    assert Share(c, c) == 1.0;
    assert Share(0, c) == 0.0;
  }

  /** Whatever the histogram, the last bin is mapped to the slot behind a table of `inversesize`. */
  lemma LastBinPastTable(hist: seq<int>, inversesize: nat)
    requires Sum(hist) > 0 && forall k | 0 <= k < |hist| :: hist[k] >= 0
    ensures InverseIndex(Cumulative(hist)[|hist| - 1], Sum(hist), inversesize) == inversesize
  {
    CumulativeShape(hist);
    IndexEnds(Sum(hist), inversesize);
  }

  lemma InverseIndexMonotone(a: int, b: int, c: int, s: nat)
    requires 0 <= a <= b <= c && c > 0
    ensures 0 <= InverseIndex(a, c, s) <= InverseIndex(b, c, s) <= s
  {
    IndexEnds(c, s);
    ScaleMonotone(0, a, c, s);
    ScaleMonotone(a, b, c, s);
    ScaleMonotone(b, c, c, s);
  }

  // ----- the table as a quantile function

  /** Rounding moves a number by no more than a half, to the even integer when it lies halfway. */
  lemma RintNearest(x: real)
    ensures -0.5 <= Rint(x) as real - x <= 0.5
    ensures Rint(x) as real - x == 0.5 || Rint(x) as real - x == -0.5 ==> Rint(x) % 2 == 0
  {
  }

  function Limit(x: real, lo: real, hi: real): real {
    if x < lo then lo else if x > hi then hi else x
  }

  /** How far a table value may lie from the scaled sample: half a unit, and half a bin. */
  const ERR := 0.58192

  predicate Near(a: real, b: real) {
    b - ERR <= a <= b + ERR
  }

  function Scaled8192(x: real, mu: real, sigma: real): real
    requires sigma > 0.0
  {
    Limit(8192.0 * ((x - mu) / sigma), -32767.0, 32767.0)
  }

  /** The value of a sample's bin is the sample itself, in units of sigma / 8192, kept inside a short. */
  lemma BinIsScaled(x: real, mu: real, sigma: real)
    requires sigma > 0.0
    ensures Near(InverseValue(Bin(x, mu, sigma)) as real, Scaled8192(x, mu, sigma))
  {
    ScaledValue((x - mu) / sigma, Bin(x, mu, sigma));
  }

  lemma ScaledValue(z: real, k: nat)
    requires k == Clamp(Rint((z + 4.0) * 50000.0), 0, 399999)
    ensures Near(InverseValue(k) as real, Limit(8192.0 * z, -32767.0, 32767.0))
  {
    RintNearest((z + 4.0) * 50000.0);
    RintNearest(FIndex(k) * 8192.0);
    assert FIndex(k) == k as real / 50000.0 - 4.0;
  }

  predicate AccOk(acc: seq<int>, cumulative: int) {
    && cumulative > 0 && Nondecreasing(acc)
    && forall i | 0 <= i < |acc| :: 0 <= acc[i] <= cumulative
  }

  /** The last bin below `n` that is mapped to `slot`, or -1. */
  function LastBin(acc: seq<int>, cumulative: int, inversesize: nat, slot: int, n: nat): (i: int)
    requires cumulative > 0 && n <= |acc|
    ensures -1 <= i < n
    ensures i >= 0 ==> InverseIndex(acc[i], cumulative, inversesize) == slot
    ensures forall j | i < j < n :: InverseIndex(acc[j], cumulative, inversesize) != slot
  {
    if n == 0 then -1
    else if InverseIndex(acc[n - 1], cumulative, inversesize) == slot then n - 1
    else LastBin(acc, cumulative, inversesize, slot, n - 1)
  }

  /** The inverse before interpolation: each slot holds the value of the last bin mapped to it. */
  function Inverse(acc: seq<int>, cumulative: int, inversesize: nat, n: nat): (t: seq<int>)
    requires cumulative > 0 && n <= |acc|
    ensures |t| == inversesize + 1
  {
    seq(inversesize + 1, slot requires 0 <= slot <= inversesize =>
      var i := LastBin(acc, cumulative, inversesize, slot, n);
      if i < 0 then MINSHORT else InverseValue(i))
  }

  lemma InverseStep(acc: seq<int>, cumulative: int, inversesize: nat, i: nat)
    requires AccOk(acc, cumulative) && i < |acc|
    ensures var k := InverseIndex(acc[i], cumulative, inversesize);
            && 0 <= k <= inversesize
            && Inverse(acc, cumulative, inversesize, i + 1) == Inverse(acc, cumulative, inversesize, i)[k := InverseValue(i)]
  {
    InverseIndexMonotone(acc[i], acc[i], cumulative, inversesize);
  }

  /** What one turn of the inversion loop stores, and where. */
  method InverseEntry(i: int, acc: int, inversesize: nat, cumulative: int) returns (inverseindex: int, inversevalue: int)
    requires cumulative > 0
    ensures inverseindex == InverseIndex(acc, cumulative, inversesize) && inversevalue == InverseValue(i)
  {
    var findex := FIndex(i);
    inverseindex := Rint(Scaled(acc, cumulative, inversesize));
    inversevalue := Rint(findex * TABLEFACTOR as real);
    if inversevalue <= MINSHORT {
      inversevalue := MINSHORT + 1;
    }
    if inversevalue > MAXSHORT {
      inversevalue := MAXSHORT;
    }
  }

  /**
   Inverts the running sum.  The last bins are mapped to slot `inversesize`,
   one past the table of the original; here the array has that slot.
   */
  method InvertTable(table: array<int>, inversesize: nat, cumulative: int) returns (inverse: array<int>)
    requires AccOk(table[..], cumulative)
    ensures fresh(inverse) && inverse[..] == Inverse(table[..], cumulative, inversesize, table.Length)
  {
    ghost var acc := table[..];
    inverse := new int[inversesize + 1](_ => MINSHORT);
    for i := 0 to table.Length
      invariant inverse[..] == Inverse(acc, cumulative, inversesize, i)
    {
      InverseStep(acc, cumulative, inversesize, i);
      assert table[i] == acc[i];
      var inverseindex, inversevalue := InverseEntry(i, table[i], inversesize, cumulative);
      SetEntry(inverse, inverseindex, inversevalue);
    }
  }

  method SetEntry(inverse: array<int>, k: nat, v: int)
    requires k < inverse.Length
    modifies inverse
    ensures inverse[..] == old(inverse[..])[k := v]
  {
    inverse[k] := v;
  }

  /** The entries that are set, read from left to right, never fall and are never the marker. */
  predicate SetRising(t: seq<int>) {
    && (forall k | 0 <= k < |t| :: MINSHORT <= t[k] <= MAXSHORT)
    && forall j, k | 0 <= j <= k < |t| && t[j] != MINSHORT && t[k] != MINSHORT :: t[j] <= t[k]
  }

  lemma InverseRises(acc: seq<int>, cumulative: int, inversesize: nat)
    requires AccOk(acc, cumulative)
    ensures SetRising(Inverse(acc, cumulative, inversesize, |acc|))
  {
    var t := Inverse(acc, cumulative, inversesize, |acc|);
    forall j, k | 0 <= j < k < |t| && t[j] != MINSHORT && t[k] != MINSHORT ensures t[j] <= t[k] {
      var a, b := LastBin(acc, cumulative, inversesize, j, |acc|), LastBin(acc, cumulative, inversesize, k, |acc|);
      if b < a {
        InverseIndexMonotone(acc[b], acc[a], cumulative, inversesize);
      }
      InverseValueMonotone(a, b);
    }
  }

  // ----- the entries that inversion sets are quantiles

  /** The samples in bin `i` or a lower one, by their places. */
  function UpTo(xs: seq<real>, mu: real, sigma: real, i: int): set<nat>
    requires sigma > 0.0
  {
    set j: nat | j < |xs| && Bin(xs[j], mu, sigma) <= i
  }

  lemma {:induction false} UpToCounts(xs: seq<real>, mu: real, sigma: real, i: nat)
    requires sigma > 0.0
    ensures |UpTo(xs, mu, sigma, i)| == |UpTo(xs, mu, sigma, i - 1)| + Count(xs, mu, sigma, i)
  {
    if xs == [] {
      assert UpTo(xs, mu, sigma, i) == {} && UpTo(xs, mu, sigma, i - 1) == {};
    } else {
      UpToCounts(xs[..|xs| - 1], mu, sigma, i);
      UpToSnoc(xs, mu, sigma, i);
      UpToSnoc(xs, mu, sigma, i - 1);
    }
  }

  lemma UpToSnoc(xs: seq<real>, mu: real, sigma: real, i: int)
    requires sigma > 0.0 && xs != []
    ensures var n := |xs| - 1;
            |UpTo(xs, mu, sigma, i)| == |UpTo(xs[..n], mu, sigma, i)| + if Bin(xs[n], mu, sigma) <= i then 1 else 0
  {
    var n := |xs| - 1;
    var front := UpTo(xs[..n], mu, sigma, i);
    assert UpTo(xs, mu, sigma, i) == if Bin(xs[n], mu, sigma) <= i then front + {n} else front;
  }

  /** The running sum of the histogram counts the samples up to a bin. */
  lemma {:induction false} SumIsUpTo(xs: seq<real>, mu: real, sigma: real, hist: seq<int>, n: nat)
    requires sigma > 0.0 && n <= |hist| && forall k | 0 <= k < |hist| :: hist[k] == Count(xs, mu, sigma, k)
    ensures Sum(hist[..n]) == |UpTo(xs, mu, sigma, n - 1)|
  {
    if n == 0 {
      assert UpTo(xs, mu, sigma, -1) == {};
    } else {
      SumIsUpTo(xs, mu, sigma, hist, n - 1);
      UpToCounts(xs, mu, sigma, n - 1);
      assert hist[..n][..n - 1] == hist[..n - 1];
    }
  }

  /** The slot that a share of the total is mapped to is the share's part of the table, rounded. */
  lemma SlotIsRank(acc: int, cumulative: int, inversesize: nat)
    requires cumulative > 0
    ensures var rank := acc as real / cumulative as real * inversesize as real;
            -0.5 <= InverseIndex(acc, cumulative, inversesize) as real - rank <= 0.5
  {
    RintNearest(Scaled(acc, cumulative, inversesize));
  }

  /** The samples `below` scale to no more than `v`, and all others to no less. */
  predicate Splits(xs: seq<real>, mu: real, sigma: real, below: set<nat>, v: int)
    requires sigma > 0.0
  {
    forall j: nat | j < |xs| ::
      if j in below then Scaled8192(xs[j], mu, sigma) <= v as real + ERR
      else Scaled8192(xs[j], mu, sigma) >= v as real - ERR
  }

  lemma UpToSplits(xs: seq<real>, mu: real, sigma: real, i: nat)
    requires sigma > 0.0
    ensures Splits(xs, mu, sigma, UpTo(xs, mu, sigma, i), InverseValue(i))
  {
    forall j: nat | j < |xs|
      ensures if j in UpTo(xs, mu, sigma, i) then Scaled8192(xs[j], mu, sigma) <= InverseValue(i) as real + ERR
              else Scaled8192(xs[j], mu, sigma) >= InverseValue(i) as real - ERR
    {
      BinIsScaled(xs[j], mu, sigma);
      if j in UpTo(xs, mu, sigma, i) {
        InverseValueMonotone(Bin(xs[j], mu, sigma), i);
      } else {
        InverseValueMonotone(i, Bin(xs[j], mu, sigma));
      }
    }
  }

  /** `count` of `all` is, in slots of a table, `slot` to the nearest one. */
  predicate IsRank(count: int, all: int, inversesize: nat, slot: nat)
    requires all > 0
  {
    -0.5 <= slot as real - count as real / all as real * inversesize as real <= 0.5
  }

  /**
   `v` is the quantile for a slot: some of the samples, as many as the slot's share of all, lie below it
   in units of sigma / 8192, and all others above.
   */
  ghost predicate IsQuantile(xs: seq<real>, mu: real, sigma: real, inversesize: nat, slot: nat, v: int)
    requires sigma > 0.0 && xs != []
  {
    exists below: set<nat> ::
      && (forall j | j in below :: j < |xs|)
      && IsRank(|below|, |xs|, inversesize, slot) && Splits(xs, mu, sigma, below, v)
  }

  predicate IsHistogram(hist: seq<int>, xs: seq<real>, mu: real, sigma: real)
    requires sigma > 0.0
  {
    && |hist| == DISTTABLESIZE && Sum(hist) == |xs|
    && forall k | 0 <= k < |hist| :: hist[k] == Count(xs, mu, sigma, k)
  }

  lemma RankCounts(xs: seq<real>, mu: real, sigma: real, hist: seq<int>, i: nat)
    requires sigma > 0.0 && IsHistogram(hist, xs, mu, sigma) && i < |hist|
    ensures Cumulative(hist)[i] == |UpTo(xs, mu, sigma, i)|
  {
    CumulativeEntry(hist, i);
    SumIsUpTo(xs, mu, sigma, hist, i + 1);
  }

  lemma BinIsQuantile(xs: seq<real>, mu: real, sigma: real, inversesize: nat, slot: nat, i: nat, below: set<nat>)
    requires sigma > 0.0 && xs != [] && below == UpTo(xs, mu, sigma, i)
    requires InverseIndex(|below|, |xs|, inversesize) == slot
    ensures IsQuantile(xs, mu, sigma, inversesize, slot, InverseValue(i))
  {
    SlotIsRank(|below|, |xs|, inversesize);
    UpToSplits(xs, mu, sigma, i);
  }

  /** Every entry that the inversion sets is the quantile for its slot. */
  lemma EntryIsQuantile(xs: seq<real>, mu: real, sigma: real, hist: seq<int>, inversesize: nat, slot: nat)
    requires sigma > 0.0 && xs != [] && IsHistogram(hist, xs, mu, sigma) && slot <= inversesize
    ensures var v := Inverse(Cumulative(hist), |xs|, inversesize, |hist|)[slot];
            v != MINSHORT ==> IsQuantile(xs, mu, sigma, inversesize, slot, v)
  {
    var acc := Cumulative(hist);
    var i := LastBin(acc, |xs|, inversesize, slot, |hist|);
    InverseAt(acc, |xs|, inversesize, slot);
    if i >= 0 {
      RankCounts(xs, mu, sigma, hist, i);
      BinIsQuantile(xs, mu, sigma, inversesize, slot, i, UpTo(xs, mu, sigma, i));
    }
  }

  lemma InverseAt(acc: seq<int>, cumulative: int, inversesize: nat, slot: nat)
    requires cumulative > 0 && slot <= inversesize
    ensures var i := LastBin(acc, cumulative, inversesize, slot, |acc|);
            Inverse(acc, cumulative, inversesize, |acc|)[slot] == if i < 0 then MINSHORT else InverseValue(i)
  {
  }

  // ----- interpolation

  /** The last set entry below `i`, or -1. */
  function LastSet(t: seq<int>, i: nat): (l: int)
    requires i <= |t|
    ensures -1 <= l < i && (l >= 0 ==> t[l] != MINSHORT)
  {
    if i == 0 then -1 else if t[i - 1] != MINSHORT then i - 1 else LastSet(t, i - 1)
  }

  /** The first set entry from `i` on, or the length of the table. */
  function NextSet(t: seq<int>, i: nat): (n: nat)
    requires i <= |t|
    ensures i <= n <= |t| && (n < |t| ==> t[n] != MINSHORT)
    decreases |t| - i
  {
    if i == |t| || t[i] != MINSHORT then i else NextSet(t, i + 1)
  }

  function LeftValue(t: seq<int>, l: int): int
    requires -1 <= l < |t|
  {
    if l < 0 then MINSHORT else t[l]
  }

  function RightValue(t: seq<int>, n: nat): int
    requires n <= |t|
  {
    if n < |t| then t[n] else MAXSHORT
  }

  /** The line from (`l`, `a`) to (`n`, `b`) at `i`, rounded down. */
  function FloorLine(l: int, a: int, n: int, b: int, i: int): int
    requires l < n
  {
    a + (i - l) * (b - a) / (n - l)
  }

  /** C division, which rounds toward zero. */
  function CDiv(x: int, y: int): int
    requires y > 0
  {
    if x >= 0 then x / y else -((-x) / y)
  }

  /** A set entry is kept; one in a gap follows the floored line between the gap's ends. */
  function Entry(t: seq<int>, i: nat): int
    requires i < |t|
  {
    var l, n := LastSet(t, i), NextSet(t, i);
    if t[i] != MINSHORT then t[i] else FloorLine(l, LeftValue(t, l), n, RightValue(t, n), i)
  }

  function FilledTo(t: seq<int>, n: nat): (r: seq<int>)
    requires n <= |t|
    ensures |r| == n
  {
    if n == 0 then [] else FilledTo(t, n - 1) + [Entry(t, n - 1)]
  }

  /** The finished table */
  function Filled(t: seq<int>): (r: seq<int>)
    ensures |r| == |t|
  {
    FilledTo(t, |t|)
  }

  lemma {:induction false} FilledAt(t: seq<int>, n: nat, i: nat)
    requires i < n <= |t|
    ensures FilledTo(t, n)[i] == Entry(t, i)
  {
    if i == n - 1 {
    } else {
      FilledAt(t, n - 1, i);
    }
  }

  /** Between the two ends of a gap nothing is set. */
  lemma {:induction false} GapIsEmpty(t: seq<int>, i: nat, j: nat)
    requires i <= |t| && j < |t|
    requires LastSet(t, i) < j < i || i <= j < NextSet(t, i)
    ensures t[j] == MINSHORT
    decreases if j < i then i else |t| - i
  {
    if j < i - 1 {
      GapIsEmpty(t, i - 1, j);
    } else if i < j {
      GapIsEmpty(t, i + 1, j);
    }
  }

  lemma EndsOrdered(t: seq<int>, i: nat)
    requires SetRising(t) && i < |t|
    ensures MINSHORT <= LeftValue(t, LastSet(t, i)) <= RightValue(t, NextSet(t, i)) <= MAXSHORT
  {
  }

  /** The products that interpolation forms stay inside a 32-bit int. */
  lemma NoOverflow(t: seq<int>, i: nat)
    requires SetRising(t) && i < |t| <= TABLESIZE
    ensures var l, n := LastSet(t, i), NextSet(t, i);
            0 <= (i - l) * (RightValue(t, n) - LeftValue(t, l)) < 0x7FFF_FFFF
  {
    EndsOrdered(t, i);
    var l, n := LastSet(t, i), NextSet(t, i);
    MulBound(i - l, TABLESIZE, RightValue(t, n) - LeftValue(t, l), 65535);
  }

  lemma MulBound(x: int, xm: int, y: int, ym: int)
    requires 0 <= x <= xm && 0 <= y <= ym
    ensures 0 <= x * y <= xm * ym
  {
    assert x * y <= xm * y <= xm * ym;
  }

  lemma CDivIsFloor(l: int, a: int, n: int, b: int, i: int)
    requires l <= i && l < n && a <= b
    ensures CLine(l, a, n, b, i) == FloorLine(l, a, n, b, i)
  {
    MulBound(i - l, i - l, b - a, b - a);
  }

  /** The first set entry from `i` on, or `limit`. */
  method ScanGap(table: array<int>, limit: nat, i: nat, ghost t: seq<int>) returns (j: nat)
    requires i < limit <= table.Length && |t| == limit && forall k | i <= k < limit :: table[k] == t[k]
    ensures j == NextSet(t, i)
  {
    j := i;
    while j < limit && table[j] == MINSHORT
      invariant i <= j <= limit && NextSet(t, i) == NextSet(t, j)
    {
      j := j + 1;
    }
  }

  /** What C computes for a missing entry. */
  function CLine(l: int, a: int, n: int, b: int, i: int): int
    requires l < n
  {
    a + CDiv((i - l) * (b - a), n - l)
  }

  /** The value of a missing entry, from the last set entry and the next one. */
  method GapValue(table: array<int>, limit: nat, i: nat, last: int, lasti: int, ghost t: seq<int>) returns (v: int)
    requires i < limit <= table.Length && limit <= TABLESIZE && |t| == limit && SetRising(t)
    requires t[i] == MINSHORT && lasti == LastSet(t, i) && last == LeftValue(t, lasti)
    requires forall k | i <= k < limit :: table[k] == t[k]
    ensures v == Entry(t, i)
  {
    var j := ScanGap(table, limit, i, t);
    var right := if j < limit then table[j] else MAXSHORT;
    assert right == RightValue(t, j);
    EndsOrdered(t, i);
    assert (i - lasti) * (right - last) < 0x8000_0000 by { NoOverflow(t, i); }
    CDivIsFloor(lasti, last, j, right, i);
    v := CLine(lasti, last, j, right, i);
  }

  method InterpolateTable(table: array<int>, limit: nat)
    requires limit <= table.Length && limit <= TABLESIZE && SetRising(table[..limit])
    modifies table
    ensures table[..limit] == Filled(old(table[..limit]))
    ensures table[limit..] == old(table[limit..])
  {
    ghost var t := table[..limit];
    var last, lasti := MINSHORT, -1;
    for i := 0 to limit
      invariant lasti == LastSet(t, i) && last == LeftValue(t, lasti)
      invariant forall k | i <= k < limit :: table[k] == t[k]
      invariant table[..i] == FilledTo(t, i) && table[limit..] == old(table[limit..])
    {
      var v := table[i];
      if v == MINSHORT {
        v := GapValue(table, limit, i, last, lasti, t);
        table[i] := v;
      } else {
        last := v;
        lasti := i;
      }
      assert table[..i + 1] == table[..i] + [table[i]];
    }
  }

  lemma LineBounds(l: int, a: int, n: int, b: int, i: int)
    requires l <= i <= n && l < n && a <= b
    ensures a <= FloorLine(l, a, n, b, i) <= b
  {
    var d, w, x := b - a, n - l, i - l;
    MulBound(x, w, d, d);
    assert x * d / w <= w * d / w == d by { DivMonotone(x * d, w * d, w); DivExact(d, w); }
    assert 0 <= x * d / w;
  }

  lemma LineMonotone(l: int, a: int, n: int, b: int, i: int, j: int)
    requires l <= i <= j <= n && l < n && a <= b
    ensures FloorLine(l, a, n, b, i) <= FloorLine(l, a, n, b, j)
  {
    MulBound(i - l, j - l, b - a, b - a);
    DivMonotone((i - l) * (b - a), (j - l) * (b - a), n - l);
  }

  lemma MulAtLeast(d: int, u: int, v: int)
    requires d > 0 && u < v
    ensures d * u + d <= d * v
  {
    assert d * (v - u) >= d by { MulBound(d, d, 1, v - u); }
    assert d * (v - u) == d * v - d * u;
  }

  lemma DivMonotone(x: int, y: int, d: int)
    requires x <= y && d > 0
    ensures x / d <= y / d
  {
    var u, v := x / d, y / d;
    assert x == d * u + x % d && y == d * v + y % d;
    if v < u {
      MulAtLeast(d, v, u);
    }
  }

  lemma DivExact(x: int, d: int)
    requires d > 0
    ensures d * x / d == x
  {
    var p := d * x;
    var q := p / d;
    assert p == d * q + p % d;
    if q < x {
      MulAtLeast(d, q, x);
    } else if x < q {
      MulAtLeast(d, x, q);
    }
  }

  lemma SameGap(t: seq<int>, i: nat)
    requires i + 1 < |t| && t[i] == MINSHORT && t[i + 1] == MINSHORT
    ensures LastSet(t, i) == LastSet(t, i + 1) && NextSet(t, i) == NextSet(t, i + 1)
  {
  }

  /** Neighbouring entries of the finished table never fall. */
  lemma FilledStep(t: seq<int>, i: nat)
    requires SetRising(t) && i + 1 < |t|
    ensures Entry(t, i) <= Entry(t, i + 1)
  {
    EndsOrdered(t, i);
    EndsOrdered(t, i + 1);
    var l, n := LastSet(t, i), NextSet(t, i);
    if t[i] == MINSHORT && t[i + 1] == MINSHORT {
      SameGap(t, i);
      LineMonotone(l, LeftValue(t, l), n, RightValue(t, n), i, i + 1);
    } else if t[i] == MINSHORT {
      LineBounds(l, LeftValue(t, l), n, RightValue(t, n), i);
    } else if t[i + 1] == MINSHORT {
      var n' := NextSet(t, i + 1);
      LineBounds(i, t[i], n', RightValue(t, n'), i + 1);
    }
  }

  lemma {:induction false} StepsRise(r: seq<int>, i: nat, j: nat)
    requires i <= j < |r| && forall k | 0 <= k < |r| - 1 :: r[k] <= r[k + 1]
    ensures r[i] <= r[j]
  {
    if i == j {
    } else {
      StepsRise(r, i, j - 1);
    }
  }

  /** The finished table never falls, stays a short and keeps what inversion set. */
  lemma FilledShape(t: seq<int>)
    requires SetRising(t)
    ensures Nondecreasing(Filled(t))
    ensures forall k | 0 <= k < |t| :: MINSHORT <= Filled(t)[k] <= MAXSHORT
    ensures forall k | 0 <= k < |t| && t[k] != MINSHORT :: Filled(t)[k] == t[k]
  {
    var r := Filled(t);
    forall k | 0 <= k < |t| ensures r[k] == Entry(t, k) {
      FilledAt(t, |t|, k);
    }
    forall k | 0 <= k < |r| - 1 ensures r[k] <= r[k + 1] {
      FilledStep(t, k);
    }
    forall i, j | 0 <= i <= j < |t| ensures r[i] <= r[j] {
      StepsRise(r, i, j);
    }
    forall k | 0 <= k < |t| ensures MINSHORT <= Entry(t, k) <= MAXSHORT {
      EntryIsShort(t, k);
    }
  }

  lemma EntryIsShort(t: seq<int>, k: nat)
    requires SetRising(t) && k < |t|
    ensures MINSHORT <= Entry(t, k) <= MAXSHORT
  {
    EndsOrdered(t, k);
    if t[k] == MINSHORT {
      LineBounds(LastSet(t, k), LeftValue(t, LastSet(t, k)), NextSet(t, k), RightValue(t, NextSet(t, k)), k);
    }
  }

  /** `e` is the line from (`l`, `a`) to (`n`, `b`) at `i`, rounded down. */
  predicate OnFlooredLine(l: int, a: int, n: int, b: int, i: int, e: int) {
    (n - l) * (e - a) <= (i - l) * (b - a) < (n - l) * (e - a) + (n - l)
  }

  lemma LineIsFloor(l: int, a: int, n: int, b: int, i: int)
    requires l < n
    ensures OnFlooredLine(l, a, n, b, i, FloorLine(l, a, n, b, i))
  {
    var x, w := (i - l) * (b - a), n - l;
    assert x == w * (x / w) + x % w;
  }

  /**
   An entry in a gap lies on the floored line between the nearest set entries, the table's ends
   counting as -32768 one place before it and 32767 one place behind it.
   */
  lemma FilledGap(t: seq<int>, i: nat) returns (l: int, a: int, n: int, b: int)
    requires i < |t| && t[i] == MINSHORT
    ensures -1 <= l < i < n <= |t| && forall k | l < k < n :: t[k] == MINSHORT
    ensures if l == -1 then a == -32768 else a == t[l] && t[l] != MINSHORT
    ensures if n == |t| then b == 32767 else b == t[n] && t[n] != MINSHORT
    ensures OnFlooredLine(l, a, n, b, i, Filled(t)[i])
  {
    l, n := LastSet(t, i), NextSet(t, i);
    a, b := LeftValue(t, l), RightValue(t, n);
    forall k | l < k < n ensures t[k] == MINSHORT {
      GapIsEmpty(t, i, k);
    }
    FilledAt(t, |t|, i);
    LineIsFloor(l, a, n, b, i);
  }

  // ----- the whole program

  /** The table for a set of samples, as a function of their histogram. */
  function Table(hist: seq<int>): (r: seq<int>)
    requires Sum(hist) > 0
    ensures |r| == TABLESIZE
  {
    Filled(Inverse(Cumulative(hist), Sum(hist), TABLESIZE, |hist|)[..TABLESIZE])
  }

  lemma InverseOfHistogram(hist: seq<int>)
    requires Sum(hist) > 0 && forall k | 0 <= k < |hist| :: hist[k] >= 0
    ensures AccOk(Cumulative(hist), Sum(hist))
    ensures SetRising(Inverse(Cumulative(hist), Sum(hist), TABLESIZE, |hist|)[..TABLESIZE])
  {
    CumulativeShape(hist);
    InverseRises(Cumulative(hist), Sum(hist), TABLESIZE);
    RisingFront(Inverse(Cumulative(hist), Sum(hist), TABLESIZE, |hist|), TABLESIZE);
  }

  lemma RisingFront(t: seq<int>, n: nat)
    requires SetRising(t) && n <= |t|
    ensures SetRising(t[..n])
  {
    assert forall k | 0 <= k < n :: t[..n][k] == t[k];
  }

  /** For any non-empty histogram the final table never falls and stays within a short. */
  lemma TableShape(hist: seq<int>)
    requires Sum(hist) > 0 && forall k | 0 <= k < |hist| :: hist[k] >= 0
    ensures Nondecreasing(Table(hist))
    ensures forall k | 0 <= k < TABLESIZE :: MINSHORT <= Table(hist)[k] <= MAXSHORT
    ensures var inv := Inverse(Cumulative(hist), Sum(hist), TABLESIZE, |hist|);
            forall k | 0 <= k < TABLESIZE && inv[k] != MINSHORT :: Table(hist)[k] == inv[k]
  {
    InverseOfHistogram(hist);
    FilledShape(Inverse(Cumulative(hist), Sum(hist), TABLESIZE, |hist|)[..TABLESIZE]);
  }

  /** In the finished table every entry that the inversion set is the quantile for its slot. */
  lemma TableIsQuantile(xs: seq<real>, mu: real, sigma: real, hist: seq<int>)
    requires sigma > 0.0 && xs != [] && IsHistogram(hist, xs, mu, sigma) && forall k | 0 <= k < |hist| :: hist[k] >= 0
    ensures forall k | 0 <= k < TABLESIZE && Inverse(Cumulative(hist), |xs|, TABLESIZE, |hist|)[k] != MINSHORT ::
              IsQuantile(xs, mu, sigma, TABLESIZE, k, Table(hist)[k])
  {
    TableShape(hist);
    var inv := Inverse(Cumulative(hist), |xs|, TABLESIZE, |hist|);
    forall k | 0 <= k < TABLESIZE && inv[k] != MINSHORT ensures IsQuantile(xs, mu, sigma, TABLESIZE, k, Table(hist)[k]) {
      EntryIsQuantile(xs, mu, sigma, hist, TABLESIZE, k);
    }
  }

  method BuildTable(xs: seq<real>, mu: real, sigma: real) returns (inverse: array<int>, ghost hist: seq<int>)
    requires sigma > 0.0 && xs != []
    ensures |hist| == DISTTABLESIZE && forall k | 0 <= k < |hist| :: hist[k] == Count(xs, mu, sigma, k)
    ensures Sum(hist) == |xs| && inverse.Length > TABLESIZE
    ensures inverse[..TABLESIZE] == Table(hist) && Nondecreasing(inverse[..TABLESIZE])
    ensures forall k | 0 <= k < TABLESIZE && Inverse(Cumulative(hist), |xs|, TABLESIZE, |hist|)[k] != MINSHORT ::
              IsQuantile(xs, mu, sigma, TABLESIZE, k, inverse[..TABLESIZE][k])
  {
    var table := MakeDist(xs, mu, sigma);
    hist := table[..];
    InverseOfHistogram(hist);
    var total := CumulativeDist(table);
    inverse := InvertTable(table, TABLESIZE, total);
    InterpolateTable(inverse, TABLESIZE);
    TableShape(hist);
    TableIsQuantile(xs, mu, sigma, hist);
  }
}
