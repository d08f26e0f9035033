/** The file-assignment partition of `assign_files`: N matching objects are
    split into W contiguous, near-equal half-open ranges, one per worker
    ordinal, each computable from (N, W, ordinal) alone. */
module Partition {

  /** The half-open index range `[start, end)` owned by one worker. */
  datatype Range = Range(start: nat, end: nat)
  {
    predicate Holds(i: nat) { start <= i < end }
    function Size(): nat requires start <= end { end - start }
  }

  // ---------------------------------------------------------------------
  // Arithmetic helpers (nonlinear facts the solver does not find alone)
  // ---------------------------------------------------------------------

  lemma MulLe(a: nat, b: nat, c: nat)
    requires a <= b
    ensures a * c <= b * c
  {
    assert b * c == a * c + (b - a) * c;
  }

  /** Division is determined by any quotient/remainder decomposition. */
  lemma DivUnique(a: nat, d: nat, q: nat, r: nat)
    requires 0 < d && r < d && a == q * d + r
    ensures a / d == q && a % d == r
  {
    var q', r' := a / d, a % d;
    assert q' * d + r' == q * d + r;
    if q' < q {
      MulLe(q' + 1, q, d);
      assert false;
    } else if q < q' {
      MulLe(q + 1, q', d);
      assert false;
    }
  }

  // ---------------------------------------------------------------------
  // The partition
  // ---------------------------------------------------------------------

  /** The range of worker `k` among `w` workers over `n` items: with
      q = n / w and r = n % w, the first r ordinals take q + 1 items and
      the rest take q. The test `r - k > 0` is the guard at
      helper_functions.py:296. */
  function Assign(n: nat, w: nat, k: nat): (rg: Range)
    requires 1 <= w && k < w
    ensures rg.start <= rg.end <= n
  {
    var q := n / w;
    var r := n % w;
    AssignInBounds(n, w, k);
    var start := k * q + (if r - k > 0 then k else r);
    var end := start + q + (if r - k > 0 then 1 else 0);
    Range(start, end)
  }

  lemma AssignInBounds(n: nat, w: nat, k: nat)
    requires 1 <= w && k < w
    ensures var q, r := n / w, n % w;
            k * q + (if r - k > 0 then k else r) + q + (if r - k > 0 then 1 else 0) <= n
  {
    var q, r := n / w, n % w;
    MulLe(k + 1, w, q);
    assert (k + 1) * q == k * q + q;
  }

  /** Closed form: worker k starts after min(k, r) large shares of q + 1
      items and k - min(k, r) small shares of q items. */
  lemma ClosedForm(n: nat, w: nat, k: nat)
    requires 1 <= w && k < w
    ensures var q, r := n / w, n % w;
            var large := if k < r then k else r;
            Assign(n, w, k).start == large * (q + 1) + (k - large) * q
            && Assign(n, w, k).end == Assign(n, w, k).start + (if k < r then q + 1 else q)
  {
    var q, r := n / w, n % w;
    var large := if k < r then k else r;
    assert large * (q + 1) + (k - large) * q == k * q + large;
  }

  /** Balance: every share is floor(n / w) or ceil(n / w), and exactly the
      first n % w ordinals get the larger one. */
  lemma Balance(n: nat, w: nat, k: nat)
    requires 1 <= w && k < w
    ensures Assign(n, w, k).Size() == (if k < n % w then (n + w - 1) / w else n / w)
    ensures Assign(n, w, k).Size() == n / w || Assign(n, w, k).Size() == (n + w - 1) / w
    ensures k < n % w ==> Assign(n, w, k).Size() == n / w + 1
  {
    CeilDiv(n, w);
  }

  /** ceil(n / w) is floor(n / w) + 1 exactly when w does not divide n. */
  lemma CeilDiv(n: nat, w: nat)
    requires 1 <= w
    ensures (n + w - 1) / w == (if n % w == 0 then n / w else n / w + 1)
  {
    var q, r := n / w, n % w;
    if r == 0 {
      DivUnique(n + w - 1, w, q, w - 1);
    } else {
      DivUnique(n + w - 1, w, q + 1, r - 1);
    }
  }

  /** Adjacency: each worker's range ends where the next one starts. */
  lemma Adjacent(n: nat, w: nat, k: nat)
    requires 1 <= w && k + 1 < w
    ensures Assign(n, w, k).end == Assign(n, w, k + 1).start
  {
    var q := n / w;
    assert (k + 1) * q == k * q + q;
  }

  /** Worker 0 starts at 0 and worker w - 1 ends at n. */
  lemma Ends(n: nat, w: nat)
    requires 1 <= w
    ensures Assign(n, w, 0).start == 0
    ensures Assign(n, w, w - 1).end == n
  {
    var q := n / w;
    assert (w - 1) * q + q == w * q;
  }

  /** Ranges are ordered by ordinal and never overlap. */
  lemma {:induction false} Ordered(n: nat, w: nat, i: nat, j: nat)
    requires 1 <= w && i < j < w
    ensures Assign(n, w, i).end <= Assign(n, w, j).start
    decreases j - i
  {
    Adjacent(n, w, i);
    if i + 1 < j {
      Ordered(n, w, i + 1, j);
    }
  }

  lemma Disjoint(n: nat, w: nat, i: nat, j: nat, x: nat)
    requires 1 <= w && i < w && j < w && i != j
    ensures !(Assign(n, w, i).Holds(x) && Assign(n, w, j).Holds(x))
  {
    if i < j { Ordered(n, w, i, j); } else { Ordered(n, w, j, i); }
  }

  /** The inverse of the partition: the ordinal of the worker that owns
      item i. */
  function Owner(n: nat, w: nat, i: nat): (k: nat)
    requires 1 <= w && i < n
    ensures k < w && Assign(n, w, k).Holds(i)
  {
    var q, r := n / w, n % w;
    if i < r * (q + 1) then
      OwnerLarge(n, w, i);
      i / (q + 1)
    else
      OwnerSmall(n, w, i);
      r + (i - r * (q + 1)) / q
  }

  lemma OwnerLarge(n: nat, w: nat, i: nat)
    requires 1 <= w && i < n
    requires i < (n % w) * (n / w + 1)
    ensures var q, r := n / w, n % w;
            var k := i / (q + 1);
            k < r && Assign(n, w, k).Holds(i)
  {
    var q, r := n / w, n % w;
    var k := i / (q + 1);
    assert k * (q + 1) <= i;
    if r <= k {
      MulLe(r, k, q + 1);
      assert false;
    }
    ClosedForm(n, w, k);
  }

  lemma OwnerSmall(n: nat, w: nat, i: nat)
    requires 1 <= w && i < n
    requires (n % w) * (n / w + 1) <= i
    ensures n / w > 0
    ensures var q, r := n / w, n % w;
            var k := r + (i - r * (q + 1)) / q;
            r <= k < w && Assign(n, w, k).Holds(i)
  {
    var q, r := n / w, n % w;
    DivMod(n, w);
    var k := SmallArith(n, w, q, r, i);
    SmallStart(n, w, k);
  }

  lemma DivMod(n: nat, w: nat)
    requires 1 <= w
    ensures n == w * (n / w) + n % w && n % w < w
  {
  }

  /** The arithmetic of OwnerSmall, with q and r standing for n / w and
      n % w. */
  lemma SmallArith(n: nat, w: nat, q: nat, r: nat, i: nat) returns (k: nat)
    requires n == w * q + r && r < w && i < n && r * (q + 1) <= i
    ensures q > 0 && k == r + (i - r * (q + 1)) / q
    ensures r <= k < w && k * q + r <= i < k * q + r + q
  {
    if q == 0 {
      assert false;
    }
    var j := i - r * (q + 1);
    var m := j / q;
    assert m * q <= j < m * q + q;
    assert j < (w - r) * q by {
      assert w * q == (w - r) * q + r * q;
      assert r * (q + 1) == r * q + r;
    }
    if w - r <= m {
      MulLe(w - r, m, q);
      assert false;
    }
    assert (r + m) * q + r == r * (q + 1) + m * q;
    k := r + m;
  }

  lemma SmallStart(n: nat, w: nat, k: nat)
    requires 1 <= w && n % w <= k < w
    ensures Assign(n, w, k) == Range(k * (n / w) + n % w, k * (n / w) + n % w + n / w)
  {
  }

  /** Exactly one worker: any worker whose range holds i is its owner. */
  lemma OwnerUnique(n: nat, w: nat, i: nat, k: nat)
    requires 1 <= w && i < n && k < w
    ensures Assign(n, w, k).Holds(i) <==> k == Owner(n, w, i)
  {
    var o := Owner(n, w, i);
    if k != o {
      Disjoint(n, w, k, o, i);
    }
  }

  // ---------------------------------------------------------------------
  // Shares of a concrete listing
  // ---------------------------------------------------------------------

  /** The share of worker k: the slice `xs[start:end]`. */
  function Share<T>(xs: seq<T>, w: nat, k: nat): (s: seq<T>)
    requires 1 <= w && k < w
    ensures |s| == Assign(|xs|, w, k).Size()
    ensures forall j :: 0 <= j < |s| ==> s[j] == xs[Assign(|xs|, w, k).start + j]
  {
    var rg := Assign(|xs|, w, k);
    xs[rg.start..rg.end]
  }

  /** The shares of workers 0 .. m - 1, concatenated in ordinal order. */
  function Gather<T>(xs: seq<T>, w: nat, m: nat): (g: seq<T>)
    requires 1 <= w && m <= w
  {
    if m == 0 then [] else Gather(xs, w, m - 1) + Share(xs, w, m - 1)
  }

  lemma {:induction false} GatherPrefix<T>(xs: seq<T>, w: nat, m: nat)
    requires 1 <= w && m < w
    ensures Gather(xs, w, m) == xs[..Assign(|xs|, w, m).start]
  {
    if m == 0 {
      Ends(|xs|, w);
    } else {
      GatherPrefix(xs, w, m - 1);
      Adjacent(|xs|, w, m - 1);
      var rg := Assign(|xs|, w, m - 1);
      PrefixThenSlice(xs, rg.start, rg.end);
    }
  }

  lemma PrefixThenSlice<T>(xs: seq<T>, a: nat, b: nat)
    requires a <= b <= |xs|
    ensures xs[..a] + xs[a..b] == xs[..b]
  {
  }

  /** Coverage: the shares of all w workers, in ordinal order, are exactly
      the listing, so every object goes to exactly one worker. */
  lemma Coverage<T>(xs: seq<T>, w: nat)
    requires 1 <= w
    ensures Gather(xs, w, w) == xs
  {
    GatherPrefix(xs, w, w - 1);
    Ends(|xs|, w);
    var rg := Assign(|xs|, w, w - 1);
    PrefixThenSlice(xs, rg.start, rg.end);
  }

  // ---------------------------------------------------------------------
  // Reference values
  // ---------------------------------------------------------------------

  /** 60 files over 11 instances: q = 5, r = 5; ordinals 0-4 take six
      files, ordinals 5-10 take five. */
  lemma SixtyOverEleven()
    ensures 60 / 11 == 5 && 60 % 11 == 5
    ensures forall k :: 0 <= k < 5 ==> Assign(60, 11, k) == Range(6 * k, 6 * k + 6)
    ensures forall k :: 5 <= k < 11 ==> Assign(60, 11, k) == Range(5 * k + 5, 5 * k + 10)
    ensures Assign(60, 11, 4) == Range(24, 30)
    ensures Assign(60, 11, 5) == Range(30, 35)
    ensures Assign(60, 11, 10) == Range(55, 60)
  {
  }

  /** With no matching objects every worker gets the empty range at 0. */
  lemma NoItems(w: nat, k: nat)
    requires 1 <= w && k < w
    ensures Assign(0, w, k) == Range(0, 0)
  {
  }

  /** A single worker owns everything. */
  lemma SingleWorker(n: nat)
    ensures Assign(n, 1, 0) == Range(0, n)
  {
  }
}
