/** `collections.Counter` as the statistics use it: a dictionary from keys
    to integer counts that remembers the order in which keys first
    arrived, reads a missing key as 0, and lists its entries by
    decreasing count with `most_common`. */
module Counters {

  /** The entries in insertion order. */
  type Counter<K> = seq<(K, int)>

  predicate DistinctKeys<K(==)>(c: Counter<K>) {
    forall i, j :: 0 <= i < j < |c| ==> c[i].0 != c[j].0
  }

  function Keys<K>(c: Counter<K>): (ks: seq<K>)
    ensures |ks| == |c| && forall i :: 0 <= i < |c| ==> ks[i] == c[i].0
  {
    seq(|c|, i requires 0 <= i < |c| => c[i].0)
  }

  /** `c[k]`: the count of `k`, or 0 when `k` is absent. */
  function Get<K(==)>(c: Counter<K>, k: K): int {
    if |c| == 0 then 0
    else if c[0].0 == k then c[0].1
    else Get(c[1..], k)
  }

  lemma GetAt<K>(c: Counter<K>, i: nat)
    requires DistinctKeys(c) && i < |c|
    ensures Get(c, c[i].0) == c[i].1
  {
    if i > 0 {
      assert DistinctKeys(c[1..]) by {
        forall a, b | 0 <= a < b < |c[1..]| ensures c[1..][a].0 != c[1..][b].0 {
          assert c[1..][a] == c[a + 1] && c[1..][b] == c[b + 1];
        }
      }
      assert c[1..][i - 1] == c[i];
      GetAt(c[1..], i - 1);
    }
  }

  lemma GetAbsent<K>(c: Counter<K>, k: K)
    requires k !in Keys(c)
    ensures Get(c, k) == 0
  {
    if |c| > 0 {
      assert Keys(c)[0] == c[0].0;
      assert forall i :: 0 <= i < |c| - 1 ==> Keys(c[1..])[i] == Keys(c)[i + 1];
      GetAbsent(c[1..], k);
    }
  }

  /** `c[k] += delta`: a new key goes to the end. */
  function Add<K(==)>(c: Counter<K>, k: K, delta: int): Counter<K> {
    if |c| == 0 then [(k, delta)]
    else if c[0].0 == k then [(k, c[0].1 + delta)] + c[1..]
    else [c[0]] + Add(c[1..], k, delta)
  }

  /** Adding moves the count of `k` by `delta` and no other count. */
  lemma {:induction false} AddGet<K>(c: Counter<K>, k: K, delta: int, x: K)
    ensures Get(Add(c, k, delta), x) == Get(c, x) + (if x == k then delta else 0)
  {
    if |c| > 0 && c[0].0 != k {
      AddGet(c[1..], k, delta, x);
      assert Add(c, k, delta)[1..] == Add(c[1..], k, delta);
    } else if |c| > 0 {
      assert Add(c, k, delta)[1..] == c[1..];
    }
  }

  lemma KeysCons<K>(e: (K, int), c: Counter<K>)
    ensures Keys([e] + c) == [e.0] + Keys(c)
  {
  }

  /** Keys depend only on the keys. */
  lemma KeysSame<K>(a: Counter<K>, b: Counter<K>)
    requires |a| == |b| && forall i :: 0 <= i < |a| ==> a[i].0 == b[i].0
    ensures Keys(a) == Keys(b)
  {
  }

  lemma AddKeysHit<K>(c: Counter<K>, k: K, delta: int)
    requires |c| > 0 && c[0].0 == k
    ensures k in Keys(c) && Keys(Add(c, k, delta)) == Keys(c)
  {
    assert Keys(c)[0] == k;
    var r := [(k, c[0].1 + delta)] + c[1..];
    assert Add(c, k, delta) == r;
    assert forall i :: 1 <= i < |c| ==> r[i] == c[i];
    KeysSame(r, c);
  }

  lemma AddKeysMiss<K>(c: Counter<K>, k: K, delta: int)
    requires |c| > 0 && c[0].0 != k
    ensures Keys(Add(c, k, delta)) == [c[0].0] + Keys(Add(c[1..], k, delta))
    ensures Keys(c) == [c[0].0] + Keys(c[1..])
  {
    KeysCons(c[0], Add(c[1..], k, delta));
    KeysCons(c[0], c[1..]);
    assert c == [c[0]] + c[1..];
  }

  /** Adding keeps the key order; a new key is appended. */
  lemma {:induction false} AddKeys<K>(c: Counter<K>, k: K, delta: int)
    ensures Keys(Add(c, k, delta)) == if k in Keys(c) then Keys(c) else Keys(c) + [k]
  {
    if |c| == 0 {
      assert Keys(Add(c, k, delta)) == [k];
    } else if c[0].0 == k {
      AddKeysHit(c, k, delta);
    } else {
      var t := c[1..];
      AddKeys(t, k, delta);
      AddKeysMiss(c, k, delta);
      var h := c[0].0;
      assert k in Keys(c) <==> k in Keys(t);
      if k !in Keys(t) {
        assert [h] + (Keys(t) + [k]) == ([h] + Keys(t)) + [k];
      }
    }
  }

  /** Adding keeps the keys distinct. */
  lemma AddDistinct<K>(c: Counter<K>, k: K, delta: int)
    requires DistinctKeys(c)
    ensures DistinctKeys(Add(c, k, delta))
  {
    var r := Add(c, k, delta);
    AddKeys(c, k, delta);
    assert forall i :: 0 <= i < |r| ==> r[i].0 == Keys(r)[i];
    assert forall i :: 0 <= i < |c| ==> c[i].0 == Keys(c)[i];
  }

  /** `c.update(xs)` when `delta` is 1 and `c.subtract(xs)` when it is -1:
      each element of `xs` in turn, left to right. */
  function AddAll<K(==)>(c: Counter<K>, xs: seq<K>, delta: int): Counter<K> {
    if |xs| == 0 then c
    else Add(AddAll(c, xs[..|xs| - 1], delta), xs[|xs| - 1], delta)
  }

  /** Every occurrence of a key moves its count by `delta`; other keys are
      untouched. */
  lemma {:induction false} AddAllGet<K>(c: Counter<K>, xs: seq<K>, delta: int, k: K)
    ensures Get(AddAll(c, xs, delta), k) == Get(c, k) + delta * multiset(xs)[k]
  {
    if |xs| > 0 {
      var init := xs[..|xs| - 1];
      var x := xs[|xs| - 1];
      var c0 := AddAll(c, init, delta);
      assert AddAll(c, xs, delta) == Add(c0, x, delta);
      AddAllGet(c, init, delta, k);
      AddGet(c0, x, delta, k);
      MultisetSnoc(xs);
      var m0 := multiset(init)[k];
      var g0 := Get(c0, k);
      assert g0 == Get(c, k) + delta * m0;
      if x == k {
        assert Get(AddAll(c, xs, delta), k) == g0 + delta;
        assert multiset(xs)[k] == m0 + 1;
        MulSucc(delta, m0);
      } else {
        assert Get(AddAll(c, xs, delta), k) == g0;
        assert multiset(xs)[k] == m0;
      }
    }
  }

  /** A non-empty sequence is its front followed by its last element. */
  lemma Snoc<T>(xs: seq<T>)
    requires |xs| > 0
    ensures xs == xs[..|xs| - 1] + [xs[|xs| - 1]]
  {
  }

  lemma MultisetSnoc<T>(xs: seq<T>)
    requires |xs| > 0
    ensures multiset(xs) == multiset(xs[..|xs| - 1]) + multiset{xs[|xs| - 1]}
  {
    Snoc(xs);
  }

  lemma MulSucc(a: int, b: int)
    ensures a * (b + 1) == a * b + a
  {
  }

  lemma {:induction false} AddAllDistinct<K>(c: Counter<K>, xs: seq<K>, delta: int)
    requires DistinctKeys(c)
    ensures DistinctKeys(AddAll(c, xs, delta))
  {
    if |xs| > 0 {
      AddAllDistinct(c, xs[..|xs| - 1], delta);
      AddDistinct(AddAll(c, xs[..|xs| - 1], delta), xs[|xs| - 1], delta);
    }
  }

  /** Processing two blocks in turn is processing their concatenation. */
  lemma {:induction false} AddAllAppend<K>(c: Counter<K>, xs: seq<K>, ys: seq<K>, delta: int)
    ensures AddAll(AddAll(c, xs, delta), ys, delta) == AddAll(c, xs + ys, delta)
    decreases |ys|
  {
    if |ys| == 0 {
      assert xs + ys == xs;
    } else {
      var ys' := ys[..|ys| - 1];
      AddAllAppend(c, xs, ys', delta);
      assert (xs + ys)[..|xs + ys| - 1] == xs + ys';
      assert (xs + ys)[|xs + ys| - 1] == ys[|ys| - 1];
    }
  }

  /** `Counter(xs)` */
  function Tally<K(==)>(xs: seq<K>): (c: Counter<K>)
    ensures DistinctKeys(c)
  {
    AddAllDistinct([], xs, 1);
    AddAll([], xs, 1)
  }

  /** The position of the first occurrence of `k` in `xs`. */
  function FirstIndex<K(==)>(xs: seq<K>, k: K): (i: nat)
    requires k in xs
    ensures i < |xs| && xs[i] == k && forall j :: 0 <= j < i ==> xs[j] != k
  {
    if xs[0] == k then 0 else 1 + FirstIndex(xs[1..], k)
  }

  lemma FirstIndexPrefix<K>(xs: seq<K>, n: nat, k: K)
    requires n <= |xs| && k in xs[..n]
    ensures FirstIndex(xs[..n], k) == FirstIndex(xs, k)
  {
    var i := FirstIndex(xs[..n], k);
    assert forall jj :: 0 <= jj <= i ==> xs[jj] == xs[..n][jj];
  }

  /** Every key the counter has seen, each once, in the order of its first
      occurrence. */
  predicate FirstSeenOrder<K(==)>(ks: seq<K>, xs: seq<K>) {
    (forall i :: 0 <= i < |ks| ==> ks[i] in xs)
    && (forall x :: x in xs ==> x in ks)
    && (forall i, j :: 0 <= i < j < |ks| ==> ks[i] in xs && ks[j] in xs && FirstIndex(xs, ks[i]) < FirstIndex(xs, ks[j]))
  }

  /** Seeing one more element keeps the first-seen order. */
  lemma FirstSeenStep<K>(ks: seq<K>, xs: seq<K>, x: K)
    requires FirstSeenOrder(ks, xs)
    ensures FirstSeenOrder(if x in ks then ks else ks + [x], xs + [x])
  {
    var ys := xs + [x];
    assert ys[..|xs|] == xs;
    forall y | y in xs
      ensures y in ys && FirstIndex(xs, y) == FirstIndex(ys, y)
    {
      FirstIndexPrefix(ys, |xs|, y);
    }
    if x !in ks {
      assert x !in xs;
      assert FirstIndex(ys, x) == |xs|;
    }
  }

  lemma SnocSplit<K>(seen: seq<K>, xs: seq<K>)
    requires |xs| > 0
    ensures seen + xs == (seen + xs[..|xs| - 1]) + [xs[|xs| - 1]]
  {
    assert xs == xs[..|xs| - 1] + [xs[|xs| - 1]];
  }

  /** One more key fed to a counter whose keys are in first-seen order
      keeps them so. */
  lemma AddFirstSeen<K>(c: Counter<K>, seen: seq<K>, x: K, delta: int)
    requires FirstSeenOrder(Keys(c), seen)
    ensures FirstSeenOrder(Keys(Add(c, x, delta)), seen + [x])
  {
    AddKeys(c, x, delta);
    FirstSeenStep(Keys(c), seen, x);
  }

  /** Feeding more elements to a counter whose keys are the first-seen
      order of what it has seen keeps that so. */
  lemma {:induction false} AddAllKeys<K>(c: Counter<K>, seen: seq<K>, xs: seq<K>, delta: int)
    requires FirstSeenOrder(Keys(c), seen)
    ensures FirstSeenOrder(Keys(AddAll(c, xs, delta)), seen + xs)
  {
    if |xs| == 0 {
      assert seen + xs == seen;
    } else {
      var n := |xs| - 1;
      var init := xs[..n];
      AddAllKeys(c, seen, init, delta);
      AddFirstSeen(AddAll(c, init, delta), seen + init, xs[n], delta);
      SnocSplit(seen, xs);
    }
  }

  /** A counter built from `xs` lists its keys in first-seen order. */
  lemma TallyKeys<K>(xs: seq<K>)
    ensures FirstSeenOrder(Keys(Tally(xs)), xs)
  {
    AddAllKeys([], [], xs, 1);
    assert [] + xs == xs;
  }

  /** Each count of a counter built from `xs` is the number of
      occurrences of its key; absent keys read as 0. */
  lemma TallyGet<K>(xs: seq<K>, k: K)
    ensures Get(Tally(xs), k) == multiset(xs)[k]
  {
    AddAllGet([], xs, 1, k);
  }

  function Total<K>(c: Counter<K>): int {
    if |c| == 0 then 0 else c[0].1 + Total(c[1..])
  }

  lemma {:induction false} TotalAdd<K>(c: Counter<K>, k: K, delta: int)
    ensures Total(Add(c, k, delta)) == Total(c) + delta
  {
    if |c| > 0 && c[0].0 != k {
      TotalAdd(c[1..], k, delta);
      assert Add(c, k, delta)[1..] == Add(c[1..], k, delta);
    } else if |c| > 0 {
      assert Add(c, k, delta)[1..] == c[1..];
    }
  }

  /** The counts of a counter built from `xs` add up to `|xs|`. */
  lemma {:induction false} TallyTotal<K>(xs: seq<K>)
    ensures Total(Tally(xs)) == |xs|
  {
    if |xs| > 0 {
      TallyTotal(xs[..|xs| - 1]);
      TotalAdd(Tally(xs[..|xs| - 1]), xs[|xs| - 1], 1);
    }
  }

  // ---------------------------------------------------------------------
  // `most_common`

  /** `a` stands before `b` in `c`. */
  ghost predicate Earlier<K>(c: Counter<K>, a: (K, int), b: (K, int)) {
    exists p, q :: 0 <= p < q < |c| && c[p] == a && c[q] == b
  }

  /** `r` lists entries by decreasing count, and entries with equal counts
      in the order `c` holds them. */
  ghost predicate Ranked<K>(r: Counter<K>, c: Counter<K>) {
    forall i, j :: 0 <= i < j < |r| ==> r[i].1 > r[j].1 || (r[i].1 == r[j].1 && Earlier(c, r[i], r[j]))
  }

  /** Where `x` goes in a list sorted by decreasing count: after every entry
      whose count is at least its own. */
  function InsertAt<K>(s: Counter<K>, x: (K, int)): (k: nat)
    ensures k <= |s|
    ensures forall i :: 0 <= i < k ==> s[i].1 >= x.1
    ensures k < |s| ==> s[k].1 < x.1
  {
    if |s| == 0 || s[0].1 < x.1 then 0 else 1 + InsertAt(s[1..], x)
  }

  function Insert<K>(s: Counter<K>, x: (K, int)): Counter<K> {
    if |s| == 0 then [x]
    else if s[0].1 < x.1 then [x] + s
    else [s[0]] + Insert(s[1..], x)
  }

  lemma {:induction false} InsertSplit<K>(s: Counter<K>, x: (K, int))
    ensures Insert(s, x) == s[..InsertAt(s, x)] + [x] + s[InsertAt(s, x)..]
  {
    if |s| > 0 && s[0].1 >= x.1 {
      InsertSplit(s[1..], x);
      var k := InsertAt(s[1..], x);
      assert s[..k + 1] == [s[0]] + s[1..][..k];
      assert s[k + 1..] == s[1..][k..];
    }
  }

  /** `sorted(c, key=count, reverse=True)`: a stable insertion sort. */
  function SortDesc<K>(c: Counter<K>): Counter<K> {
    if |c| == 0 then [] else Insert(SortDesc(c[..|c| - 1]), c[|c| - 1])
  }

  lemma EarlierPrefix<K>(c: Counter<K>, n: nat, a: (K, int), b: (K, int))
    requires n <= |c| && Earlier(c[..n], a, b)
    ensures Earlier(c, a, b)
  {
    var p, q :| 0 <= p < q < n && c[..n][p] == a && c[..n][q] == b;
    assert c[p] == a && c[q] == b;
  }

  /** Two entries already ranked stay ranked when `c` grows. */
  lemma RankedOld<K>(r0: Counter<K>, init: Counter<K>, x: (K, int), a: nat, b: nat)
    requires Ranked(r0, init) && a < b < |r0|
    ensures r0[a].1 > r0[b].1 || (r0[a].1 == r0[b].1 && Earlier(init + [x], r0[a], r0[b]))
  {
    if r0[a].1 <= r0[b].1 {
      assert (init + [x])[..|init|] == init;
      EarlierPrefix(init + [x], |init|, r0[a], r0[b]);
    }
  }

  /** Every old entry stands before the newest one. */
  lemma EarlierThanNewest<K>(init: Counter<K>, x: (K, int), y: (K, int))
    requires y in multiset(init)
    ensures Earlier(init + [x], y, x)
  {
    var p :| 0 <= p < |init| && init[p] == y;
    var c := init + [x];
    assert c[p] == y && c[|init|] == x;
  }

  /** The entries of `Insert(s, x)` by position. */
  lemma InsertIndex<K>(s: Counter<K>, x: (K, int), i: nat)
    requires i <= |s|
    ensures |Insert(s, x)| == |s| + 1
    ensures Insert(s, x)[i] == if i < InsertAt(s, x) then s[i] else if i == InsertAt(s, x) then x else s[i - 1]
  {
    InsertSplit(s, x);
  }

  /** Inserting the newest entry into a ranked list keeps it ranked. */
  lemma InsertRanked<K>(r0: Counter<K>, init: Counter<K>, x: (K, int))
    requires Ranked(r0, init) && multiset(r0) == multiset(init)
    ensures Ranked(Insert(r0, x), init + [x])
  {
    var c := init + [x];
    var k := InsertAt(r0, x);
    var r := Insert(r0, x);
    InsertIndex(r0, x, 0);
    forall i, j | 0 <= i < j < |r|
      ensures r[i].1 > r[j].1 || (r[i].1 == r[j].1 && Earlier(c, r[i], r[j]))
    {
      InsertIndex(r0, x, i);
      InsertIndex(r0, x, j);
      if i != k && j != k {
        RankedOld(r0, init, x, if i < k then i else i - 1, if j < k then j else j - 1);
      } else if j == k {
        if r[i].1 == x.1 {
          assert r0[i] in multiset(init);
          EarlierThanNewest(init, x, r0[i]);
        }
      }
    }
  }

  lemma InsertMultiset<K>(s: Counter<K>, x: (K, int))
    ensures multiset(Insert(s, x)) == multiset(s) + multiset{x}
  {
    var k := InsertAt(s, x);
    InsertSplit(s, x);
    var a, b := s[..k], s[k..];
    assert s == a + b;
    assert multiset(s) == multiset(a) + multiset(b);
    assert multiset(a + [x] + b) == multiset(a) + multiset{x} + multiset(b);
  }

  lemma {:induction false} SortDescMultiset<K>(c: Counter<K>)
    ensures multiset(SortDesc(c)) == multiset(c)
  {
    if |c| > 0 {
      var n := |c| - 1;
      SortDescMultiset(c[..n]);
      InsertMultiset(SortDesc(c[..n]), c[n]);
      MultisetSnoc(c);
    }
  }

  /** The sort is a permutation ranked by decreasing count, ties in the
      original order. */
  lemma {:induction false} SortDescRanked<K>(c: Counter<K>)
    ensures multiset(SortDesc(c)) == multiset(c)
    ensures Ranked(SortDesc(c), c)
  {
    SortDescMultiset(c);
    if |c| > 0 {
      var n := |c| - 1;
      SortDescRanked(c[..n]);
      InsertRanked(SortDesc(c[..n]), c[..n], c[n]);
      Snoc(c);
      assert SortDesc(c) == Insert(SortDesc(c[..n]), c[n]);
    }
  }

  /** `c.most_common(n)`: the `n` entries with the highest counts (all of
      them when `n` is at least the size, none when it is not positive),
      ties in insertion order. */
  function MostCommon<K>(c: Counter<K>, n: int): (r: Counter<K>)
    ensures |r| == if n <= 0 then 0 else if n < |c| then n else |c|
  {
    var m := if n <= 0 then 0 else if n < |c| then n else |c|;
    SortDescLength(c);
    SortDesc(c)[..m]
  }

  lemma SortDescLength<K>(c: Counter<K>)
    ensures |SortDesc(c)| == |c|
  {
    SortDescRanked(c);
    assert |multiset(SortDesc(c))| == |multiset(c)|;
  }

  /** A prefix of a ranked list is ranked. */
  lemma PrefixRanked<K>(s: Counter<K>, c: Counter<K>, m: nat)
    requires Ranked(s, c) && m <= |s|
    ensures Ranked(s[..m], c)
  {
    forall i, j | 0 <= i < j < m
      ensures s[..m][i].1 > s[..m][j].1 || (s[..m][i].1 == s[..m][j].1 && Earlier(c, s[..m][i], s[..m][j]))
    {
      assert s[..m][i] == s[i] && s[..m][j] == s[j];
    }
  }

  /** In a ranked list, what comes after position `m` counts less than
      what comes before it, or as much and stands later in `c`. */
  lemma RankedSplit<K>(s: Counter<K>, c: Counter<K>, m: nat)
    requires Ranked(s, c) && m <= |s|
    ensures forall y, z :: y in s[..m] && z in multiset(s[m..]) ==> y.1 > z.1 || (y.1 == z.1 && Earlier(c, y, z))
  {
    forall y, z | y in s[..m] && z in multiset(s[m..])
      ensures y.1 > z.1 || (y.1 == z.1 && Earlier(c, y, z))
    {
      var i :| 0 <= i < m && s[..m][i] == y;
      var j :| 0 <= j < |s[m..]| && s[m..][j] == z;
      assert s[i] == y && s[m + j] == z;
    }
  }

  /** The entries `most_common` leaves out count less than any entry it
      keeps, or as much and were inserted later; the kept ones are
      ranked. */
  lemma MostCommonTop<K>(c: Counter<K>, n: int)
    ensures Ranked(MostCommon(c, n), c)
    ensures multiset(MostCommon(c, n)) <= multiset(c)
    ensures forall y, z :: y in MostCommon(c, n) && z in multiset(c) - multiset(MostCommon(c, n)) ==>
              y.1 > z.1 || (y.1 == z.1 && Earlier(c, y, z))
  {
    var s := SortDesc(c);
    SortDescRanked(c);
    SortDescLength(c);
    var r := MostCommon(c, n);
    var m := |r|;
    assert r == s[..m];
    assert s == s[..m] + s[m..];
    assert multiset(c) == multiset(r) + multiset(s[m..]);
    PrefixRanked(s, c, m);
    RankedSplit(s, c, m);
  }

  /** `most_common(1)` picks an entry with the highest count, and among
      entries with that count the one inserted first. */
  lemma MostCommonOne<K>(c: Counter<K>)
    requires |c| > 0
    ensures |MostCommon(c, 1)| == 1 && MostCommon(c, 1)[0] in c
    ensures forall z :: z in c ==>
              (MostCommon(c, 1)[0].1 > z.1
               || (MostCommon(c, 1)[0].1 == z.1 && (z == MostCommon(c, 1)[0] || Earlier(c, MostCommon(c, 1)[0], z))))
  {
    var s := SortDesc(c);
    SortDescRanked(c);
    SortDescLength(c);
    var y := MostCommon(c, 1)[0];
    assert y == s[0];
    assert y in multiset(c);
    forall z | z in c
      ensures y.1 > z.1 || (y.1 == z.1 && (z == y || Earlier(c, y, z)))
    {
      assert z in multiset(s);
      var j :| 0 <= j < |s| && s[j] == z;
      if j > 0 {
        assert Ranked(s, c);
      }
    }
  }

  /** `Counter(xs).most_common(1)` names an element of `xs` with its number
      of occurrences. */
  lemma TallyTop<K>(xs: seq<K>)
    requires |xs| > 0
    ensures |MostCommon(Tally(xs), 1)| == 1
    ensures var y := MostCommon(Tally(xs), 1)[0];
            y.0 in xs && y.1 == multiset(xs)[y.0] && y in Tally(xs)
  {
    var c := Tally(xs);
    TallyKeys(xs);
    assert xs[0] in Keys(c);
    MostCommonOne(c);
    var y := MostCommon(c, 1)[0];
    var p :| 0 <= p < |c| && c[p] == y;
    GetAt(c, p);
    assert y.0 == Keys(c)[p];
    TallyGet(xs, y.0);
  }

  /** No element occurs more often than the one `most_common(1)` names, and
      one that occurs as often first occurs later. */
  lemma TallyTopBeats<K>(xs: seq<K>, e: K)
    requires |xs| > 0
    ensures |MostCommon(Tally(xs), 1)| == 1
    ensures var y := MostCommon(Tally(xs), 1)[0];
            multiset(xs)[e] <= y.1
            && (e != y.0 && multiset(xs)[e] == y.1 ==> e in xs && y.0 in xs && FirstIndex(xs, y.0) < FirstIndex(xs, e))
  {
    var c := Tally(xs);
    TallyTop(xs);
    var y := MostCommon(c, 1)[0];
    TallyGet(xs, e);
    if e in Keys(c) {
      var q :| 0 <= q < |c| && Keys(c)[q] == e;
      GetAt(c, q);
      var z := c[q];
      assert z in c;
      MostCommonOne(c);
      assert y.1 > z.1 || (y.1 == z.1 && (z == y || Earlier(c, y, z)));
      if e != y.0 && z.1 == y.1 {
        var p1, q1 :| 0 <= p1 < q1 < |c| && c[p1] == y && c[q1] == z;
        TallyKeys(xs);
        assert Keys(c)[p1] == y.0 && Keys(c)[q1] == e;
      }
    } else {
      GetAbsent(c, e);
    }
  }

  /** Asking for more entries than there are returns all of them. */
  lemma MostCommonAll<K>(c: Counter<K>, n: int)
    requires |MostCommon(c, n)| < n
    ensures multiset(MostCommon(c, n)) == multiset(c)
  {
    SortDescLength(c);
    SortDescMultiset(c);
    assert MostCommon(c, n) == SortDesc(c);
  }

  /** An entry left out counts less than any entry kept, or as much and
      was inserted later. */
  lemma MostCommonLeftOut<K>(c: Counter<K>, n: int, z: (K, int))
    requires z in c && z !in MostCommon(c, n)
    ensures forall i :: 0 <= i < |MostCommon(c, n)| ==>
              MostCommon(c, n)[i].1 > z.1 || (MostCommon(c, n)[i].1 == z.1 && Earlier(c, MostCommon(c, n)[i], z))
  {
    var r := MostCommon(c, n);
    MostCommonTop(c, n);
    assert z in multiset(c) - multiset(r);
    assert forall i :: 0 <= i < |r| ==> r[i] in r;
  }
}
