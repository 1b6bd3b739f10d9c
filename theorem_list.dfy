/**
 * The list view of the theorem-bounty front-end
 * (frontend/src/components/TheoremList.tsx): the entries of the snapshot are
 * sorted by expiration or by reward, in either direction, and then every
 * entry whose creator is the zero address is dropped. The sort control is a
 * two-field state machine.
 *
 * Keys are compared as exact integers. Ties keep snapshot order: a snapshot
 * map iterates in insertion order, which is ascending index order, and the
 * JavaScript sort is stable, so equal keys are ordered by ascending index.
 */
module TheoremList {
  import opened TheoremProvider

  /** The creator value that marks a placeholder record. */
  const ZeroAddress: string := "0x0000000000000000000000000000000000000000"

  datatype SortField = Expiration | Reward

  /** The state of the sort control: `sortField` and `sortAscending`. */
  datatype SortState = SortState(field: SortField, ascending: bool)

  /** Both state variables start at (expiration, ascending). */
  const InitialSort: SortState := SortState(Expiration, true)

  /** One `[index, theorem]` pair of `Map.entries()`. */
  type Entry = (nat, Theorem)

  // ---------------------------------------------------------------------------
  // Snapshot entries in iteration order

  /** Below any member of `ks` there is a least member. */
  lemma {:induction false} LeastAtMost(ks: set<nat>, k: nat)
    requires k in ks
    ensures exists least :: least in ks && forall j :: j in ks ==> least <= j
    decreases k
  {
    if exists j :: j in ks && j < k {
      var j :| j in ks && j < k;
      LeastAtMost(ks, j);
    } else {
      assert forall j :: j in ks ==> k <= j;
    }
  }

  lemma MinKeyExists(ks: set<nat>)
    requires ks != {}
    ensures exists least :: least in ks && forall j :: j in ks ==> least <= j
  {
    var k :| k in ks;
    LeastAtMost(ks, k);
  }

  /** The smallest key of a non-empty snapshot. */
  ghost function LeastKey(m: map<nat, Theorem>): (k: nat)
    requires |m| > 0
    ensures k in m && forall j :: j in m ==> k <= j
  {
    MinKeyExists(m.Keys);
    var k :| k in m && forall j :: j in m ==> k <= j;
    k
  }

  /** The snapshot's entries in iteration order: one per key, smallest index first. */
  ghost function Entries(m: map<nat, Theorem>): (r: seq<Entry>)
    ensures |r| == |m|
    ensures forall e :: e in r <==> e.0 in m && m[e.0] == e.1
    ensures forall i :: 0 <= i < |r| ==> r[i].0 in m && m[r[i].0] == r[i].1
    ensures forall i, j :: 0 <= i < j < |r| ==> r[i].0 < r[j].0
    decreases |m|
  {
    if |m| == 0 then []
    else
      var k := LeastKey(m);
      var rest := Entries(m - {k});
      EntriesCons(m, k, rest);
      [(k, m[k])] + rest
  }

  /** The least key's entry followed by the entries of the other keys lists the whole map. */
  lemma EntriesCons(m: map<nat, Theorem>, k: nat, rest: seq<Entry>)
    requires k in m && forall j :: j in m ==> k <= j
    requires |rest| == |m - {k}|
    requires forall e :: e in rest <==> e.0 in m - {k} && (m - {k})[e.0] == e.1
    requires forall i :: 0 <= i < |rest| ==> rest[i].0 in m - {k} && m[rest[i].0] == rest[i].1
    requires forall i, j :: 0 <= i < j < |rest| ==> rest[i].0 < rest[j].0
    ensures |[(k, m[k])] + rest| == |m|
    ensures forall e :: e in [(k, m[k])] + rest <==> e.0 in m && m[e.0] == e.1
    ensures forall i :: 0 <= i < |rest| + 1 ==>
      ([(k, m[k])] + rest)[i].0 in m && m[([(k, m[k])] + rest)[i].0] == ([(k, m[k])] + rest)[i].1
    ensures forall i, j :: 0 <= i < j < |rest| + 1 ==> ([(k, m[k])] + rest)[i].0 < ([(k, m[k])] + rest)[j].0
  {
    EntriesConsMembers(m, k, rest);
    EntriesConsOrdered(m, k, rest);
  }

  lemma EntriesConsMembers(m: map<nat, Theorem>, k: nat, rest: seq<Entry>)
    requires k in m
    requires forall e :: e in rest <==> e.0 in m - {k} && (m - {k})[e.0] == e.1
    ensures forall e :: e in [(k, m[k])] + rest <==> e.0 in m && m[e.0] == e.1
  {
  }

  lemma EntriesConsOrdered(m: map<nat, Theorem>, k: nat, rest: seq<Entry>)
    requires k in m && forall j :: j in m ==> k <= j
    requires forall i :: 0 <= i < |rest| ==> rest[i].0 in m - {k} && m[rest[i].0] == rest[i].1
    requires forall i, j :: 0 <= i < j < |rest| ==> rest[i].0 < rest[j].0
    ensures forall i :: 0 <= i < |rest| + 1 ==>
      ([(k, m[k])] + rest)[i].0 in m && m[([(k, m[k])] + rest)[i].0] == ([(k, m[k])] + rest)[i].1
    ensures forall i, j :: 0 <= i < j < |rest| + 1 ==> ([(k, m[k])] + rest)[i].0 < ([(k, m[k])] + rest)[j].0
  {
    var r := [(k, m[k])] + rest;
    forall i | 0 <= i < |r|
      ensures r[i].0 in m && m[r[i].0] == r[i].1
    {
      if i > 0 {
        assert r[i] == rest[i - 1];
      }
    }
    forall i, j | 0 <= i < j < |r|
      ensures r[i].0 < r[j].0
    {
      assert r[j] == rest[j - 1];
      if i > 0 {
        assert r[i] == rest[i - 1];
      }
    }
  }

  /** Keys that strictly increase along a list grow by at least the distance between positions. */
  lemma {:induction false} IncreasingGap(q: seq<Entry>, i: nat, j: nat)
    requires forall a, b :: 0 <= a < b < |q| ==> q[a].0 < q[b].0
    requires i <= j < |q|
    ensures q[j].0 - q[i].0 >= j - i
    decreases j - i
  {
    if i < j {
      IncreasingGap(q, i + 1, j);
    }
  }

  /** A snapshot keyed 0 .. n-1, as every committed one is, iterates as index 0, 1, …, n-1. */
  lemma EntriesOfContiguous(m: map<nat, Theorem>, n: nat)
    requires KeysBelow(m, n)
    ensures |Entries(m)| == n
    ensures forall i :: 0 <= i < n ==> Entries(m)[i] == (i, m[i])
  {
    var es := Entries(m);
    KeysBelowSize(m, n);
    forall i | 0 <= i < n
      ensures es[i] == (i, m[i])
    {
      IncreasingGap(es, 0, i);
      IncreasingGap(es, i, n - 1);
      assert es[n - 1].0 < n;
      assert es[i].0 == i;
    }
  }

  // ---------------------------------------------------------------------------
  // The comparator

  /** The field the comparator reads: `expirationTimestamp` or `bounty`. */
  function SortKey(t: Theorem, field: SortField): nat
  {
    match field
    case Expiration => t.expirationTimestamp
    case Reward => t.bounty
  }

  /** The comparator: negative when `a` goes first, zero on a tie. */
  function Compare(a: Theorem, b: Theorem, field: SortField, ascending: bool): (c: int)
    ensures c == 0 <==> SortKey(a, field) == SortKey(b, field)
    ensures ascending ==> (c < 0 <==> SortKey(a, field) < SortKey(b, field))
    ensures !ascending ==> (c < 0 <==> SortKey(a, field) > SortKey(b, field))
  {
    if ascending then SortKey(a, field) - SortKey(b, field)
    else SortKey(b, field) - SortKey(a, field)
  }

  /** `x` may stand before `y`: it compares lower, or it ties and has the smaller index. */
  predicate Precedes(x: Entry, y: Entry, s: SortState)
  {
    var c := Compare(x.1, y.1, s.field, s.ascending);
    c < 0 || (c == 0 && x.0 <= y.0)
  }

  lemma PrecedesTotal(x: Entry, y: Entry, s: SortState)
    ensures Precedes(x, y, s) || Precedes(y, x, s)
  {
  }

  lemma PrecedesTransitive(x: Entry, y: Entry, z: Entry, s: SortState)
    requires Precedes(x, y, s) && Precedes(y, z, s)
    ensures Precedes(x, z, s)
  {
  }

  ghost predicate Sorted(q: seq<Entry>, s: SortState)
  {
    forall i, j :: 0 <= i < j < |q| ==> Precedes(q[i], q[j], s)
  }

  // ---------------------------------------------------------------------------
  // Sorting

  /** Places `e` in front of the first entry it precedes. */
  function Insert(e: Entry, q: seq<Entry>, s: SortState): (r: seq<Entry>)
    ensures multiset(r) == multiset(q) + multiset{e}
  {
    if q == [] then [e]
    else if Precedes(e, q[0], s) then [e] + q
    else
      assert q == [q[0]] + q[1..];
      [q[0]] + Insert(e, q[1..], s)
  }

  lemma TailSorted(q: seq<Entry>, s: SortState)
    requires q != [] && Sorted(q, s)
    ensures Sorted(q[1..], s)
  {
    forall i, j | 0 <= i < j < |q| - 1
      ensures Precedes(q[1..][i], q[1..][j], s)
    {
      assert q[1..][i] == q[i + 1] && q[1..][j] == q[j + 1];
    }
  }

  /** An entry that precedes every entry of a sorted list may go in front of it. */
  lemma PrependSorted(x: Entry, r: seq<Entry>, s: SortState)
    requires Sorted(r, s) && forall y :: y in r ==> Precedes(x, y, s)
    ensures Sorted([x] + r, s)
  {
    var q := [x] + r;
    forall i, j | 0 <= i < j < |q|
      ensures Precedes(q[i], q[j], s)
    {
      assert q[j] == r[j - 1];
      if i > 0 {
        assert q[i] == r[i - 1];
      }
    }
  }

  lemma {:induction false} InsertSorted(e: Entry, q: seq<Entry>, s: SortState)
    requires Sorted(q, s)
    ensures Sorted(Insert(e, q, s), s)
  {
    if q == [] {
    } else if Precedes(e, q[0], s) {
      forall y | y in q
        ensures Precedes(e, y, s)
      {
        var k :| 0 <= k < |q| && q[k] == y;
        if k > 0 {
          PrecedesTransitive(e, q[0], y, s);
        }
      }
      PrependSorted(e, q, s);
    } else {
      var tail := q[1..];
      TailSorted(q, s);
      InsertSorted(e, tail, s);
      var rest := Insert(e, tail, s);
      PrecedesTotal(e, q[0], s);
      forall y | y in rest
        ensures Precedes(q[0], y, s)
      {
        assert y in multiset(rest);
        if y != e {
          var k :| 0 <= k < |tail| && tail[k] == y;
          assert q[k + 1] == y;
        }
      }
      PrependSorted(q[0], rest, s);
    }
  }

  /** The entries in the order the comparator's sort puts them. */
  function SortEntries(q: seq<Entry>, s: SortState): (r: seq<Entry>)
    ensures multiset(r) == multiset(q)
    ensures Sorted(r, s)
  {
    if q == [] then []
    else
      var rest := SortEntries(q[1..], s);
      InsertSorted(q[0], rest, s);
      assert q == [q[0]] + q[1..];
      Insert(q[0], rest, s)
  }

  // ---------------------------------------------------------------------------
  // Filtering

  /** The entry is rendered: its creator is not the zero address. */
  predicate Listed(e: Entry)
  {
    e.1.creator != ZeroAddress
  }

  /** The `.filter` step: keeps the listed entries, in order. */
  function Shown(q: seq<Entry>): (r: seq<Entry>)
    ensures forall x :: multiset(r)[x] == if Listed(x) then multiset(q)[x] else 0
    ensures forall x :: x in r ==> x in q && Listed(x)
  {
    if q == [] then []
    else
      assert q == [q[0]] + q[1..];
      (if Listed(q[0]) then [q[0]] else []) + Shown(q[1..])
  }

  lemma {:induction false} ShownSorted(q: seq<Entry>, s: SortState)
    requires Sorted(q, s)
    ensures Sorted(Shown(q), s)
  {
    if q != [] {
      var tail := q[1..];
      TailSorted(q, s);
      ShownSorted(tail, s);
      var rest := Shown(tail);
      if Listed(q[0]) {
        forall y | y in rest
          ensures Precedes(q[0], y, s)
        {
          var k :| 0 <= k < |tail| && tail[k] == y;
          assert q[k + 1] == y;
        }
        PrependSorted(q[0], rest, s);
      }
    }
  }

  // ---------------------------------------------------------------------------
  // The rendered list

  /** `sortedTheorems` followed by the zero-address filter. */
  ghost function View(m: map<nat, Theorem>, s: SortState): (r: seq<Entry>)
    ensures forall e :: e in r ==> e.0 in m && m[e.0] == e.1 && Listed(e)
  {
    var es := Entries(m);
    var q := SortEntries(es, s);
    assert forall e :: e in q ==> e in es by {
      forall e | e in q ensures e in es {
        assert multiset(q)[e] > 0;
      }
    }
    Shown(q)
  }

  /** No rendered entry has the zero address as its creator. */
  lemma ViewOmitsZeroCreator(m: map<nat, Theorem>, s: SortState)
    ensures forall e :: e in View(m, s) ==> e.1.creator != ZeroAddress
  {
  }

  /** The rendered list is ordered by the chosen field in the chosen direction. */
  lemma ViewSorted(m: map<nat, Theorem>, s: SortState)
    ensures forall i, j :: 0 <= i < j < |View(m, s)| ==>
      var a, b := SortKey(View(m, s)[i].1, s.field), SortKey(View(m, s)[j].1, s.field);
      if s.ascending then a <= b else a >= b
  {
    var v := View(m, s);
    ShownSorted(SortEntries(Entries(m), s), s);
    forall i, j | 0 <= i < j < |v|
      ensures var a, b := SortKey(v[i].1, s.field), SortKey(v[j].1, s.field);
        if s.ascending then a <= b else a >= b
    {
      assert Precedes(v[i], v[j], s);
    }
  }

  /** The rendered entries are exactly the snapshot's listed entries. */
  lemma ViewMembers(m: map<nat, Theorem>, s: SortState)
    ensures forall e :: e in View(m, s) <==> e.0 in m && m[e.0] == e.1 && Listed(e)
  {
    var v, q := View(m, s), SortEntries(Entries(m), s);
    forall e
      ensures e in v <==> e.0 in m && m[e.0] == e.1 && Listed(e)
    {
      assert e in v <==> multiset(v)[e] > 0;
      assert e in q <==> multiset(q)[e] > 0;
      assert e in Entries(m) <==> multiset(Entries(m))[e] > 0;
    }
  }

  /** Sorting and filtering neither invent nor duplicate entries: the rendered
      list is a rearrangement of the snapshot's listed entries. */
  lemma ViewPermutation(m: map<nat, Theorem>, s: SortState)
    ensures multiset(View(m, s)) == multiset(Shown(Entries(m)))
  {
    var es := Entries(m);
    ShownKeepsPermutation(SortEntries(es, s), es);
  }

  /** Filtering two rearrangements of one list gives rearrangements of one list. */
  lemma ShownKeepsPermutation(p: seq<Entry>, q: seq<Entry>)
    requires multiset(p) == multiset(q)
    ensures multiset(Shown(p)) == multiset(Shown(q))
  {
    forall x
      ensures multiset(Shown(p))[x] == multiset(Shown(q))[x]
    {
    }
  }

  ghost predicate Distinct(q: seq<Entry>)
  {
    forall i, j :: 0 <= i < j < |q| ==> q[i] != q[j]
  }

  lemma {:induction false} DistinctCounts(q: seq<Entry>)
    ensures Distinct(q) <==> forall x :: multiset(q)[x] <= 1
  {
    if q != [] {
      var rest := q[1..];
      assert q == [q[0]] + rest;
      DistinctCounts(rest);
      if Distinct(q) {
        assert Distinct(rest) by {
          forall i, j | 0 <= i < j < |rest| ensures rest[i] != rest[j] {
            assert rest[i] == q[i + 1] && rest[j] == q[j + 1];
          }
        }
        assert q[0] !in rest by {
          forall k | 0 <= k < |rest|
            ensures rest[k] != q[0]
          {
            assert rest[k] == q[k + 1];
          }
        }
      }
      if forall x :: multiset(q)[x] <= 1 {
        assert forall x :: multiset(rest)[x] <= 1 by {
          forall x ensures multiset(rest)[x] <= 1 {
            assert multiset(q)[x] <= 1;
          }
        }
        assert multiset(rest)[q[0]] == 0 by {
          assert multiset(q)[q[0]] <= 1;
        }
        forall i, j | 0 <= i < j < |q| ensures q[i] != q[j] {
          if i == 0 {
            assert q[j] == rest[j - 1];
            assert q[j] in rest;
          } else {
            assert q[i] == rest[i - 1] && q[j] == rest[j - 1];
          }
        }
      }
    }
  }

  /** No entry is rendered twice. */
  lemma ViewDistinct(m: map<nat, Theorem>, s: SortState)
    ensures Distinct(View(m, s))
  {
    var v, es := View(m, s), Entries(m);
    var q := SortEntries(es, s);
    assert Distinct(es);
    DistinctCounts(es);
    forall x
      ensures multiset(v)[x] <= 1
    {
      assert multiset(v)[x] <= multiset(q)[x] == multiset(es)[x];
    }
    DistinctCounts(v);
  }

  /** Equal sort keys keep snapshot order: the entry with the smaller index comes first. */
  lemma ViewTiesByIndex(m: map<nat, Theorem>, s: SortState)
    ensures forall i, j ::
      (0 <= i < j < |View(m, s)| && SortKey(View(m, s)[i].1, s.field) == SortKey(View(m, s)[j].1, s.field)) ==>
      View(m, s)[i].0 < View(m, s)[j].0
  {
    var v := View(m, s);
    ShownSorted(SortEntries(Entries(m), s), s);
    ViewMembers(m, s);
    ViewDistinct(m, s);
    forall i, j | 0 <= i < j < |v| && SortKey(v[i].1, s.field) == SortKey(v[j].1, s.field)
      ensures v[i].0 < v[j].0
    {
      assert Precedes(v[i], v[j], s);
      assert v[i] in v && v[j] in v;
      KeyDeterminesEntry(m, v[i], v[j]);
    }
  }

  /** Two different entries of one snapshot have different indices. */
  lemma KeyDeterminesEntry(m: map<nat, Theorem>, x: Entry, y: Entry)
    requires x.0 in m && m[x.0] == x.1 && y.0 in m && m[y.0] == y.1 && x != y
    ensures x.0 != y.0
  {
  }

  // ---------------------------------------------------------------------------
  // The comparator as written: through `Number(...)`

  const TwoTo53: nat := 0x20_0000_0000_0000

  predicate IsPowerOfTwo(n: nat)
    decreases n
  {
    n == 1 || (n >= 2 && n % 2 == 0 && IsPowerOfTwo(n / 2))
  }

  /** The gap between neighbouring doubles around `x`: the least power of two
      `p`, from `p` upwards, with `x < 2^53 * p`. */
  function Spacing(x: nat, p: nat): (r: nat)
    requires p > 0
    ensures r >= p && x < TwoTo53 * r
    ensures r == p || TwoTo53 * r <= 2 * x
    ensures IsPowerOfTwo(p) ==> IsPowerOfTwo(r)
    decreases x - p
  {
    if x < TwoTo53 * p then p
    else
      assert IsPowerOfTwo(p) ==> IsPowerOfTwo(2 * p) by {
        assert (2 * p) / 2 == p;
      }
      Spacing(x, 2 * p)
  }

  lemma {:induction false} PowerOfTwoGap(a: nat, b: nat)
    requires IsPowerOfTwo(a) && IsPowerOfTwo(b) && a < b
    ensures 2 * a <= b
    decreases a
  {
    if a != 1 {
      PowerOfTwoGap(a / 2, b / 2);
    }
  }

  lemma {:induction false} SpacingMonotone(x: nat, y: nat, p: nat)
    requires p > 0 && x <= y
    ensures Spacing(x, p) <= Spacing(y, p)
    decreases y - p
  {
    if TwoTo53 * p <= x {
      SpacingMonotone(x, y, 2 * p);
    }
  }

  /** `Number(x)`: the double nearest to `x`, ties to the even neighbour.
      (For `x >= 2^1024` JavaScript gives Infinity; a uint256 never gets there.) */
  function ToNumber(x: nat): (r: nat)
    ensures r % Spacing(x, 1) == 0
    ensures 2 * (if r >= x then r - x else x - r) <= Spacing(x, 1)
    ensures 2 * (if r >= x then r - x else x - r) == Spacing(x, 1) ==> (r / Spacing(x, 1)) % 2 == 0
  {
    RoundedNearest(x, Spacing(x, 1));
    Rounded(x, Spacing(x, 1))
  }

  lemma RoundingStep(q: nat, p: nat)
    requires p > 0
    ensures (q + 1) * p == q * p + p
    ensures (q * p) % p == 0 && ((q + 1) * p) % p == 0
  {
    Distribute(q, p);
    MultipleMod(q, p);
    MultipleMod(q + 1, p);
  }

  lemma Distribute(q: nat, p: nat)
    ensures (q + 1) * p == q * p + p
  {
  }

  /** `q * p` divided by `p` leaves no remainder. */
  lemma MultipleMod(q: nat, p: nat)
    requires p > 0
    ensures (q * p) / p == q && (q * p) % p == 0
  {
    var d := (q * p) / p;
    Distribute(d, p);
    Distribute(q, p);
    MulLessCancel(q, d + 1, p);
    MulLessCancel(d, q + 1, p);
  }

  /** `Number` never reverses the order of two integers; at most it ties them. */
  lemma {:induction false} ToNumberMonotone(x: nat, y: nat)
    requires x <= y
    ensures ToNumber(x) <= ToNumber(y)
  {
    var px, py := Spacing(x, 1), Spacing(y, 1);
    SpacingMonotone(x, y, 1);
    if px == py {
      RoundedMonotone(x, y, px);
    } else {
      PowerOfTwoGap(px, py);
      RoundedBelowTop(x, px);
      RoundedAboveBottom(y, py);
    }
  }

  /** `x` rounded to a nearest multiple of `p`, ties to the even multiple. */
  function Rounded(x: nat, p: nat): nat
    requires p > 0
  {
    var q, rem := x / p, x % p;
    if 2 * rem > p || (2 * rem == p && q % 2 == 1) then (q + 1) * p else q * p
  }

  lemma RoundedNearest(x: nat, p: nat)
    requires p > 0
    ensures Rounded(x, p) % p == 0
    ensures 2 * (if Rounded(x, p) >= x then Rounded(x, p) - x else x - Rounded(x, p)) <= p
    ensures 2 * (if Rounded(x, p) >= x then Rounded(x, p) - x else x - Rounded(x, p)) == p ==>
      (Rounded(x, p) / p) % 2 == 0
  {
    var q, rem := x / p, x % p;
    assert x == q * p + rem;
    RoundingStep(q, p);
    MultipleMod(q, p);
    MultipleMod(q + 1, p);
  }

  lemma RoundedMonotone(x: nat, y: nat, p: nat)
    requires p > 0 && x <= y
    ensures Rounded(x, p) <= Rounded(y, p)
  {
    var qx, qy := x / p, y / p;
    DivMonotone(x, y, p);
    if qx < qy {
      RoundingStep(qx, p);
      MulMonotone(qx + 1, qy, p);
    }
  }

  lemma DivMonotone(x: nat, y: nat, p: nat)
    requires p > 0 && x <= y
    ensures x / p <= y / p
    ensures x / p == y / p ==> x % p <= y % p
  {
    Distribute(y / p, p);
    MulLessCancel(x / p, y / p + 1, p);
  }

  lemma MulMonotone(a: nat, b: nat, p: nat)
    requires a <= b
    ensures a * p <= b * p
  {
  }

  lemma MulLessCancel(a: nat, b: nat, p: nat)
    requires a * p < b * p
    ensures a < b
  {
  }

  /** Below `2^53 * p`, rounding to a multiple of `p` stays at or below `2^53 * p`. */
  lemma RoundedBelowTop(x: nat, p: nat)
    requires p > 0 && x < TwoTo53 * p
    ensures Rounded(x, p) <= TwoTo53 * p
  {
    var q := x / p;
    MulLessCancel(q, TwoTo53, p);
    RoundingStep(q, p);
    MulMonotone(q + 1, TwoTo53, p);
  }

  /** From `2^52 * p` upwards, rounding to a multiple of `p` stays at or above it. */
  lemma RoundedAboveBottom(y: nat, p: nat)
    requires p >= 2 && TwoTo53 * p <= 2 * y
    ensures TwoTo53 * p <= 2 * Rounded(y, p)
  {
    var q := y / p;
    assert TwoTo53 / 2 * p <= y;
    Distribute(q, p);
    MulLessCancel(TwoTo53 / 2, q + 1, p);
    MulMonotone(TwoTo53 / 2, q, p);
  }

  /** Below 2^53 every integer is a double, so `Number` is exact there. */
  lemma ToNumberExactBelow(x: nat)
    requires x < TwoTo53
    ensures ToNumber(x) == x
  {
    assert Spacing(x, 1) == 1;
  }

  /** The comparator exactly as written: it subtracts the two `Number` values. The
      sign of a difference of two doubles is the sign of their exact difference.
      Because `Number` is monotone it never puts two keys in the wrong order, but
      it can call two different keys equal. */
  function NumberCompare(a: Theorem, b: Theorem, field: SortField, ascending: bool): (c: int)
    ensures Compare(a, b, field, ascending) == 0 ==> c == 0
    ensures c < 0 ==> Compare(a, b, field, ascending) < 0
    ensures c > 0 ==> Compare(a, b, field, ascending) > 0
  {
    var ka, kb := SortKey(a, field), SortKey(b, field);
    if ka <= kb then ToNumberMonotone(ka, kb); NumberDifference(ToNumber(ka), ToNumber(kb), ascending)
    else ToNumberMonotone(kb, ka); NumberDifference(ToNumber(ka), ToNumber(kb), ascending)
  }

  function NumberDifference(x: nat, y: nat, ascending: bool): int
  {
    if ascending then x - y else y - x
  }

  /** Two rewards of 2^53 + 1 and 2^53 wei compare as equal through `Number`, so the
      stable sort keeps the larger one first in an ascending list, while the exact
      comparator puts it second. */
  lemma NumberCompareLosesOrder(a: Theorem, b: Theorem)
    requires a.bounty == TwoTo53 + 1 && b.bounty == TwoTo53
    ensures NumberCompare(a, b, Reward, true) == 0
    ensures Compare(a, b, Reward, true) > 0
    ensures !Precedes((0, a), (1, b), SortState(Reward, true))
  {
    assert Spacing(TwoTo53 + 1, 1) == 2 by {
      assert Spacing(TwoTo53 + 1, 1) == Spacing(TwoTo53 + 1, 2);
    }
    assert Spacing(TwoTo53, 1) == 2 by {
      assert Spacing(TwoTo53, 1) == Spacing(TwoTo53, 2);
    }
  }

  // ---------------------------------------------------------------------------
  // The creator column

  function Min(a: int, b: int): int
  {
    if a < b then a else b
  }

  /** `String.prototype.slice(start, end)` (section 22.1.3.21 of ECMA-262, 2023
      edition): a negative index counts from the end, both ends are clamped to
      `0..|s|`, and the result is empty unless `start` lies before `end`. */
  function JsSlice(s: string, start: int, end: int): (r: string)
    ensures |r| <= |s|
  {
    var len := |s|;
    var from := if start < 0 then (if len + start < 0 then 0 else len + start)
                else (if start < len then start else len);
    var to := if end < 0 then (if len + end < 0 then 0 else len + end)
              else (if end < len then end else len);
    if from < to then s[from..to] else ""
  }

  /** `creator.slice(0, 6) + "..." + creator.slice(-4)`. */
  function AbbreviateCreator(creator: string): (r: string)
    ensures r == JsSlice(creator, 0, 6) + "..." + JsSlice(creator, -4, |creator|)
    ensures |creator| == 42 ==> |r| == 13 && r[..6] == creator[..6] && r[9..] == creator[38..]
  {
    creator[..Min(6, |creator|)] + "..." + creator[|creator| - Min(4, |creator|)..]
  }

  // ---------------------------------------------------------------------------
  // The sort control

  /** `toggleSort`: the active field flips the direction; another field
      becomes active, ascending. */
  function Toggle(s: SortState, field: SortField): (r: SortState)
    ensures field == s.field ==> r.field == s.field && r.ascending == !s.ascending
    ensures field != s.field ==> r.field == field && r.ascending
  {
    if field == s.field then SortState(s.field, !s.ascending)
    else SortState(field, true)
  }

  /** Toggling the active field twice restores the state. */
  lemma ToggleActiveTwice(s: SortState)
    ensures Toggle(Toggle(s, s.field), s.field) == s
  {
  }

  class SortControl {
    var sortField: SortField
    var sortAscending: bool

    function State(): SortState
      reads this
    {
      SortState(sortField, sortAscending)
    }

    constructor ()
      ensures State() == InitialSort
    {
      sortField := Expiration;
      sortAscending := true;
    }

    method ToggleSort(field: SortField)
      modifies this
      ensures State() == Toggle(old(State()), field)
    {
      if field == sortField {
        sortAscending := !sortAscending;
      } else {
        sortField := field;
        sortAscending := true;
      }
    }
  }
}
