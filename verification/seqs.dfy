/** Sequence operations shared by the stores: filtering (a SQL `WHERE` or a
    JavaScript `filter`), first-match search (`find`/`findIndex`), ordering
    (`ORDER BY`) and windows (`LIMIT ? OFFSET ?`, `slice`). */
module Seqs {
  import opened Common

  /** The elements of `s` that satisfy `p`, in their original order. */
  function Filter<T(!new)>(s: seq<T>, p: T -> bool): (r: seq<T>)
    ensures |r| <= |s|
    ensures forall x :: x in r <==> x in s && p(x)
    ensures forall i :: 0 <= i < |r| ==> p(r[i])
    ensures multiset(r) <= multiset(s)
    decreases |s|
  {
    if s == [] then []
    else
      assert s == [s[0]] + s[1..];
      if p(s[0]) then [s[0]] + Filter(s[1..], p)
      else Filter(s[1..], p)
  }

  /** Predicates that agree on every element filter alike. */
  lemma {:induction false} FilterAgree<T(!new)>(s: seq<T>, p: T -> bool, q: T -> bool)
    requires forall x :: x in s ==> p(x) == q(x)
    ensures Filter(s, p) == Filter(s, q)
    decreases |s|
  {
    if s != [] {
      assert s == [s[0]] + s[1..];
      FilterAgree(s[1..], p, q);
    }
  }

  /** Filtering with a predicate every element satisfies keeps the sequence. */
  lemma {:induction false} FilterAll<T(!new)>(s: seq<T>, p: T -> bool)
    requires forall x :: x in s ==> p(x)
    ensures Filter(s, p) == s
    decreases |s|
  {
    if s != [] {
      FilterAll(s[1..], p);
      assert s == [s[0]] + s[1..];
    }
  }

  /** A filter keeps every element exactly when every element satisfies the predicate. */
  lemma {:induction false} FilterKeepsAll<T(!new)>(s: seq<T>, p: T -> bool)
    ensures |Filter(s, p)| == |s| <==> forall x :: x in s ==> p(x)
    decreases |s|
  {
    if s != [] {
      FilterKeepsAll(s[1..], p);
      assert s == [s[0]] + s[1..];
      assert forall x :: x in s <==> x == s[0] || x in s[1..];
    }
  }

  /** No two elements share a key (a primary key of a table). */
  predicate UniqueBy<T, K(==)>(s: seq<T>, key: T -> K) {
    forall i, j :: 0 <= i < j < |s| ==> key(s[i]) != key(s[j])
  }

  /** Removing rows keeps keys unique. */
  lemma {:induction false} FilterUniqueBy<T(!new), K>(s: seq<T>, p: T -> bool, key: T -> K)
    requires UniqueBy(s, key)
    ensures UniqueBy(Filter(s, p), key)
    decreases |s|
  {
    if s != [] {
      var tail := s[1..];
      assert UniqueBy(tail, key) by {
        forall i, j | 0 <= i < j < |tail| ensures key(tail[i]) != key(tail[j]) {
          assert tail[i] == s[i + 1] && tail[j] == s[j + 1];
        }
      }
      FilterUniqueBy(tail, p, key);
      if p(s[0]) {
        var r := Filter(s, p);
        assert r == [s[0]] + Filter(tail, p);
        forall j | 0 < j < |r| ensures key(r[0]) != key(r[j]) {
          assert r[j] in tail;
          var m :| 0 <= m < |tail| && tail[m] == r[j];
          assert s[m + 1] == r[j];
        }
      }
    }
  }

  /** Replacing one row by a row with the same key keeps keys unique. */
  lemma UpdateUniqueBy<T, K>(s: seq<T>, k: int, v: T, key: T -> K)
    requires UniqueBy(s, key) && 0 <= k < |s| && key(v) == key(s[k])
    ensures UniqueBy(s[k := v], key)
  {
  }

  /** Appending a row with a key nobody has keeps keys unique. */
  lemma AppendUniqueBy<T, K>(s: seq<T>, v: T, key: T -> K)
    requires UniqueBy(s, key) && forall i :: 0 <= i < |s| ==> key(s[i]) != key(v)
    ensures UniqueBy(s + [v], key)
  {
  }

  /** Filtering distributes over concatenation. */
  lemma {:induction false} FilterAppend<T(!new)>(a: seq<T>, b: seq<T>, p: T -> bool)
    ensures Filter(a + b, p) == Filter(a, p) + Filter(b, p)
    decreases |a|
  {
    if a == [] {
      assert a + b == b;
    } else {
      assert (a + b)[1..] == a[1..] + b;
      FilterAppend(a[1..], b, p);
    }
  }

  /** Two filters whose predicates never both hold select at most |s| elements together. */
  lemma {:induction false} CountDisjoint<T(!new)>(s: seq<T>, p: T -> bool, q: T -> bool)
    requires forall x :: x in s ==> !(p(x) && q(x))
    ensures |Filter(s, p)| + |Filter(s, q)| <= |s|
    decreases |s|
  {
    if s != [] {
      CountDisjoint(s[1..], p, q);
    }
  }

  /** The disjunction of two predicates. */
  function Either<T>(p: T -> bool, q: T -> bool): T -> bool {
    (x: T) => p(x) || q(x)
  }

  /** Filtering by either of two disjoint predicates selects the two filters' elements together. */
  lemma {:induction false} CountUnion<T(!new)>(s: seq<T>, p: T -> bool, q: T -> bool)
    requires forall x :: x in s ==> !(p(x) && q(x))
    ensures |Filter(s, Either(p, q))| == |Filter(s, p)| + |Filter(s, q)|
    decreases |s|
  {
    if s != [] {
      CountUnion(s[1..], p, q);
    }
  }

  /** A filter by a stronger predicate selects no more than one by a weaker one. */
  lemma {:induction false} CountMonotone<T(!new)>(s: seq<T>, p: T -> bool, q: T -> bool)
    requires forall x :: x in s ==> p(x) ==> q(x)
    ensures |Filter(s, p)| <= |Filter(s, q)|
    decreases |s|
  {
    if s != [] {
      CountMonotone(s[1..], p, q);
    }
  }

  /** Mapping with a function that keeps `p` keeps whether some element satisfies `p`. */
  lemma FindAfterMap<T(!new)>(s: seq<T>, f: T -> T, p: T -> bool)
    requires forall x :: p(f(x)) <==> p(x)
    ensures Find(Map(s, f), p).Some? <==> exists x :: x in s && p(x)
  {
    var t := Map(s, f);
    if Find(t, p).Some? {
      var i :| 0 <= i < |t| && t[i] == Find(t, p).value;
      assert s[i] in s && p(s[i]);
    } else {
      forall x | x in s ensures !p(x) {
        var i :| 0 <= i < |s| && s[i] == x;
        assert t[i] in t;
      }
    }
  }

  /** Index of the first element satisfying `p`, or -1 (`Array.prototype.findIndex`). */
  function FindIndex<T>(s: seq<T>, p: T -> bool): (r: int)
    ensures -1 <= r < |s|
    ensures r == -1 <==> forall i :: 0 <= i < |s| ==> !p(s[i])
    ensures r >= 0 ==> p(s[r]) && forall i :: 0 <= i < r ==> !p(s[i])
    decreases |s|
  {
    if s == [] then -1
    else if p(s[0]) then 0
    else
      var k := FindIndex(s[1..], p);
      if k == -1 then -1 else k + 1
  }

  /** The first element satisfying `p` (`Array.prototype.find`, `fetchone()` on a filtered query). */
  function Find<T(!new)>(s: seq<T>, p: T -> bool): (r: Option<T>)
    ensures r.None? <==> forall x :: x in s ==> !p(x)
    ensures r.Some? ==> r.value in s && p(r.value)
    ensures r.Some? ==> exists i :: 0 <= i < |s| && s[i] == r.value && forall j :: 0 <= j < i ==> !p(s[j])
  {
    var k := FindIndex(s, p);
    if k == -1 then None else Some(s[k])
  }

  /** `s` without the element at index `k` (`Array.prototype.splice(k, 1)`). */
  function RemoveAt<T>(s: seq<T>, k: nat): (r: seq<T>)
    requires k < |s|
    ensures |r| == |s| - 1
    ensures forall i :: 0 <= i < k ==> r[i] == s[i]
    ensures forall i :: k <= i < |r| ==> r[i] == s[i + 1]
  {
    s[..k] + s[k + 1..]
  }

  /** `limit` elements of `s` from position `offset` onward, with SQLite's reading
      of the bounds: a negative OFFSET counts as 0 and a negative LIMIT means "no limit". */
  function Window<T>(s: seq<T>, offset: int, limit: int): (r: seq<T>)
    ensures limit >= 0 ==> |r| <= limit
    ensures |r| <= |s|
    ensures var start := if offset < 0 then 0 else Min(offset, |s|);
            start + |r| <= |s| && forall i :: 0 <= i < |r| ==> r[i] == s[start + i]
    ensures var start := if offset < 0 then 0 else Min(offset, |s|);
            |r| == if limit < 0 then |s| - start else Min(limit, |s| - start)
  {
    var start := if offset < 0 then 0 else Min(offset, |s|);
    var rest := s[start..];
    if limit < 0 then rest else rest[..Min(limit, |rest|)]
  }

  /** The last `n` elements of `s`, in order (`Array.prototype.slice(-n)`). */
  function LastN<T>(s: seq<T>, n: nat): (r: seq<T>)
    ensures |r| == Min(n, |s|)
    ensures forall i :: 0 <= i < |r| ==> r[i] == s[|s| - |r| + i]
  {
    if |s| <= n then s else s[|s| - n..]
  }

  /** Applies `f` to every element (`Array.prototype.map`). */
  function Map<T, U>(s: seq<T>, f: T -> U): (r: seq<U>)
    ensures |r| == |s|
    ensures forall i :: 0 <= i < |s| ==> r[i] == f(s[i])
  {
    seq(|s|, i requires 0 <= i < |s| => f(s[i]))
  }

  /** `Filter` keeps every copy of an element that satisfies the predicate
      and no copy of one that does not. */
  lemma {:induction false} FilterCount<T(!new)>(s: seq<T>, p: T -> bool, x: T)
    ensures multiset(Filter(s, p))[x] == if p(x) then multiset(s)[x] else 0
    decreases |s|
  {
    if s != [] {
      assert s == [s[0]] + s[1..];
      FilterCount(s[1..], p, x);
    }
  }

  /** One step of `Filter`: the head, when kept, then the filtered tail. */
  lemma FilterCons<T(!new)>(s: seq<T>, p: T -> bool)
    requires s != []
    ensures Filter(s, p) == (if p(s[0]) then [s[0]] else []) + Filter(s[1..], p)
  {
  }

  /** The pieces one after the other, as `"".join` lays them out. */
  function Concat<T>(pieces: seq<seq<T>>): (r: seq<T>)
    decreases |pieces|
  {
    if pieces == [] then [] else pieces[0] + Concat(pieces[1..])
  }

  /** One step of `Map`: the image of the head, then the mapped tail. */
  lemma MapCons<T, U>(s: seq<T>, f: T -> U)
    requires s != []
    ensures Map(s, f) == [f(s[0])] + Map(s[1..], f)
  {
  }

  /** Filtering and then mapping is mapping and then filtering, when the
      filter only looks at the image. */
  lemma {:induction false} MapFilter<T(!new), U(!new)>(s: seq<T>, f: T -> U, q: T -> bool, p: U -> bool)
    requires forall x :: q(x) == p(f(x))
    ensures Map(Filter(s, q), f) == Filter(Map(s, f), p)
    decreases |s|
  {
    if s != [] {
      var ms := Map(s, f);
      var t := Filter(s[1..], q);
      MapFilter(s[1..], f, q, p);
      MapCons(s, f);
      FilterCons(s, q);
      FilterCons(ms, p);
      assert ms[0] == f(s[0]) && ms[1..] == Map(s[1..], f);
      if q(s[0]) {
        var kept := [s[0]] + t;
        MapCons(kept, f);
        assert kept[0] == s[0] && kept[1..] == t;
      }
    }
  }

  /** The elements of a mapped sequence are the images of the elements. */
  lemma MapMembers<T, U>(s: seq<T>, f: T -> U)
    ensures forall y :: y in Map(s, f) <==> exists x :: x in s && y == f(x)
  {
    var r := Map(s, f);
    forall y | y in r ensures exists x :: x in s && y == f(x) {
      var i :| 0 <= i < |r| && r[i] == y;
      assert s[i] in s;
    }
    forall x | x in s ensures f(x) in r {
      var i :| 0 <= i < |s| && s[i] == x;
      assert r[i] == f(x);
    }
  }

  // ---------------------------------------------------------------------------
  // Ordering. `ORDER BY` in the modelled queries is a total preorder on rows
  // (ties are possible); the model sorts by insertion, which picks one of the
  // orders SQL allows.

  ghost predicate TotalPreorder<T(!new)>(le: (T, T) -> bool) {
    && (forall x, y :: le(x, y) || le(y, x))
    && (forall x, y, z :: le(x, y) && le(y, z) ==> le(x, z))
  }

  predicate SortedBy<T>(s: seq<T>, le: (T, T) -> bool) {
    forall i, j :: 0 <= i < j < |s| ==> le(s[i], s[j])
  }

  function Insert<T(!new)>(x: T, s: seq<T>, le: (T, T) -> bool): (r: seq<T>)
    requires TotalPreorder(le) && SortedBy(s, le)
    ensures multiset(r) == multiset(s) + multiset{x}
    ensures SortedBy(r, le)
    decreases |s|
  {
    if s == [] then [x]
    else if le(x, s[0]) then [x] + s
    else
      var t := Insert(x, s[1..], le);
      InsertBehindHead(x, s, t, le);
      [s[0]] + t
  }

  /** Putting the head of `s` back in front of the rest with `x` inserted
      keeps the order and the elements. */
  lemma InsertBehindHead<T(!new)>(x: T, s: seq<T>, t: seq<T>, le: (T, T) -> bool)
    requires TotalPreorder(le) && SortedBy(s, le) && s != [] && !le(x, s[0])
    requires multiset(t) == multiset(s[1..]) + multiset{x} && SortedBy(t, le)
    ensures multiset([s[0]] + t) == multiset(s) + multiset{x}
    ensures SortedBy([s[0]] + t, le)
  {
    assert s == [s[0]] + s[1..];
    assert le(s[0], x);
    forall y | y in t ensures le(s[0], y) {
      assert y in multiset(t);
      assert y == x || y in multiset(s[1..]);
    }
  }

  /** `s` ordered by `le`: a permutation of `s` that is sorted. */
  function Sort<T(!new)>(s: seq<T>, le: (T, T) -> bool): (r: seq<T>)
    requires TotalPreorder(le)
    ensures multiset(r) == multiset(s)
    ensures SortedBy(r, le)
    ensures |r| == |s|
    decreases |s|
  {
    if s == [] then []
    else
      assert s == [s[0]] + s[1..];
      Insert(s[0], Sort(s[1..], le), le)
  }

  /** A window of a sorted sequence is sorted. */
  lemma WindowSorted<T>(s: seq<T>, offset: int, limit: int, le: (T, T) -> bool)
    requires SortedBy(s, le)
    ensures SortedBy(Window(s, offset, limit), le)
  {
    var r := Window(s, offset, limit);
    var start := if offset < 0 then 0 else Min(offset, |s|);
    forall i, j | 0 <= i < j < |r| ensures le(r[i], r[j]) {
      assert r[i] == s[start + i] && r[j] == s[start + j];
    }
  }

  /** Dropping elements keeps a sorted sequence sorted. */
  lemma {:induction false} FilterSorted<T(!new)>(s: seq<T>, p: T -> bool, le: (T, T) -> bool)
    requires SortedBy(s, le)
    ensures SortedBy(Filter(s, p), le)
    decreases |s|
  {
    if s != [] {
      var tail := Filter(s[1..], p);
      FilterSorted(s[1..], p, le);
      assert s == [s[0]] + s[1..];
      if p(s[0]) {
        assert Filter(s, p) == [s[0]] + tail;
        forall y | y in tail ensures le(s[0], y) {
          var j :| 0 <= j < |s[1..]| && s[1..][j] == y;
          assert s[j + 1] == y;
        }
      }
    }
  }

  /** Membership in a sorted copy is membership in the original. */
  lemma SortMembers<T(!new)>(s: seq<T>, le: (T, T) -> bool)
    requires TotalPreorder(le)
    ensures forall x :: x in Sort(s, le) <==> x in s
  {
    var r := Sort(s, le);
    forall x ensures x in r <==> x in s {
      assert x in r <==> x in multiset(r);
      assert x in s <==> x in multiset(s);
    }
  }

  /** Every element of a window is an element of the sequence. */
  lemma WindowMembers<T>(s: seq<T>, offset: int, limit: int)
    ensures forall x :: x in Window(s, offset, limit) ==> x in s
  {
    var r := Window(s, offset, limit);
    var start := if offset < 0 then 0 else Min(offset, |s|);
    forall x | x in r ensures x in s {
      var i :| 0 <= i < |r| && r[i] == x;
      assert s[start + i] == x;
    }
  }

  /** With no offset and a limit that covers everything, the window is the whole sequence. */
  lemma WindowWhole<T>(s: seq<T>, limit: int)
    requires limit < 0 || limit >= |s|
    ensures Window(s, 0, limit) == s
  {
  }

  /** A prefix holds each element no more often than the whole. */
  lemma PrefixMultiset<T>(s: seq<T>, k: nat)
    requires k <= |s|
    ensures multiset(s[..k]) <= multiset(s)
  {
    assert s == s[..k] + s[k..];
  }

  /** In a sorted sequence every element of a leading window comes before
      every element the window leaves out (`ORDER BY … LIMIT n` keeps the
      first `n`). */
  lemma WindowFirst<T>(s: seq<T>, limit: int, le: (T, T) -> bool)
    requires SortedBy(s, le)
    ensures forall x, y :: x in Window(s, 0, limit) && y in s && y !in Window(s, 0, limit) ==> le(x, y)
  {
    var w := Window(s, 0, limit);
    forall x, y | x in w && y in s && y !in w ensures le(x, y) {
      var i :| 0 <= i < |w| && w[i] == x;
      var j :| 0 <= j < |s| && s[j] == y;
      assert s[i] == x;
    }
  }

  /** `r` is the page `LIMIT limit OFFSET skip` of `ordered`, each row as
      `f` shows it: a negative offset counts as none and a negative limit
      as no limit. */
  ghost predicate IsPage<T, U>(r: seq<U>, ordered: seq<T>, f: T -> U, skip: int, limit: int) {
    var start := if skip < 0 then 0 else Min(skip, |ordered|);
    && |r| == (if limit < 0 then |ordered| - start else Min(limit, |ordered| - start))
    && forall i :: 0 <= i < |r| ==> r[i] == f(ordered[start + i])
  }

  /** The mapped window is the page. */
  lemma MapWindowIsPage<T, U>(s: seq<T>, f: T -> U, skip: int, limit: int)
    ensures IsPage(Map(Window(s, skip, limit), f), s, f, skip, limit)
  {
  }

  /** A page from offset 0 that the limit does not cut is the whole
      sequence, mapped. */
  lemma WholePage<T, U>(r: seq<U>, s: seq<T>, f: T -> U, limit: int)
    requires IsPage(r, s, f, 0, limit) && (limit < 0 || limit >= |s|)
    ensures r == Map(s, f)
  {
    assert |r| == |s|;
  }

  /** Every element's image is in the mapped sequence. */
  lemma MapHasImages<T, U>(s: seq<T>, f: T -> U)
    ensures forall x :: x in s ==> f(x) in Map(s, f)
  {
    forall x | x in s ensures f(x) in Map(s, f) {
      var i :| 0 <= i < |s| && s[i] == x;
      assert Map(s, f)[i] == f(x);
    }
  }

  /** Consecutive mapped windows join without a gap or a repeat. */
  lemma MapWindowsTile<T, U>(s: seq<T>, f: T -> U, start: nat, size: nat)
    ensures Map(Window(s, 0, start), f) + Map(Window(s, start, size), f) == Map(Window(s, 0, start + size), f)
  {
    NextWindow(s, start, size);
    assert Window(s, 0, start) == s[..Min(start, |s|)];
    assert Window(s, 0, start + size) == s[..Min(start + size, |s|)];
    var a := Map(Window(s, 0, start), f);
    var b := Map(Window(s, start, size), f);
    var c := Map(Window(s, 0, start + size), f);
    assert |a + b| == |c|;
    forall i | 0 <= i < |c| ensures (a + b)[i] == c[i] {
      if i < |a| {
      } else {
        assert (Window(s, 0, start) + Window(s, start, size))[i] == Window(s, start, size)[i - |a|];
      }
    }
  }

  /** Reading the window that starts where a prefix ends extends the prefix
      by that window. */
  lemma NextWindow<T>(s: seq<T>, start: nat, size: nat)
    ensures s[..Min(start, |s|)] + Window(s, start, size) == s[..Min(start + size, |s|)]
  {
  }

  /** Sorting a sequence that is already in order leaves it as it is. */
  lemma {:induction false} SortOfSorted<T(!new)>(s: seq<T>, le: (T, T) -> bool)
    requires TotalPreorder(le) && SortedBy(s, le)
    ensures Sort(s, le) == s
    decreases |s|
  {
    if s != [] {
      SortOfSorted(s[1..], le);
      assert s == [s[0]] + s[1..];
    }
  }

  /** Rewriting every element without changing its key keeps keys unique. */
  lemma MapUniqueBy<T, K>(s: seq<T>, f: T -> T, key: T -> K)
    requires UniqueBy(s, key) && forall x :: key(f(x)) == key(x)
    ensures UniqueBy(Map(s, f), key)
  {
  }

  /** The row id SQLite gives a new row: one more than the largest in use, 1
      in an empty table. */
  function NextRowId(ids: seq<int>): (r: int)
    ensures r >= 1
    ensures forall i :: 0 <= i < |ids| ==> ids[i] < r
  {
    if ids == [] then 1
    else
      var rest := NextRowId(ids[1..]);
      if ids[0] + 1 > rest then ids[0] + 1 else rest
  }

  /** A rewrite that keeps `p` on every element keeps the index of the first match. */
  lemma {:induction false} FindIndexMap<T>(s: seq<T>, f: T -> T, p: T -> bool)
    requires forall x :: x in s ==> p(f(x)) == p(x)
    ensures FindIndex(Map(s, f), p) == FindIndex(s, p)
    decreases |s|
  {
    if s != [] {
      assert Map(s, f)[1..] == Map(s[1..], f);
      FindIndexMap(s[1..], f, p);
    }
  }

  /** A rewrite that keeps `p` and leaves matching elements alone finds the same element. */
  lemma FindMapAgree<T(!new)>(s: seq<T>, f: T -> T, p: T -> bool)
    requires forall x :: x in s ==> p(f(x)) == p(x) && (p(x) ==> f(x) == x)
    ensures Find(Map(s, f), p) == Find(s, p)
  {
    FindIndexMap(s, f, p);
  }
}
