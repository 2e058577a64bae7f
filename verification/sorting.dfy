/** Python's `sorted(xs, key=...)`: a stable sort. It is modelled as
    insertion sort under a total preorder `le`, with proofs that the result
    is ordered, a permutation of the input, and keeps equal-key elements in
    their input order. Also Python's string order. */
module Sorting {

  /** `le` is total and transitive on every pair of values. */
  ghost predicate TotalPreorder<T(!new)>(le: (T, T) -> bool) {
    && (forall a, b :: le(a, b) || le(b, a))
    && (forall a, b, c :: le(a, b) && le(b, c) ==> le(a, c))
  }

  predicate Sorted<T>(xs: seq<T>, le: (T, T) -> bool) {
    forall i, j :: 0 <= i < j < |xs| ==> le(xs[i], xs[j])
  }

  /** The elements of `xs` that `le` ranks equal to `z`, in order. */
  function Peers<T>(xs: seq<T>, z: T, le: (T, T) -> bool): seq<T> {
    if |xs| == 0 then [] else PeerOf(xs[0], z, le) + Peers(xs[1..], z, le)
  }

  /** `[x]` if `le` ranks `x` equal to `z`, else nothing. */
  function PeerOf<T>(x: T, z: T, le: (T, T) -> bool): seq<T> {
    if le(x, z) && le(z, x) then [x] else []
  }

  /** Inserts `x` before the first element it does not exceed. */
  function Insert<T>(x: T, ys: seq<T>, le: (T, T) -> bool): (r: seq<T>)
    ensures multiset(r) == multiset(ys) + multiset{x}
  {
    if |ys| == 0 then [x]
    else if le(x, ys[0]) then [x] + ys
    else
      assert ys == [ys[0]] + ys[1..];
      [ys[0]] + Insert(x, ys[1..], le)
  }

  function SortBy<T>(xs: seq<T>, le: (T, T) -> bool): (r: seq<T>)
    ensures multiset(r) == multiset(xs)
  {
    if |xs| == 0 then []
    else
      assert xs == [xs[0]] + xs[1..];
      Insert(xs[0], SortBy(xs[1..], le), le)
  }

  lemma {:induction false} InsertSorted<T(!new)>(x: T, ys: seq<T>, le: (T, T) -> bool)
    requires TotalPreorder(le) && Sorted(ys, le)
    ensures Sorted(Insert(x, ys, le), le)
  {
    if |ys| > 0 && !le(x, ys[0]) {
      var tail := Insert(x, ys[1..], le);
      InsertSorted(x, ys[1..], le);
      assert le(ys[0], x);
      HeadBelow(ys, x, tail, le);
      SortedCons(ys[0], tail, le);
    }
  }

  /** The head of a sorted `ys` is below everything of `ys[1..]` with `x`
      added. */
  lemma HeadBelow<T>(ys: seq<T>, x: T, tail: seq<T>, le: (T, T) -> bool)
    requires |ys| > 0 && Sorted(ys, le) && le(ys[0], x)
    requires multiset(tail) == multiset(ys[1..]) + multiset{x}
    ensures forall j :: 0 <= j < |tail| ==> le(ys[0], tail[j])
  {
    forall j | 0 <= j < |tail|
      ensures le(ys[0], tail[j])
    {
      assert tail[j] in multiset(tail);
      if tail[j] != x {
        assert tail[j] in ys[1..];
      }
    }
  }

  lemma SortedCons<T>(y: T, tail: seq<T>, le: (T, T) -> bool)
    requires Sorted(tail, le)
    requires forall j :: 0 <= j < |tail| ==> le(y, tail[j])
    ensures Sorted([y] + tail, le)
  {
    var r := [y] + tail;
    forall i, j | 0 <= i < j < |r|
      ensures le(r[i], r[j])
    {
      assert r[j] == tail[j - 1];
      if i > 0 {
        assert r[i] == tail[i - 1];
      }
    }
  }

  /** An element inserted after a peer of `z` would not be placed after it:
      equal-ranked elements keep their order. */
  lemma {:induction false} InsertPeers<T(!new)>(x: T, ys: seq<T>, z: T, le: (T, T) -> bool)
    requires TotalPreorder(le)
    ensures Peers(Insert(x, ys, le), z, le) == PeerOf(x, z, le) + Peers(ys, z, le)
  {
    if |ys| == 0 {
      assert Peers<T>([], z, le) == [];
      assert [x][1..] == [];
    } else if le(x, ys[0]) {
      assert ([x] + ys)[1..] == ys;
    } else {
      InsertPeers(x, ys[1..], z, le);
      NotBothPeers(x, ys[0], z, le);
      PeersPastHead(x, ys, z, le);
    }
  }

  /** The step of `InsertPeers` where `x` goes past the head of `ys`. */
  lemma PeersPastHead<T>(x: T, ys: seq<T>, z: T, le: (T, T) -> bool)
    requires |ys| > 0 && !le(x, ys[0])
    requires Peers(Insert(x, ys[1..], le), z, le) == PeerOf(x, z, le) + Peers(ys[1..], z, le)
    requires PeerOf(x, z, le) == [] || PeerOf(ys[0], z, le) == []
    ensures Peers(Insert(x, ys, le), z, le) == PeerOf(x, z, le) + Peers(ys, z, le)
  {
    var tail := Insert(x, ys[1..], le);
    var px, py, rest := PeerOf(x, z, le), PeerOf(ys[0], z, le), Peers(ys[1..], z, le);
    assert Insert(x, ys, le) == [ys[0]] + tail;
    assert ([ys[0]] + tail)[1..] == tail;
    assert Peers(Insert(x, ys, le), z, le) == py + (px + rest);
    assert Peers(ys, z, le) == py + rest;
    if px == [] {
      assert px + rest == rest && px + (py + rest) == py + rest;
    } else {
      assert py == [];
      assert py + rest == rest && py + (px + rest) == px + rest;
    }
  }

  /** Two elements that `le` does not order as `x` before `y` cannot both
      rank equal to `z`. */
  lemma NotBothPeers<T(!new)>(x: T, y: T, z: T, le: (T, T) -> bool)
    requires TotalPreorder(le) && !le(x, y)
    ensures PeerOf(x, z, le) == [] || PeerOf(y, z, le) == []
  {
  }

  /** The sort is ordered. */
  lemma {:induction false} SortBySorted<T(!new)>(xs: seq<T>, le: (T, T) -> bool)
    requires TotalPreorder(le)
    ensures Sorted(SortBy(xs, le), le)
  {
    if |xs| > 0 {
      SortBySorted(xs[1..], le);
      InsertSorted(xs[0], SortBy(xs[1..], le), le);
    }
  }

  /** The sort is stable: each class of equal-ranked elements appears in
      input order. */
  lemma {:induction false} SortByStable<T(!new)>(xs: seq<T>, z: T, le: (T, T) -> bool)
    requires TotalPreorder(le)
    ensures Peers(SortBy(xs, le), z, le) == Peers(xs, z, le)
  {
    if |xs| > 0 {
      SortByStable(xs[1..], z, le);
      InsertPeers(xs[0], SortBy(xs[1..], le), z, le);
    }
  }

  /** Python's `<=` on strings: code point by code point, a proper prefix
      first. */
  predicate StrLe(a: string, b: string)
    decreases |a|
  {
    |a| == 0 || (|b| > 0 && (a[0] < b[0] || (a[0] == b[0] && StrLe(a[1..], b[1..]))))
  }

  lemma {:induction false} StrLeTotal(a: string, b: string)
    ensures StrLe(a, b) || StrLe(b, a)
    decreases |a|
  {
    if |a| > 0 && |b| > 0 && a[0] == b[0] {
      StrLeTotal(a[1..], b[1..]);
    }
  }

  lemma {:induction false} StrLeTrans(a: string, b: string, c: string)
    requires StrLe(a, b) && StrLe(b, c)
    ensures StrLe(a, c)
    decreases |a|
  {
    if |a| > 0 && a[0] == b[0] && b[0] == c[0] {
      StrLeTrans(a[1..], b[1..], c[1..]);
    }
  }

  /** Ordering values by an integer key is a total preorder. */
  lemma ByIntKey<T(!new)>(key: T -> int)
    ensures TotalPreorder((a: T, b: T) => key(a) <= key(b))
  {
  }
}
