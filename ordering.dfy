/** The shared ordering and pagination layer: every listing sorts the matching ids by a
    strict total order (an ORDER BY whose last column is the id) and then takes the
    LIMIT/OFFSET window of one page. */
module Ordering {
  import opened Sets

  /** A sort key compared lexicographically; listings put a null flag, the ordering
      column (negated for DESC) and the id (negated for DESC) into it. */
  datatype Key = Key(a: int, b: int, c: int)

  predicate KeyLess(x: Key, y: Key) {
    x.a < y.a || (x.a == y.a && (x.b < y.b || (x.b == y.b && x.c < y.c)))
  }

  /** Every key of `s` is present and its last column is the id itself, ascending for
      every element or descending for every element, so no two elements tie. */
  ghost predicate IdTieBreak(s: set<int>, keys: map<int, Key>) {
    && s <= keys.Keys
    && ((forall x | x in s :: keys[x].c == x) || (forall x | x in s :: keys[x].c == -x))
  }

  lemma TieBreakTotal(s: set<int>, keys: map<int, Key>, x: int, y: int)
    requires IdTieBreak(s, keys) && x in s && y in s && x != y
    ensures KeyLess(keys[x], keys[y]) || KeyLess(keys[y], keys[x])
  {
    assert keys[x].c != keys[y].c;
  }

  /** The element of `s` with the least key, found by removing one element at a
      time. */
  lemma {:induction false} LeastKey(s: set<int>, keys: map<int, Key>) returns (m: int)
    requires s != {} && IdTieBreak(s, keys)
    ensures m in s && forall x | x in s && x != m :: KeyLess(keys[m], keys[x])
    decreases s
  {
    var y := Pick(s);
    if s == {y} {
      m := y;
    } else {
      var rest := s - {y};
      var k := LeastKey(rest, keys);
      TieBreakTotal(s, keys, y, k);
      m := if KeyLess(keys[y], keys[k]) then y else k;
      forall x | x in s && x != m ensures KeyLess(keys[m], keys[x]) {
        if x != y && x != k {
          assert x in rest;
        }
      }
    }
  }

  lemma LeastExists(s: set<int>, keys: map<int, Key>)
    requires s != {} && IdTieBreak(s, keys)
    ensures exists m :: m in s && forall x | x in s && x != m :: KeyLess(keys[m], keys[x])
  {
    var m := LeastKey(s, keys);
  }

  /** The element of `s` that an ORDER BY puts first. */
  function Least(s: set<int>, keys: map<int, Key>): (m: int)
    requires s != {} && IdTieBreak(s, keys)
    ensures m in s && forall x | x in s && x != m :: KeyLess(keys[m], keys[x])
  {
    LeastExists(s, keys);
    var m :| m in s && forall x | x in s && x != m :: KeyLess(keys[m], keys[x]); m
  }

  /** The elements of `s` in ascending key order: what an ORDER BY produces. */
  function Sort(s: set<int>, keys: map<int, Key>): (r: seq<int>)
    requires IdTieBreak(s, keys)
    ensures |r| == |s|
    ensures forall x :: x in r <==> x in s
    ensures forall i | 0 <= i < |r| :: r[i] in s
    ensures forall i, j | 0 <= i < j < |r| :: KeyLess(keys[r[i]], keys[r[j]])
    decreases s
  {
    if s == {} then []
    else
      var m := Least(s, keys);
      var rest := Sort(s - {m}, keys);
      LeastFirst(s, keys, m, rest);
      [m] + rest
  }

  /** Putting the least element in front of a sorted list of the others keeps it
      sorted. */
  lemma LeastFirst(s: set<int>, keys: map<int, Key>, m: int, rest: seq<int>)
    requires s <= keys.Keys && m in s && forall x | x in s && x != m :: KeyLess(keys[m], keys[x])
    requires forall i | 0 <= i < |rest| :: rest[i] in s - {m}
    requires forall i, j | 0 <= i < j < |rest| :: KeyLess(keys[rest[i]], keys[rest[j]])
    ensures forall i, j | 0 <= i < j < |[m] + rest| :: KeyLess(keys[([m] + rest)[i]], keys[([m] + rest)[j]])
  {
    var r := [m] + rest;
    forall i, j | 0 <= i < j < |r| ensures KeyLess(keys[r[i]], keys[r[j]]) {
      assert r[j] == rest[j - 1];
      if i > 0 {
        assert r[i] == rest[i - 1];
      }
    }
  }

  /** In a list sorted by distinct keys that holds exactly the elements of `s`, the
      element at position `k` has exactly `k` elements of `s` with smaller keys. */
  lemma RankOfSorted(s: set<int>, keys: map<int, Key>, r: seq<int>, k: int)
    requires s <= keys.Keys && 0 <= k < |r|
    requires forall i | 0 <= i < |r| :: r[i] in s
    requires forall x | x in s :: x in r
    requires forall i, j | 0 <= i < j < |r| :: KeyLess(keys[r[i]], keys[r[j]])
    ensures Rank(s, keys, r[k]) == k
  {
    var x := r[k];
    var prefix := r[..k];
    forall i, j | 0 <= i < j < |prefix| ensures prefix[i] != prefix[j] {
      assert KeyLess(keys[r[i]], keys[r[j]]);
    }
    DistinctSeqCard(prefix);
    forall y | y in s && KeyLess(keys[y], keys[x]) ensures y in prefix {
      var i :| 0 <= i < |r| && r[i] == y;
      assert i < k;
    }
    forall y | y in prefix ensures y in s && KeyLess(keys[y], keys[x]) {
      var i :| 0 <= i < k && r[i] == y;
    }
    assert (set y | y in s && KeyLess(keys[y], keys[x])) == (set y | y in prefix);
  }

  /** How many elements of `s` have a smaller key than `x`. */
  function Rank(s: set<int>, keys: map<int, Key>, x: int): nat
    requires s <= keys.Keys && x in keys
  {
    |set y | y in s && KeyLess(keys[y], keys[x])|
  }

  lemma {:induction false} DistinctSeqCard(q: seq<int>)
    requires forall i, j | 0 <= i < j < |q| :: q[i] != q[j]
    ensures |set y | y in q| == |q|
  {
    if q != [] {
      var t := q[1..];
      DistinctSeqCard(t);
      assert forall y | y in q :: y == q[0] || y in t;
      assert (set y | y in q) == (set y | y in t) + {q[0]};
      assert q[0] !in t;
    }
  }

  /** The element at position `k` of the sorted list has exactly `k` elements before it. */
  lemma SortRank(s: set<int>, keys: map<int, Key>, k: int)
    requires IdTieBreak(s, keys) && 0 <= k < |s|
    ensures Sort(s, keys)[k] in s
    ensures Rank(s, keys, Sort(s, keys)[k]) == k
  {
    var r := Sort(s, keys);
    RankOfSorted(s, keys, r, k);
  }

  /** The `OFFSET` the services pass: Java's `int` product `(page - 1) * size`, that is
      the exact product reduced to 32-bit two's complement. */
  function Offset(page: int, size: int): (o: int)
    ensures -0x8000_0000 <= o < 0x8000_0000
    ensures (o - (page - 1) * size) % 0x1_0000_0000 == 0
  {
    var v := ((page - 1) * size) % 0x1_0000_0000;
    if v < 0x8000_0000 then v else v - 0x1_0000_0000
  }

  /** While the product fits in an `int`, the offset is the product itself. */
  lemma OffsetExact(page: int, size: int)
    requires 0 <= (page - 1) * size < 0x8000_0000
    ensures Offset(page, size) == (page - 1) * size
  {
  }

  /** Past that it wraps: page 1073741825 asks for offset -2147483648 with size 2 and
      for offset 0, the first page again, with size 4. */
  lemma OffsetWraps()
    ensures Offset(1073741825, 2) == -0x8000_0000
    ensures Offset(1073741825, 4) == 0
  {
  }

  /** `LIMIT size OFFSET lo`: the rows from position `lo` on, at most `size` of them. */
  function Window<T>(rows: seq<T>, lo: nat, size: int): (w: seq<T>)
    requires size >= 1
    ensures lo >= |rows| ==> w == []
    ensures lo < |rows| ==> |w| == Smaller(size, |rows| - lo)
    ensures forall i | 0 <= i < |w| :: lo + i < |rows| && w[i] == rows[lo + i]
  {
    if lo >= |rows| then []
    else rows[lo..if lo + size < |rows| then lo + size else |rows|]
  }

  /** Every row is shown exactly once when one pages through: row `i` is entry
      `i % size` of page `i / size + 1`. */
  lemma WindowCovers<T>(rows: seq<T>, size: int, i: int)
    requires size >= 1 && 0 <= i < |rows|
    ensures i % size < |Window(rows, i / size * size, size)|
    ensures Window(rows, i / size * size, size)[i % size] == rows[i]
  {
    var p := i / size;
    var q := i % size;
    assert i == p * size + q;
    assert p >= 0;
    assert p * size <= i;
  }

  /** The `i`-th item of a page of a sorted listing is the element with exactly
      `lo + i` elements before it: the pagination contract stated without reference
      to how the listing is produced. */
  lemma PageRank(s: set<int>, keys: map<int, Key>, lo: nat, size: int, i: int)
    requires IdTieBreak(s, keys) && size >= 1
    requires 0 <= i < |Window(Sort(s, keys), lo, size)|
    ensures Window(Sort(s, keys), lo, size)[i] in s
    ensures Rank(s, keys, Window(Sort(s, keys), lo, size)[i]) == lo + i
  {
    assert Window(Sort(s, keys), lo, size)[i] == Sort(s, keys)[lo + i];
    SortRank(s, keys, lo + i);
  }

  /** Every item of a page, with its rank among all the listed elements. */
  lemma PageRanks(s: set<int>, keys: map<int, Key>, lo: nat, size: int)
    requires IdTieBreak(s, keys) && size >= 1
    ensures forall i | 0 <= i < |Window(Sort(s, keys), lo, size)| ::
      Window(Sort(s, keys), lo, size)[i] in s && Rank(s, keys, Window(Sort(s, keys), lo, size)[i]) == lo + i
  {
    forall i | 0 <= i < |Window(Sort(s, keys), lo, size)|
      ensures Window(Sort(s, keys), lo, size)[i] in s
      ensures Rank(s, keys, Window(Sort(s, keys), lo, size)[i]) == lo + i
    {
      PageRank(s, keys, lo, size, i);
    }
  }

  /** One page of the elements of `s` in key order.  The contract pins the page down
      completely: it holds the elements ranked `lo` onwards, as many as fit, in
      ascending key order. */
  function SortedPage(s: set<int>, keys: map<int, Key>, lo: nat, size: int): (w: seq<int>)
    requires IdTieBreak(s, keys) && size >= 1
    ensures |w| == if lo >= |s| then 0 else Smaller(size, |s| - lo)
    ensures forall i | 0 <= i < |w| :: w[i] in s && Rank(s, keys, w[i]) == lo + i
    ensures forall i, j | 0 <= i < j < |w| :: KeyLess(keys[w[i]], keys[w[j]])
  {
    PageRanks(s, keys, lo, size);
    Window(Sort(s, keys), lo, size)
  }

  /** A smaller key means a smaller rank. */
  lemma RankMonotone(s: set<int>, keys: map<int, Key>, x: int, y: int)
    requires IdTieBreak(s, keys) && x in s && y in s
    requires KeyLess(keys[x], keys[y])
    ensures Rank(s, keys, x) < Rank(s, keys, y)
  {
    var below := set z | z in s && KeyLess(keys[z], keys[x]);
    var belowY := set z | z in s && KeyLess(keys[z], keys[y]);
    assert below <= belowY;
    assert x in belowY - below;
    assert belowY == below + (belowY - below);
  }

  /** Distinct elements have distinct ranks. */
  lemma RankDistinct(s: set<int>, keys: map<int, Key>, x: int, y: int)
    requires IdTieBreak(s, keys) && x in s && y in s && x != y
    ensures Rank(s, keys, x) != Rank(s, keys, y)
  {
    TieBreakTotal(s, keys, x, y);
    if KeyLess(keys[x], keys[y]) {
      RankMonotone(s, keys, x, y);
    } else {
      RankMonotone(s, keys, y, x);
    }
  }

  /** Of two distinct elements, either the second has the smaller key or the first
      the smaller rank. */
  lemma RankCompare(s: set<int>, keys: map<int, Key>, x: int, y: int)
    requires IdTieBreak(s, keys) && x in s && y in s && x != y
    ensures KeyLess(keys[y], keys[x]) || Rank(s, keys, x) < Rank(s, keys, y)
  {
    TieBreakTotal(s, keys, x, y);
    if KeyLess(keys[x], keys[y]) {
      RankMonotone(s, keys, x, y);
    }
  }

  /** What the first page leaves out ranks after everything it shows: a listing of
      the "top" `size` elements really holds the best ones. */
  lemma FirstPageLeads(s: set<int>, keys: map<int, Key>, size: int, x: int, i: int)
    requires IdTieBreak(s, keys) && size >= 1
    requires x in s && x !in SortedPage(s, keys, 0, size)
    requires 0 <= i < |SortedPage(s, keys, 0, size)|
    ensures KeyLess(keys[SortedPage(s, keys, 0, size)[i]], keys[x])
  {
    var w := SortedPage(s, keys, 0, size);
    var j := Rank(s, keys, x);
    if j < |w| {
      RankDistinct(s, keys, x, w[j]);
    }
    RankCompare(s, keys, x, w[i]);
  }

  function Smaller(a: int, b: int): int {
    if a < b then a else b
  }

  function Larger(a: int, b: int): int {
    if a < b then b else a
  }

  /** Ids compared by themselves alone: the order of `ORDER BY id`. */
  function IdKeys(s: set<int>): (keys: map<int, Key>)
    ensures IdTieBreak(s, keys)
    ensures forall x | x in s :: keys[x] == Key(0, 0, x)
  {
    map x | x in s :: Key(0, 0, x)
  }

  /** The elements of a set as a list without repetitions: the rows a query without
      ORDER BY returns.  Ascending order is a choice of the model; the loops that run
      over such a list do not depend on it. */
  function Listed(s: set<int>): (q: seq<int>)
    ensures |q| == |s|
    ensures forall x :: x in q <==> x in s
    ensures forall i, j | 0 <= i < j < |q| :: q[i] < q[j]
  {
    var keys := IdKeys(s);
    var q := Sort(s, keys);
    assert forall i, j | 0 <= i < j < |q| :: KeyLess(keys[q[i]], keys[q[j]]);
    q
  }
}
