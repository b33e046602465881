/** Order-preserving filtering of sequences and character search, shared by the loaders. */
module Sequences {
  import opened Wrappers

  /** The elements `y` with `f(x) == Some(y)`, for the `x` of `s` in order.
      This is the shape of every "loop, maybe append" in the loaders. */
  function FilterMap<A, B>(f: A -> Option<B>, s: seq<A>): (r: seq<B>)
    ensures |r| <= |s|
  {
    if s == [] then []
    else
      var init := FilterMap(f, s[..|s| - 1]);
      match f(s[|s| - 1])
      case Some(y) => init + [y]
      case None => init
  }

  /** The positions of `s` that `f` keeps, in increasing order. */
  function KeptIndices<A, B>(f: A -> Option<B>, s: seq<A>): (idx: seq<nat>)
    ensures forall k :: 0 <= k < |idx| ==> idx[k] < |s|
  {
    if s == [] then []
    else
      var init := KeptIndices(f, s[..|s| - 1]);
      if f(s[|s| - 1]).Some? then init + [|s| - 1] else init
  }

  ghost predicate StrictlyIncreasing(idx: seq<nat>)
  {
    forall k, l :: 0 <= k < l < |idx| ==> idx[k] < idx[l]
  }

  /** FilterMap keeps exactly the elements `f` accepts, in their original order:
      the k-th output comes from the k-th kept position, the kept positions are
      increasing, and a position is kept if and only if `f` accepts its element. */
  lemma {:induction false} FilterMapExactly<A, B>(f: A -> Option<B>, s: seq<A>)
    ensures var r, idx := FilterMap(f, s), KeptIndices(f, s);
      |idx| == |r| &&
      StrictlyIncreasing(idx) &&
      (forall k :: 0 <= k < |r| ==> f(s[idx[k]]) == Some(r[k])) &&
      (forall p :: 0 <= p < |s| ==> (f(s[p]).Some? <==> p in idx))
  {
    if s != [] {
      var init := s[..|s| - 1];
      FilterMapExactly(f, init);
      assert forall p :: 0 <= p < |init| ==> s[p] == init[p];
    }
  }

  /** Every output element is accepted by `f` from some input element. */
  lemma FilterMapElements<A, B>(f: A -> Option<B>, s: seq<A>)
    ensures forall y :: y in FilterMap(f, s) ==> exists x :: x in s && f(x) == Some(y)
  {
    var r, idx := FilterMap(f, s), KeptIndices(f, s);
    FilterMapExactly(f, s);
    forall y | y in r
      ensures exists x :: x in s && f(x) == Some(y)
    {
      var k :| 0 <= k < |r| && r[k] == y;
      assert s[idx[k]] in s;
    }
  }

  /** Filtering a concatenation filters each part. */
  lemma {:induction false} FilterMapAppend<A, B>(f: A -> Option<B>, s: seq<A>, t: seq<A>)
    ensures FilterMap(f, s + t) == FilterMap(f, s) + FilterMap(f, t)
    decreases |t|
  {
    if t == [] {
      assert s + t == s;
    } else {
      var t' := t[..|t| - 1];
      assert (s + t)[..|s + t| - 1] == s + t';
      assert (s + t)[|s + t| - 1] == t[|t| - 1];
      FilterMapAppend(f, s, t');
    }
  }

  /** Two accepted elements give their two images. */
  lemma FilterMapPair<A, B>(f: A -> Option<B>, x: A, y: A)
    requires f(x).Some? && f(y).Some?
    ensures FilterMap(f, [x, y]) == [f(x).value, f(y).value]
  {
    assert [x, y][..1] == [x] && [x][..0] == [];
  }

  /** Number of elements of `s` that `f` accepts. */
  function CountKept<A, B>(f: A -> Option<B>, s: seq<A>): (n: nat)
    ensures n <= |s|
  {
    if s == [] then 0
    else CountKept(f, s[..|s| - 1]) + (if f(s[|s| - 1]).Some? then 1 else 0)
  }

  lemma {:induction false} FilterMapLength<A, B>(f: A -> Option<B>, s: seq<A>)
    ensures |FilterMap(f, s)| == CountKept(f, s)
  {
    if s != [] {
      FilterMapLength(f, s[..|s| - 1]);
    }
  }

  lemma RowMajor(a: nat, b: nat, i: nat, m: nat)
    requires a < i && b < m
    ensures a * m + b < i * m
  {
    assert (a + 1) * m <= i * m;
  }

  lemma MulStep(i: nat, m: nat)
    requires i > 0
    ensures (i - 1) * m + m == i * m
  {
  }

  /** Row a of `g`, cut to its first j columns. */
  function Row<T>(g: (nat, nat) -> T, a: nat, j: nat): (r: seq<T>)
    ensures |r| == j
  {
    if j == 0 then [] else Row(g, a, j - 1) + [g(a, j - 1)]
  }

  lemma {:induction false} RowAt<T>(g: (nat, nat) -> T, a: nat, j: nat, b: nat)
    requires b < j
    ensures Row(g, a, j)[b] == g(a, b)
  {
    if b < j - 1 {
      RowAt(g, a, j - 1, b);
    }
  }

  /** The first i rows of width m of `g`, laid out row after row. */
  function Rows<T>(g: (nat, nat) -> T, i: nat, m: nat): (r: seq<T>)
    ensures |r| == i * m
  {
    if i == 0 then []
    else
      MulStep(i, m);
      Rows(g, i - 1, m) + Row(g, i - 1, m)
  }

  /** Row-major order, one element: element a*m + b of the layout is g(a, b). */
  lemma {:induction false} RowsAt<T>(g: (nat, nat) -> T, i: nat, m: nat, a: nat, b: nat)
    requires a < i && b < m
    ensures a * m + b < |Rows(g, i, m)| && Rows(g, i, m)[a * m + b] == g(a, b)
  {
    var k := a * m + b;
    var before := Rows(g, i - 1, m);
    if a < i - 1 {
      RowMajor(a, b, i - 1, m);
      RowsAt(g, i - 1, m, a, b);
      assert Rows(g, i, m)[k] == before[k];
    } else {
      assert k == |before| + b;
      RowAt(g, a, m, b);
    }
  }

  /** Number of elements of `s` satisfying `p`. */
  function Count<T>(p: T -> bool, s: seq<T>): (n: nat)
    ensures n <= |s|
  {
    if s == [] then 0
    else Count(p, s[..|s| - 1]) + (if p(s[|s| - 1]) then 1 else 0)
  }

  lemma {:induction false} CountAppend<T>(p: T -> bool, s: seq<T>, t: seq<T>)
    ensures Count(p, s + t) == Count(p, s) + Count(p, t)
    decreases |t|
  {
    if t == [] {
      assert s + t == s;
    } else {
      var t' := t[..|t| - 1];
      assert (s + t)[..|s + t| - 1] == s + t';
      assert (s + t)[|s + t| - 1] == t[|t| - 1];
      CountAppend(p, s, t');
    }
  }

  /** An element that satisfies p is counted. */
  lemma {:induction false} CountPositive<T>(p: T -> bool, s: seq<T>, k: nat)
    requires k < |s| && p(s[k])
    ensures Count(p, s) >= 1
  {
    if k < |s| - 1 {
      CountPositive(p, s[..|s| - 1], k);
    }
  }

  /** A row none of whose entries satisfies p counts nothing. */
  lemma {:induction false} CountRowNone<T>(p: T -> bool, g: (nat, nat) -> T, a: nat, j: nat)
    requires forall b: nat :: b < j ==> !p(g(a, b))
    ensures Count(p, Row(g, a, j)) == 0
  {
    if j > 0 {
      CountRowNone(p, g, a, j - 1);
      assert Row(g, a, j)[..j - 1] == Row(g, a, j - 1);
    }
  }

  /** Rows none of whose entries satisfies p count nothing. */
  lemma {:induction false} CountRowsNone<T>(p: T -> bool, g: (nat, nat) -> T, i: nat, m: nat)
    requires forall a: nat, b: nat :: a < i && b < m ==> !p(g(a, b))
    ensures Count(p, Rows(g, i, m)) == 0
  {
    if i > 0 {
      CountRowsNone(p, g, i - 1, m);
      CountRowNone(p, g, i - 1, m);
      CountAppend(p, Rows(g, i - 1, m), Row(g, i - 1, m));
    }
  }

  /** Counting across a middle part with no element satisfying `p`. */
  lemma CountAcross<T>(p: T -> bool, prev: seq<T>, mid: seq<T>, tail: seq<T>)
    requires Count(p, mid) == 0
    ensures Count(p, prev + mid + tail) == Count(p, prev) + Count(p, tail)
  {
    CountAppend(p, prev, mid);
    CountAppend(p, prev + mid, tail);
  }

  /** Position of the first occurrence of `c` in `s` (Python's list.index, without the exception). */
  function IndexOf<T(==)>(s: seq<T>, c: T): (r: Option<nat>)
    ensures r.None? ==> c !in s
    ensures r.Some? ==> r.value < |s| && s[r.value] == c && c !in s[..r.value]
  {
    if s == [] then None
    else if s[0] == c then Some(0)
    else
      match IndexOf(s[1..], c)
      case None => None
      case Some(k) => assert s[1..][..k] == s[1..k + 1]; Some(k + 1)
  }

  /** Position of the last occurrence of `c` in `s`. */
  function LastIndexOf<T(==)>(s: seq<T>, c: T): (r: Option<nat>)
    ensures r.None? ==> c !in s
    ensures r.Some? ==> r.value < |s| && s[r.value] == c && c !in s[r.value + 1..]
  {
    if s == [] then None
    else if s[|s| - 1] == c then Some(|s| - 1)
    else
      match LastIndexOf(s[..|s| - 1], c)
      case None => assert s == s[..|s| - 1] + [s[|s| - 1]]; None
      case Some(k) =>
        assert s[k + 1..] == s[..|s| - 1][k + 1..] + [s[|s| - 1]];
        Some(k)
  }
}
