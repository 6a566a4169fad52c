/** Folds of an associative and commutative operation over finite sets and sequences: the
    meaning of "reduce all of these, each counted once". */
module Folds {

  datatype Option<+T> = None | Some(value: T)

  ghost predicate AssociativeCommutative<T(!new)>(f: (T, T) -> T) {
    && (forall a, b, c :: f(f(a, b), c) == f(a, f(b, c)))
    && (forall a, b :: f(a, b) == f(b, a))
  }

  /** f extended by a neutral element. */
  ghost function Join<T>(f: (T, T) -> T, a: Option<T>, b: Option<T>): Option<T> {
    match (a, b)
    case (None, _) => b
    case (_, None) => a
    case (Some(x), Some(y)) => Some(f(x, y))
  }

  /** The fold of g over S, in no particular order. */
  ghost function Sum<K, T>(f: (T, T) -> T, g: K -> T, S: set<K>): Option<T> {
    if S == {} then None
    else
      var k :| k in S;
      Join(f, Some(g(k)), Sum(f, g, S - {k}))
  }

  lemma JoinLaws<T(!new)>(f: (T, T) -> T, a: Option<T>, b: Option<T>, c: Option<T>)
    requires AssociativeCommutative(f)
    ensures Join(f, Join(f, a, b), c) == Join(f, a, Join(f, b, c))
    ensures Join(f, a, b) == Join(f, b, a)
  {
  }

  /** The order in which elements are picked does not matter. */
  lemma {:induction false} SumPick<K, T(!new)>(f: (T, T) -> T, g: K -> T, S: set<K>, k: K)
    requires AssociativeCommutative(f) && k in S
    ensures Sum(f, g, S) == Join(f, Some(g(k)), Sum(f, g, S - {k}))
    decreases |S|
  {
    hide AssociativeCommutative;
    var k' :| k' in S && Sum(f, g, S) == Join(f, Some(g(k')), Sum(f, g, S - {k'}));
    if k' != k {
      SumPick(f, g, S - {k'}, k);
      SumPick(f, g, S - {k}, k');
      assert S - {k} - {k'} == S - {k'} - {k};
      var rest := Sum(f, g, S - {k} - {k'});
      JoinLaws(f, Some(g(k')), Some(g(k)), rest);
      JoinLaws(f, Some(g(k)), Some(g(k')), rest);
    }
  }

  lemma SumInsert<K, T(!new)>(f: (T, T) -> T, g: K -> T, S: set<K>, k: K)
    requires AssociativeCommutative(f) && k !in S
    ensures Sum(f, g, S + {k}) == Join(f, Sum(f, g, S), Some(g(k)))
  {
    hide AssociativeCommutative;
    SumPick(f, g, S + {k}, k);
    assert S + {k} - {k} == S;
    JoinLaws(f, Some(g(k)), Sum(f, g, S), None);
  }

  lemma SumNone<K, T>(f: (T, T) -> T, g: K -> T)
    ensures Sum(f, g, {}) == None
  {
  }

  /** Disjoint parts are folded separately. */
  lemma {:induction false} SumUnion<K, T(!new)>(f: (T, T) -> T, g: K -> T, A: set<K>, B: set<K>)
    requires AssociativeCommutative(f) && A !! B
    ensures Sum(f, g, A + B) == Join(f, Sum(f, g, A), Sum(f, g, B))
    decreases |A|
  {
    hide AssociativeCommutative;
    if A == {} {
      assert A + B == B;
    } else {
      var k :| k in A;
      SumPick(f, g, A, k);
      SumPick(f, g, A + B, k);
      assert A + B - {k} == (A - {k}) + B;
      SumUnion(f, g, A - {k}, B);
      JoinLaws(f, Some(g(k)), Sum(f, g, A - {k}), Sum(f, g, B));
    }
  }

  lemma {:induction false} SumAgree<K, T(!new)>(f: (T, T) -> T, g: K -> T, h: K -> T, S: set<K>)
    requires AssociativeCommutative(f)
    requires forall k :: k in S ==> g(k) == h(k)
    ensures Sum(f, g, S) == Sum(f, h, S)
    decreases |S|
  {
    hide AssociativeCommutative;
    if S != {} {
      var k :| k in S;
      SumPick(f, g, S, k);
      SumPick(f, h, S, k);
      SumAgree(f, g, h, S - {k});
    }
  }

  /** The fold of a sequence, from left to right. */
  ghost function SumSeq<T>(f: (T, T) -> T, s: seq<T>): Option<T> {
    if s == [] then None else Join(f, SumSeq(f, s[..|s| - 1]), Some(s[|s| - 1]))
  }

  lemma SumSeqAppend<T>(f: (T, T) -> T, s: seq<T>, x: T)
    ensures SumSeq(f, s + [x]) == Join(f, SumSeq(f, s), Some(x))
    ensures SumSeq(f, []) == None
  {
    assert (s + [x])[..|s|] == s;
  }

  lemma {:induction false} SumSeqConcat<T(!new)>(f: (T, T) -> T, a: seq<T>, b: seq<T>)
    requires AssociativeCommutative(f)
    ensures SumSeq(f, a + b) == Join(f, SumSeq(f, a), SumSeq(f, b))
  {
    hide AssociativeCommutative;
    if b == [] {
      assert a + b == a;
    } else {
      var last := |b| - 1;
      assert (a + b)[..|a + b| - 1] == a + b[..last];
      SumSeqConcat(f, a, b[..last]);
      JoinLaws(f, SumSeq(f, a), SumSeq(f, b[..last]), Some(b[last]));
    }
  }

  /** Folding two sequences of the same length elementwise first. */
  lemma {:induction false} SumSeqZip<T(!new)>(f: (T, T) -> T, a: seq<T>, b: seq<T>, z: seq<T>)
    requires AssociativeCommutative(f) && |a| == |b| == |z|
    requires forall i :: 0 <= i < |z| ==> z[i] == f(a[i], b[i])
    ensures SumSeq(f, z) == Join(f, SumSeq(f, a), SumSeq(f, b))
  {
    hide AssociativeCommutative;
    if z != [] {
      var n := |z| - 1;
      SumSeqZip(f, a[..n], b[..n], z[..n]);
      var A, B, x, y := SumSeq(f, a[..n]), SumSeq(f, b[..n]), Some(a[n]), Some(b[n]);
      // (A+B)+(x+y) == (A+x)+(B+y)
      JoinLaws(f, A, B, Join(f, x, y));
      JoinLaws(f, B, x, y);
      JoinLaws(f, B, x, None);
      JoinLaws(f, x, B, y);
      JoinLaws(f, A, x, Join(f, B, y));
    }
  }

  /** The first n indices. */
  predicate IsBelow(i: int, n: int) { 0 <= i < n }

  ghost function Below(n: int): set<int> { set i | 0 <= i < n && IsBelow(i, n) }

  /** A sequence is the fold over its indices. */
  lemma {:induction false} SumSeqIndices<T(!new)>(f: (T, T) -> T, s: seq<T>, mem: int -> T)
    requires AssociativeCommutative(f) && forall i :: 0 <= i < |s| ==> mem(i) == s[i]
    ensures SumSeq(f, s) == Sum(f, mem, Below(|s|))
  {
    hide AssociativeCommutative, Sum;
    if s == [] {
      SumNone(f, mem);
      assert Below(0) == {};
    } else {
      var n := |s| - 1;
      SumSeqIndices(f, s[..n], mem);
      SumInsert(f, mem, Below(n), n);
      assert Below(n + 1) == Below(n) + {n};
    }
  }

  /** Renaming the elements one by one changes nothing. */
  lemma {:induction false} SumReindex<K, L, T(!new)>(
      f: (T, T) -> T, g: K -> T, g': L -> T, h: K -> L, S: set<K>, image: set<L>)
    requires AssociativeCommutative(f) && image == set k | k in S :: h(k)
    requires forall k :: k in S ==> g(k) == g'(h(k))
    requires forall a, b :: a in S && b in S && h(a) == h(b) ==> a == b
    ensures Sum(f, g, S) == Sum(f, g', image)
    decreases |S|
  {
    hide AssociativeCommutative;
    if S == {} {
      assert image == {};
    } else {
      var k :| k in S;
      SumPick(f, g, S, k);
      SumPick(f, g', image, h(k));
      SumReindex(f, g, g', h, S - {k}, image - {h(k)});
    }
  }
}
