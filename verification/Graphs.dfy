/** Finite maps and the directed graphs they give as adjacency lists: paths, reachability and cycles. A node
    without an entry has no successors. */
module Graphs {

  ghost predicate SubMap<K, V>(a: map<K, V>, b: map<K, V>) {
    forall k :: k in a ==> k in b && b[k] == a[k]
  }

  type Graph<T> = map<T, seq<T>>

  ghost predicate Edge<T>(g: Graph<T>, a: T, b: T) {
    a in g && b in g[a]
  }

  ghost predicate Path<T>(g: Graph<T>, p: seq<T>) {
    |p| > 0 && forall i :: 0 <= i < |p| - 1 ==> Edge(g, p[i], p[i + 1])
  }

  ghost predicate PathFrom<T>(g: Graph<T>, p: seq<T>, a: T, b: T) {
    Path(g, p) && p[0] == a && p[|p| - 1] == b
  }

  /** `b` is reached from `a` in one or more steps. */
  ghost predicate Reaches<T(!new)>(g: Graph<T>, a: T, b: T) {
    exists p :: |p| > 1 && PathFrom(g, p, a, b)
  }

  ghost predicate Acyclic<T(!new)>(g: Graph<T>) {
    forall a :: !Reaches(g, a, a)
  }

  lemma EdgeReaches<T(!new)>(g: Graph<T>, a: T, b: T)
    requires Edge(g, a, b)
    ensures Reaches(g, a, b)
  {
    assert PathFrom(g, [a, b], a, b);
  }

  lemma JoinPaths<T>(g: Graph<T>, p: seq<T>, q: seq<T>, a: T, b: T, c: T)
    requires PathFrom(g, p, a, b) && PathFrom(g, q, b, c)
    ensures PathFrom(g, p + q[1..], a, c)
  {
    var r := p + q[1..];
    forall i | 0 <= i < |r| - 1 ensures Edge(g, r[i], r[i + 1]) {
      if i < |p| - 1 {
        assert Edge(g, p[i], p[i + 1]);
      } else {
        assert r[i] == q[i - |p| + 1] && r[i + 1] == q[i - |p| + 2];
        assert Edge(g, q[i - |p| + 1], q[i - |p| + 2]);
      }
    }
  }

  lemma ReachesTransitive<T(!new)>(g: Graph<T>, a: T, b: T, c: T)
    requires Reaches(g, a, b) && Reaches(g, b, c)
    ensures Reaches(g, a, c)
  {
    var p :| |p| > 1 && PathFrom(g, p, a, b);
    var q :| |q| > 1 && PathFrom(g, q, b, c);
    JoinPaths(g, p, q, a, b, c);
  }

  /** The first step of a path. */
  lemma ReachesFirst<T(!new)>(g: Graph<T>, a: T, c: T) returns (b: T)
    requires Reaches(g, a, c)
    ensures Edge(g, a, b) && (b == c || Reaches(g, b, c))
  {
    var p :| |p| > 1 && PathFrom(g, p, a, c);
    b := p[1];
    assert Edge(g, p[0], p[1]);
    if |p| > 2 {
      var q := p[1..];
      forall i | 0 <= i < |q| - 1 ensures Edge(g, q[i], q[i + 1]) {
        assert Edge(g, p[i + 1], p[i + 2]);
      }
      assert PathFrom(g, q, b, c);
    }
  }

  /** A cycle can be walked round for ever. */
  lemma {:induction false} CycleUnrolls<T(!new)>(g: Graph<T>, a: T, n: nat) returns (p: seq<T>)
    requires Reaches(g, a, a)
    ensures |p| > n && PathFrom(g, p, a, a)
  {
    p :| |p| > 1 && PathFrom(g, p, a, a);
    if n > 1 {
      var q := CycleUnrolls(g, a, n - 1);
      JoinPaths(g, p, q, a, a, a);
      p := p + q[1..];
    }
  }
}
