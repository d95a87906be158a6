/** The union-find over provisional labels: parents never exceed children, `Find` halves
    paths, `Union` keeps the smaller root. */
module UnionFind {

  /** Every parent is at most its child. This is what makes following parents terminate. */
  ghost predicate Forest(p: seq<nat>) {
    forall a :: 0 <= a < |p| ==> p[a] <= a
  }

  /** The representative of `a`: follow parents until one points at itself. */
  ghost function Root(p: seq<nat>, a: nat): (r: nat)
    requires Forest(p) && a < |p|
    ensures r <= a && p[r] == r
  {
    if p[a] == a then a else Root(p, p[a])
  }

  /** The partition into representatives is the same in both forests. */
  ghost predicate SameRoots(p: seq<nat>, q: seq<nat>)
    requires Forest(p) && Forest(q)
  {
    |p| == |q| && forall b :: 0 <= b < |p| ==> Root(q, b) == Root(p, b)
  }

  /** `q` is `p` with the classes of `ra` and `rb` joined under the smaller of the two. */
  ghost predicate Joined(p: seq<nat>, q: seq<nat>, ra: nat, rb: nat)
    requires Forest(p) && Forest(q)
  {
    && |p| == |q|
    && forall b :: 0 <= b < |p| ==>
         Root(q, b) == (if Root(p, b) == ra || Root(p, b) == rb
                        then (if ra < rb then ra else rb) else Root(p, b))
  }

  /** The labels below `n` point directly at their roots. */
  ghost predicate FlatBelow(p: seq<nat>, n: nat)
    requires Forest(p) && n <= |p|
  {
    forall b :: 0 <= b < n ==> p[b] == Root(p, b)
  }

  /** One halving step, `p[a] := p[p[a]]`, preserves every representative. */
  lemma {:induction false} HalvingKeepsRoot(p: seq<nat>, a: nat, b: nat)
    requires Forest(p) && a < |p| && b < |p|
    ensures Forest(p[a := p[p[a]]])
    ensures Root(p[a := p[p[a]]], b) == Root(p, b)
    decreases b
  {
    var q := p[a := p[p[a]]];
    assert Forest(q);
    if q[b] != b {
      HalvingKeepsRoot(p, a, q[b]);
    }
  }

  /** Hanging root `hi` under the smaller root `lo` moves exactly the class of `hi`. */
  lemma {:induction false} LinkMovesClass(p: seq<nat>, lo: nat, hi: nat, b: nat)
    requires Forest(p) && lo < hi < |p| && b < |p|
    requires p[lo] == lo && p[hi] == hi
    ensures Forest(p[hi := lo])
    ensures Root(p[hi := lo], b) == if Root(p, b) == hi then lo else Root(p, b)
    decreases b
  {
    if b != hi && p[b] != b {
      LinkMovesClass(p, lo, hi, p[b]);
    }
  }

  /** Opening a new label adds a singleton class and changes no other. */
  lemma {:induction false} AppendKeepsRoot(p: seq<nat>, b: nat)
    requires Forest(p) && b <= |p|
    ensures Forest(p + [|p|])
    ensures Root(p + [|p|], b) == if b == |p| then b else Root(p, b)
    decreases b
  {
    if b < |p| && p[b] != b {
      AppendKeepsRoot(p, p[b]);
    }
  }

  /** The label table of one run: `parent` is the union-find part of the per-label records. */
  class LabelForest {
    const parent: array<nat>

    constructor (capacity: nat)
      ensures fresh(parent) && parent.Length == capacity
    {
      parent := new nat[capacity];
    }

    /** The part of the table in use. */
    ghost function Used(n: nat): seq<nat>
      requires n <= parent.Length
      reads parent
    {
      parent[..n]
    }

    /** Find with path halving over the first `n` labels. */
    method Find(a: nat, ghost n: nat) returns (r: nat)
      requires a < n <= parent.Length && Forest(Used(n))
      modifies parent
      ensures Forest(Used(n)) && SameRoots(old(Used(n)), Used(n))
      ensures r == Root(old(Used(n)), a)
      ensures forall b :: 0 <= b < n ==> parent[b] <= old(parent[b])
      ensures old(FlatBelow(Used(n), a)) ==> FlatBelow(Used(n), a + 1)
      ensures parent[n..] == old(parent[n..])
    {
      ghost var p0 := Used(n);
      r := a;
      while parent[r] != r
        invariant r <= a
        invariant Forest(Used(n)) && SameRoots(p0, Used(n))
        invariant Root(p0, r) == Root(p0, a)
        invariant forall b :: 0 <= b < n ==> parent[b] <= p0[b]
        invariant FlatBelow(p0, a) ==> Used(n) == (if r == a then p0 else p0[a := r]) && (r != a ==> r == Root(p0, a))
        invariant parent[n..] == old(parent[n..])
        decreases r
      {
        ghost var p := Used(n);
        forall b | 0 <= b < n
          ensures Forest(p[r := p[p[r]]]) && Root(p[r := p[p[r]]], b) == Root(p, b)
        {
          HalvingKeepsRoot(p, r, b);
        }
        assert FlatBelow(p0, a) ==> r == a && p == p0 by {
          assert p[r] != r;
        }
        assert Root(p, r) == Root(p, p[p[r]]);
        parent[r] := parent[parent[r]];
        assert Used(n) == p[r := p[p[r]]];
        r := parent[r];
      }
      assert Root(Used(n), r) == r;
    }

    /** Union by smaller index. */
    method Union(a: nat, b: nat, ghost n: nat)
      requires a < n <= parent.Length && b < n && Forest(Used(n))
      modifies parent
      ensures Forest(Used(n))
      ensures Joined(old(Used(n)), Used(n), Root(old(Used(n)), a), Root(old(Used(n)), b))
      ensures parent[n..] == old(parent[n..])
    {
      ghost var p0 := Used(n);
      var ra := Find(a, n);
      ghost var p1 := Used(n);
      var rb := Find(b, n);
      if ra == rb {
        return;
      }
      ghost var p := Used(n);
      assert p[ra] == ra by { assert Root(p, ra) == Root(p1, ra) == Root(p0, ra) == ra; }
      assert p[rb] == rb by { assert Root(p, rb) == Root(p1, rb) == rb; }
      ghost var lo, hi := if ra < rb then ra else rb, if ra < rb then rb else ra;
      forall c | 0 <= c < n
        ensures Forest(p[hi := lo])
        ensures Root(p[hi := lo], c) == if Root(p, c) == hi then lo else Root(p, c)
      {
        LinkMovesClass(p, lo, hi, c);
      }
      if ra < rb {
        parent[rb] := ra;
      } else {
        parent[ra] := rb;
      }
      assert Used(n) == p[hi := lo];
    }

    /** One ascending pass of `Find` leaves every label pointing directly at its root. */
    method Flatten(n: nat)
      requires n <= parent.Length && Forest(Used(n))
      requires n > 0 ==> parent[0] == 0
      modifies parent
      ensures Forest(Used(n)) && SameRoots(old(Used(n)), Used(n))
      ensures forall l :: 0 <= l < n ==> parent[l] == Root(old(Used(n)), l)
    {
      var l := 1;
      while l < n
        invariant 1 <= l && (l <= n || n == 0)
        invariant Forest(Used(n)) && SameRoots(old(Used(n)), Used(n))
        invariant FlatBelow(Used(n), if l <= n then l else n)
      {
        var _ := Find(l, n);
        l := l + 1;
      }
    }
  }
}
