/**
 * Disjoint sets with union by size and path compression, as in
 * UnionFind.java. The `parents` and `size` arrays are the Java fields; the
 * ghost `root` gives each element's representative (the partition), and
 * the ghost `rank` grows strictly along parent links, which makes `Find`
 * terminate.
 */
module UnionFind {

  /** The elements whose representative is r. */
  ghost function ClassOf(root: seq<int>, r: int): set<int>
  {
    set y | 0 <= y < |root| && root[y] == r
  }

  /**
   * The links, on snapshots of the arrays: parent links stay in range and
   * keep the representative; representatives are roots (their own parent);
   * ranks grow along links and up to the representative.
   */
  ghost predicate Links(parents: seq<int>, root: seq<int>, rank: seq<int>)
  {
    |parents| == |root| == |rank| &&
    (forall x :: 0 <= x < |parents| ==> 0 <= parents[x] < |parents|) &&
    (forall x :: 0 <= x < |root| ==> 0 <= root[x] < |root| && parents[root[x]] == root[x]) &&
    (forall x :: 0 <= x < |root| ==> root[parents[x]] == root[x]) &&
    (forall x :: 0 <= x < |root| && parents[x] == x ==> root[x] == x) &&
    (forall x :: 0 <= x < |root| && parents[x] != x ==> rank[parents[x]] > rank[x] && rank[root[x]] > rank[x])
  }

  /** A root's size is the number of elements it represents. */
  ghost predicate Sizes(parents: seq<int>, size: seq<int>, root: seq<int>)
  {
    |parents| == |size| == |root| &&
    forall r {:trigger ClassOf(root, r)} :: 0 <= r < |root| && parents[r] == r ==> size[r] == |ClassOf(root, r)|
  }

  ghost predicate Shape(parents: seq<int>, size: seq<int>, root: seq<int>, rank: seq<int>)
  {
    Links(parents, root, rank) && Sizes(parents, size, root)
  }

  /** The representatives after root `child` is put under root `top`. */
  ghost function Merged(root: seq<int>, child: int, top: int): (root': seq<int>)
    ensures |root'| == |root|
  {
    seq(|root|, a requires 0 <= a < |root| => if root[a] == child then top else root[a])
  }

  /** The merged class is the union of two disjoint classes. */
  lemma MergedClasses(root: seq<int>, child: int, top: int)
    requires child != top
    ensures ClassOf(Merged(root, child, top), top) == ClassOf(root, top) + ClassOf(root, child)
    ensures ClassOf(root, top) * ClassOf(root, child) == {}
    ensures forall r :: r != top && r != child ==> ClassOf(Merged(root, child, top), r) == ClassOf(root, r)
  {
    var root' := Merged(root, child, top);
    forall y ensures y in ClassOf(root', top) <==> y in ClassOf(root, top) + ClassOf(root, child) {
    }
    forall r | r != top && r != child ensures ClassOf(root', r) == ClassOf(root, r) {
      forall y ensures y in ClassOf(root', r) <==> y in ClassOf(root, r) {
      }
    }
  }

  /** Putting one root under another keeps the links well formed. */
  lemma AttachLinks(parents: seq<int>, root: seq<int>, rank: seq<int>, child: int, top: int)
    requires Links(parents, root, rank)
    requires 0 <= child < |parents| && 0 <= top < |parents| && child != top
    requires parents[child] == child && parents[top] == top
    ensures Links(parents[child := top], Merged(root, child, top),
                  rank[top := if rank[top] > rank[child] then rank[top] else rank[child] + 1])
  {
  }

  /** Putting one root under another adds its class size to the new root's. */
  lemma AttachSizes(parents: seq<int>, size: seq<int>, root: seq<int>, rank: seq<int>, child: int, top: int)
    requires Links(parents, root, rank) && Sizes(parents, size, root)
    requires 0 <= child < |parents| && 0 <= top < |parents| && child != top
    requires parents[child] == child && parents[top] == top
    ensures Sizes(parents[child := top], size[top := size[top] + size[child]], Merged(root, child, top))
  {
    MergedClasses(root, child, top);
    var root' := Merged(root, child, top);
    assert |ClassOf(root', top)| == |ClassOf(root, top)| + |ClassOf(root, child)|;
  }

  /** Putting one root under another keeps the shape. */
  lemma AttachShape(parents: seq<int>, size: seq<int>, root: seq<int>, rank: seq<int>, child: int, top: int)
    requires Shape(parents, size, root, rank)
    requires 0 <= child < |parents| && 0 <= top < |parents| && child != top
    requires parents[child] == child && parents[top] == top
    ensures Shape(parents[child := top], size[top := size[top] + size[child]], Merged(root, child, top),
                  rank[top := if rank[top] > rank[child] then rank[top] else rank[child] + 1])
  {
    AttachLinks(parents, root, rank, child, top);
    AttachSizes(parents, size, root, rank, child, top);
  }

  /** Redirecting x to its representative keeps the shape. */
  lemma CompressShape(parents: seq<int>, size: seq<int>, root: seq<int>, rank: seq<int>, x: int)
    requires Shape(parents, size, root, rank) && 0 <= x < |parents|
    ensures Shape(parents[x := root[x]], size, root, rank)
  {
  }

  /** a[i] := v, stated on the whole contents. */
  method Write(a: array<int>, i: int, v: int)
    requires 0 <= i < a.Length
    modifies a
    ensures a[..] == old(a[..])[i := v]
  {
    a[i] := v;
  }

  class UnionFind {
    var parents: array<int>
    var size: array<int>
    /** The representative of each element's set. */
    ghost var root: seq<int>
    /** Strictly increasing along every parent link. */
    ghost var rank: seq<int>

    ghost predicate Valid()
      reads this, parents, size
    {
      parents != size && Shape(parents[..], size[..], root, rank)
    }

    /** Number of elements. */
    ghost function N(): int
      reads this
    {
      |root|
    }

    /** x and y are in the same set. */
    ghost predicate InSameSet(x: int, y: int)
      reads this
      requires 0 <= x < |root| && 0 <= y < |root|
    {
      root[x] == root[y]
    }

    /** n singleton sets, each element its own root with size 1. */
    constructor(n: int)
      requires n >= 0
      ensures Valid() && fresh(parents) && fresh(size) && N() == n
      ensures forall x :: 0 <= x < n ==> root[x] == x && parents[x] == x && size[x] == 1
    {
      var p := new int[n];
      var s := new int[n];
      for i := 0 to n
        invariant forall x :: 0 <= x < i ==> p[x] == x && s[x] == 1
      {
        p[i] := i;
        s[i] := 1;
      }
      parents, size := p, s;
      root := seq(n, x => x);
      rank := seq(n, _ => 0);
      new;
      forall r | 0 <= r < n ensures ClassOf(root, r) == {r} {
      }
    }

    /** The representative of x; every link on the way is redirected to it. */
    method Find(x: int) returns (r: int)
      requires Valid() && 0 <= x < N()
      modifies parents
      ensures Valid() && root == old(root) && rank == old(rank)
      ensures r == root[x] && parents[r] == r
      decreases rank[root[x]] - rank[x]
    {
      if parents[x] != x {
        var p := Find(parents[x]);
        CompressShape(parents[..], size[..], root, rank, x);
        parents[x] := p;
      }
      r := parents[x];
    }

    /** Whether x and y are in the same set. */
    method Same(x: int, y: int) returns (b: bool)
      requires Valid() && 0 <= x < N() && 0 <= y < N()
      modifies parents
      ensures Valid() && root == old(root)
      ensures b <==> InSameSet(x, y)
    {
      var xRoot := Find(x);
      var yRoot := Find(y);
      b := xRoot == yRoot;
    }

    /**
     * Merge the sets of x and y: the root of the smaller set (x's on a tie)
     * goes under the other, whose size becomes the sum; the result is the
     * representative of the merged set.
     */
    method Union(x: int, y: int) returns (r: int)
      requires Valid() && 0 <= x < N() && 0 <= y < N()
      modifies this, parents, size
      ensures Valid() && parents == old(parents) && size == old(size) && N() == old(N())
      ensures r == root[x] && r == root[y] && parents[r] == r
      ensures old(root[x]) == old(root[y]) ==> root == old(root) && size[..] == old(size[..]) && r == old(root[x])
      ensures old(root[x]) != old(root[y]) ==>
                r == (if old(size[root[x]]) > old(size[root[y]]) then old(root[x]) else old(root[y])) &&
                size[r] == old(size[root[x]]) + old(size[root[y]]) &&
                root == Merged(old(root), if r == old(root[x]) then old(root[y]) else old(root[x]), r)
    {
      var xRoot := Find(x);
      var yRoot := Find(y);
      if xRoot == yRoot {
        return xRoot;
      }
      if size[xRoot] > size[yRoot] {
        Attach(yRoot, xRoot);
        r := xRoot;
      } else {
        Attach(xRoot, yRoot);
        r := yRoot;
      }
    }

    /** Put root `child` under root `top`, which absorbs its set and its size. */
    method Attach(child: int, top: int)
      requires Valid() && 0 <= child < N() && 0 <= top < N() && child != top
      requires parents[child] == child && parents[top] == top
      modifies this, parents, size
      ensures Valid() && parents == old(parents) && size == old(size)
      ensures parents[child] == top && size[top] == old(size[top]) + old(size[child])
      ensures root == Merged(old(root), child, top)
    {
      ghost var P, S, R, K := parents[..], size[..], root, rank;
      Write(parents, child, top);
      Write(size, top, size[top] + size[child]);
      root := Merged(root, child, top);
      rank := rank[top := if rank[top] > rank[child] then rank[top] else rank[child] + 1];
      ValidAfterAttach(P, S, R, K, child, top);
    }

    /** The state Attach leaves is valid: the arrays and ghost fields are those of AttachShape. */
    lemma ValidAfterAttach(P: seq<int>, S: seq<int>, R: seq<int>, K: seq<int>, child: int, top: int)
      requires Shape(P, S, R, K) && 0 <= child < |P| && 0 <= top < |P| && child != top
      requires P[child] == child && P[top] == top
      requires parents != size && parents[..] == P[child := top] && size[..] == S[top := S[top] + S[child]]
      requires root == Merged(R, child, top) && rank == K[top := if K[top] > K[child] then K[top] else K[child] + 1]
      ensures Valid()
    {
      AttachShape(P, S, R, K, child, top);
    }
  }

  /** In a fresh structure, two elements share a set iff they are equal. */
  lemma FreshSingletons(root: seq<int>, x: int, y: int)
    requires forall a :: 0 <= a < |root| ==> root[a] == a
    requires 0 <= x < |root| && 0 <= y < |root|
    ensures root[x] == root[y] <==> x == y
  {
  }

  /**
   * Union merges exactly the two classes: after merging root c under root t,
   * a and b share a set iff they did before, or each was in one of the two
   * merged classes.
   */
  lemma MergedPartition(root: seq<int>, c: int, t: int, a: int, b: int)
    requires 0 <= a < |root| && 0 <= b < |root|
    ensures var root' := Merged(root, c, t);
            root'[a] == root'[b] <==> root[a] == root[b] || (root[a] in {c, t} && root[b] in {c, t})
  {
  }
}
