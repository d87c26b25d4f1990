/**
 * Disjoint sets over the elements `0 .. n-1` with union by rank, path
 * compression and set sizes (union_find/union_find.go).
 *
 * The ghost sequence `root` is the partition the arrays represent: element
 * `x` belongs to the set whose representative is `root[x]`.
 */
module UnionFind {

  /**
   * The representatives after merging the set of `from` into the set of
   * `to`: every member of `from`'s set now has representative `to`.
   */
  ghost function Merged(root: seq<int>, from: int, to: int): (r: seq<int>)
    ensures |r| == |root|
    ensures forall z :: 0 <= z < |root| ==> r[z] == if root[z] == from then to else root[z]
  {
    if root == [] then []
    else Merged(root[..|root| - 1], from, to) + [if root[|root| - 1] == from then to else root[|root| - 1]]
  }

  /** The number of elements whose representative is `c`: the size of `c`'s set. */
  ghost function Members(root: seq<int>, c: int): (k: nat)
    ensures k <= |root|
  {
    if root == [] then 0
    else Members(root[..|root| - 1], c) + if root[|root| - 1] == c then 1 else 0
  }

  /**
   * Merging moves the members of `from`'s set to `to`'s set and leaves every
   * other set as it was.
   */
  lemma {:induction false} MergedCount(root: seq<int>, from: int, to: int, c: int)
    requires from != to
    ensures Members(Merged(root, from, to), c)
         == if c == to then Members(root, to) + Members(root, from)
            else if c == from then 0
            else Members(root, c)
  {
    if root != [] {
      var init := root[..|root| - 1];
      MergedCount(init, from, to, c);
      var m := Merged(root, from, to);
      assert m[..|m| - 1] == Merged(init, from, to);
    }
  }

  /** `n` singleton sets. */
  ghost function Singletons(n: nat): (r: seq<int>)
    ensures |r| == n && forall z :: 0 <= z < n ==> r[z] == z
  {
    if n == 0 then [] else Singletons(n - 1) + [n - 1]
  }

  /** In `n` singletons every element is alone in its set. */
  lemma {:induction false} SingletonsCount(n: nat, c: int)
    requires 0 <= c < n
    ensures Members(Singletons(n), c) == 1
  {
    assert Singletons(n)[..n - 1] == Singletons(n - 1);
    if c < n - 1 {
      SingletonsCount(n - 1, c);
    } else {
      NoMembers(Singletons(n - 1), c);
    }
  }

  /** A value that no element has as representative has no members. */
  lemma {:induction false} NoMembers(root: seq<int>, c: int)
    requires forall z :: 0 <= z < |root| ==> root[z] != c
    ensures Members(root, c) == 0
  {
    if root != [] {
      NoMembers(root[..|root| - 1], c);
    }
  }

  /**
   * Parent and representative sequences of `n` elements that agree: every
   * parent lies in its child's set, and the representatives are exactly the
   * elements that are their own parent.
   */
  ghost predicate Partition(parent: seq<int>, root: seq<int>, n: nat) {
    && |parent| == n && |root| == n
    && (forall x {:trigger root[x]} :: 0 <= x < n ==> 0 <= root[x] < n)
    && (forall x {:trigger root[root[x]]} :: 0 <= x < n ==> root[root[x]] == root[x])
    && (forall x {:trigger parent[x]} :: 0 <= x < n ==> 0 <= parent[x] < n && root[parent[x]] == root[x])
    && (forall x {:trigger parent[x]} :: 0 <= x < n ==> (parent[x] == x <==> root[x] == x))
  }

  /**
   * Ranks stay within `0 .. maxRank` and grow strictly from a child to its
   * parent and to its representative.
   */
  ghost predicate RanksGrow(parent: seq<int>, rank: seq<int>, root: seq<int>, n: nat, maxRank: int)
    requires Partition(parent, root, n)
  {
    && |rank| == n
    && (forall x {:trigger rank[x]} :: 0 <= x < n ==> 0 <= rank[x] <= maxRank)
    && (forall x {:trigger parent[x]} :: 0 <= x < n && parent[x] != x ==> rank[x] < rank[parent[x]] && rank[x] < rank[root[x]])
  }

  /** A representative's size is the number of elements in its set. */
  ghost predicate SizesCounted(size: seq<int>, root: seq<int>, n: nat) {
    && |size| == n && |root| == n
    && (forall x {:trigger size[x]} :: 0 <= x < n && root[x] == x ==> size[x] == Members(root, x))
  }

  /** Parent, rank and size arrays of `n` elements that represent the partition `root`. */
  ghost predicate Represents(parent: seq<int>, rank: seq<int>, size: seq<int>, root: seq<int>, n: nat, maxRank: int) {
    && Partition(parent, root, n)
    && RanksGrow(parent, rank, root, n, maxRank)
    && SizesCounted(size, root, n)
  }

  /** The arrays `NewUnionFind` fills in represent `n` singletons. */
  lemma SingletonsRepresent(n: nat)
    ensures Represents(Singletons(n), seq(n, _ => 0), seq(n, _ => 1), Singletons(n), n, 0)
  {
    forall x | 0 <= x < n ensures Members(Singletons(n), x) == 1 {
      SingletonsCount(n, x);
    }
  }

  /**
   * Path compression: pointing a non-representative straight at its
   * representative, and copying the representative's size into it, keeps
   * the representation.
   */
  lemma Compress(parent: seq<int>, rank: seq<int>, size: seq<int>, root: seq<int>, n: nat, maxRank: int, x: int)
    requires Represents(parent, rank, size, root, n, maxRank) && 0 <= x < n && parent[x] != x
    ensures Represents(parent[x := root[x]], rank, size[x := size[root[x]]], root, n, maxRank)
  {
  }

  /**
   * Linking: hanging representative `c` below representative `t`, adding
   * `c`'s size to `t`'s and possibly raising `t`'s rank, represents the
   * merged partition.
   */
  lemma Link(parent: seq<int>, rank: seq<int>, size: seq<int>, root: seq<int>, n: nat, maxRank: int,
             c: int, t: int, rank': seq<int>, maxRank': int)
    requires Represents(parent, rank, size, root, n, maxRank)
    requires 0 <= c < n && 0 <= t < n && c != t && root[c] == c && root[t] == t
    requires |rank'| == n && (forall z :: 0 <= z < n && z != t ==> rank'[z] == rank[z])
    requires rank[t] <= rank'[t] && rank[c] < rank'[t] && maxRank <= maxRank' && rank'[t] <= maxRank'
    ensures Represents(parent[c := t], rank', size[t := size[t] + size[c]], Merged(root, c, t), n, maxRank')
  {
    var root' := Merged(root, c, t);
    var parent', size' := parent[c := t], size[t := size[t] + size[c]];
    assert parent[t] == t && parent[c] == c;
    LinkParents(parent, rank, size, root, n, maxRank, c, t, root', parent');
    LinkRanks(parent, rank, size, root, n, maxRank, c, t, root', parent', rank', maxRank');
    LinkSizes(parent, rank, size, root, n, maxRank, c, t, root', size');
  }

  /** After linking, parents stay within their sets and the representatives are the roots. */
  lemma LinkParents(parent: seq<int>, rank: seq<int>, size: seq<int>, root: seq<int>, n: nat, maxRank: int,
                    c: int, t: int, root': seq<int>, parent': seq<int>)
    requires Represents(parent, rank, size, root, n, maxRank)
    requires 0 <= c < n && 0 <= t < n && c != t && root[c] == c && root[t] == t
    requires |root'| == n && forall z :: 0 <= z < n ==> root'[z] == if root[z] == c then t else root[z]
    requires parent' == parent[c := t]
    ensures Partition(parent', root', n)
  {
    forall x | 0 <= x < n ensures 0 <= root'[x] < n && root'[root'[x]] == root'[x] {
      if root[x] != c {
        assert root'[root[x]] == root[root[x]];
      }
    }
    forall x | 0 <= x < n ensures 0 <= parent'[x] < n && root'[parent'[x]] == root'[x] {
      if x != c {
        assert root'[parent[x]] == if root[parent[x]] == c then t else root[parent[x]];
      }
    }
  }

  /** After linking, ranks still grow from child to parent and to representative. */
  lemma LinkRanks(parent: seq<int>, rank: seq<int>, size: seq<int>, root: seq<int>, n: nat, maxRank: int, c: int, t: int,
                  root': seq<int>, parent': seq<int>, rank': seq<int>, maxRank': int)
    requires Represents(parent, rank, size, root, n, maxRank)
    requires 0 <= c < n && 0 <= t < n && c != t && root[c] == c && parent[t] == t
    requires |root'| == n && forall z :: 0 <= z < n ==> root'[z] == if root[z] == c then t else root[z]
    requires parent' == parent[c := t]
    requires |rank'| == n && (forall z :: 0 <= z < n && z != t ==> rank'[z] == rank[z])
    requires rank[t] <= rank'[t] && rank[c] < rank'[t] && maxRank <= maxRank' && rank'[t] <= maxRank'
    ensures Partition(parent', root', n) ==> RanksGrow(parent', rank', root', n, maxRank')
  {
    forall x | 0 <= x < n ensures 0 <= rank'[x] <= maxRank' {
      if x != t {
        assert rank'[x] == rank[x];
      }
    }
    forall x | 0 <= x < n && parent'[x] != x
      ensures rank'[x] < rank'[parent'[x]] && rank'[x] < rank'[root'[x]]
    {
      if x != c {
        assert parent'[x] == parent[x] && x != t && rank'[x] == rank[x];
        assert rank[parent[x]] <= rank'[parent[x]];
        assert rank[root[x]] <= rank'[root[x]];
        if root[x] == c {
          assert rank[c] < rank'[t];
        }
      }
    }
  }

  /** After linking, every representative's size is the size of its set. */
  lemma LinkSizes(parent: seq<int>, rank: seq<int>, size: seq<int>, root: seq<int>, n: nat, maxRank: int,
                  c: int, t: int, root': seq<int>, size': seq<int>)
    requires Represents(parent, rank, size, root, n, maxRank)
    requires 0 <= c < n && 0 <= t < n && c != t && root[c] == c && root[t] == t
    requires root' == Merged(root, c, t)
    requires size' == size[t := size[t] + size[c]]
    ensures SizesCounted(size', root', n)
  {
    MergedCount(root, c, t, t);
    MergedPreservesCounts(root, c, t);
    forall x | 0 <= x < n && root'[x] == x ensures size'[x] == Members(root', x) {
      assert x != c;
      if x != t {
        assert root[x] == x;
      }
    }
  }

  class UnionFind {
    var parent: array<int>
    var rank: array<int>
    var size: array<int>
    /** The number of elements. */
    ghost var n: nat
    /** The set representative of every element. */
    ghost var root: seq<int>
    /** A bound on every rank; `Find`'s recursion climbs towards higher ranks. */
    ghost var maxRank: int

    /** Three distinct arrays that represent the partition `root`. */
    ghost predicate Valid()
      reads this, parent, rank, size
    {
      && parent != rank && parent != size && rank != size
      && Represents(parent[..], rank[..], size[..], root, n, maxRank)
    }

    /** `NewUnionFind(n)`: every element alone in its own set, of size 1. */
    constructor (count: int)
      requires count >= 0
      ensures Valid() && n == count && root == Singletons(count) && rank[..] == seq(count, _ => 0)
      ensures fresh(parent) && fresh(rank) && fresh(size)
    {
      var p := new int[count];
      var s := new int[count];
      for i := 0 to count
        invariant forall x :: 0 <= x < i ==> p[x] == x && s[x] == 1
      {
        p[i] := i;
        s[i] := 1;
      }
      var r := new int[count](_ => 0);
      assert p[..] == Singletons(count) && r[..] == seq(count, _ => 0) && s[..] == seq(count, _ => 1);
      SingletonsRepresent(count);
      parent, rank, size := p, r, s;
      n, root, maxRank := count, Singletons(count), 0;
    }

    /**
     * The representative of `x`'s set. Every element on the path from `x`
     * is re-pointed at the representative and copies its size; no element
     * changes set.
     */
    method Find(x: int) returns (r: int)
      requires Valid() && 0 <= x < n
      modifies parent, size
      ensures Valid() && root == old(root)
      ensures r == root[x] && parent[x] == r && parent[r] == r
      decreases maxRank - rank[x]
    {
      if x != parent[x] {
        var p := Find(parent[x]);
        Compress(parent[..], rank[..], size[..], root, n, maxRank, x);
        parent[x] := p;
        size[x] := size[parent[x]];
      }
      return parent[x];
    }

    /** The number of elements in `x`'s set. */
    method Size(x: int) returns (s: int)
      requires Valid() && 0 <= x < n
      modifies parent, size
      ensures Valid() && root == old(root)
      ensures s == Members(root, root[x])
    {
      var r := Find(x);
      s := size[r];
    }

    /**
     * Merges the sets of `x` and `y`, hanging the representative of lower
     * rank below the other (`x`'s below `y`'s on a tie, which raises `y`'s
     * rank). A no-op on the partition when they already share a set.
     */
    method Union(x: int, y: int)
      requires Valid() && 0 <= x < n && 0 <= y < n
      modifies this, parent, rank, size
      ensures Valid() && n == old(n)
      ensures parent == old(parent) && rank == old(rank) && size == old(size)
      ensures root == UnionRoots(old(root), old(rank[..]), old(root[x]), old(root[y]))
      ensures rank[..] == UnionRanks(old(rank[..]), old(root[x]), old(root[y]))
      ensures root[x] == root[y]
    {
      var rx := Find(x);
      var ry := Find(y);
      if rx == ry {
        return;
      }
      if rank[rx] > rank[ry] {
        Hang(ry, rx);
      } else {
        Hang(rx, ry);
      }
    }

    /**
     * The linking step of `Union`: representative `c`, of rank at most
     * `t`'s, is hung below representative `t`, which takes over `c`'s size
     * and, on equal ranks, rises by one rank.
     */
    method Hang(c: int, t: int)
      requires Valid() && 0 <= c < n && 0 <= t < n && c != t && root[c] == c && root[t] == t
      requires rank[c] <= rank[t]
      modifies this, parent, rank, size
      ensures Valid() && n == old(n) && root == Merged(old(root), c, t)
      ensures parent == old(parent) && rank == old(rank) && size == old(size)
      ensures rank[..] == if old(rank[c]) == old(rank[t]) then old(rank[..])[t := old(rank[t]) + 1] else old(rank[..])
    {
      ghost var rank' := if rank[c] == rank[t] then rank[..][t := rank[t] + 1] else rank[..];
      ghost var maxRank' := if rank'[t] > maxRank then rank'[t] else maxRank;
      ghost var root' := Merged(root, c, t);
      Link(parent[..], rank[..], size[..], root, n, maxRank, c, t, rank', maxRank');
      ghost var parent', size' := parent[..][c := t], size[..][t := size[t] + size[c]];
      assert Represents(parent', rank', size', root', n, maxRank');
      Relink(c, t);
      assert parent[..] == parent' && rank[..] == rank' && size[..] == size';
      maxRank := maxRank';
      root := root';
    }

    /** The array writes of `Hang`. */
    method Relink(c: int, t: int)
      requires parent != rank && parent != size && rank != size
      requires 0 <= c < parent.Length && 0 <= t < size.Length && t < rank.Length && c < rank.Length && c < size.Length && c != t
      modifies parent, rank, size
      ensures parent[..] == old(parent[..])[c := t]
      ensures size[..] == old(size[..])[t := old(size[t]) + old(size[c])]
      ensures rank[..] == if old(rank[c]) == old(rank[t]) then old(rank[..])[t := old(rank[t]) + 1] else old(rank[..])
    {
      parent[c] := t;
      size[t] := size[t] + size[c];
      if rank[c] == rank[t] {
        rank[t] := rank[t] + 1;
      }
    }
  }

  /** The sets that a merge does not touch keep their sizes. */
  lemma MergedPreservesCounts(root: seq<int>, from: int, to: int)
    requires from != to
    ensures forall c :: c != from && c != to ==> Members(Merged(root, from, to), c) == Members(root, c)
  {
    forall c | c != from && c != to ensures Members(Merged(root, from, to), c) == Members(root, c) {
      MergedCount(root, from, to, c);
    }
  }

  /**
   * The partition after `Union` of the sets represented by `rx` and `ry`:
   * nothing changes when they are the same; otherwise the representative of
   * lower rank joins the other's set, `rx`'s joining `ry`'s on a tie.
   */
  ghost function UnionRoots(root: seq<int>, rank: seq<int>, rx: int, ry: int): (r: seq<int>)
    requires 0 <= rx < |rank| && 0 <= ry < |rank|
    ensures |r| == |root|
    ensures rx == ry ==> r == root
    ensures rx != ry && rank[rx] > rank[ry] ==> r == Merged(root, ry, rx)
    ensures rx != ry && rank[rx] <= rank[ry] ==> r == Merged(root, rx, ry)
  {
    if rx == ry then root
    else if rank[rx] > rank[ry] then Merged(root, ry, rx)
    else Merged(root, rx, ry)
  }

  /** The ranks after `Union`: a tie between different representatives raises `ry`'s. */
  ghost function UnionRanks(rank: seq<int>, rx: int, ry: int): (r: seq<int>)
    requires 0 <= rx < |rank| && 0 <= ry < |rank|
    ensures |r| == |rank| && r[ry] >= rank[ry]
    ensures forall z :: 0 <= z < |rank| && z != ry ==> r[z] == rank[z]
    ensures rx != ry && rank[rx] == rank[ry] ==> r[ry] == rank[ry] + 1
    ensures (rx == ry || rank[rx] != rank[ry]) ==> r == rank
  {
    if rx != ry && rank[rx] == rank[ry] then rank[ry := rank[ry] + 1] else rank
  }

  /**
   * Merging `from`'s set into `to`'s, seen from the elements: members of
   * either set end with representative `to`, all others keep theirs, and
   * `to`'s set has as many members as the two had together.
   */
  lemma MergeEffect(root: seq<int>, from: int, to: int)
    requires from != to
    ensures forall z :: 0 <= z < |root| && (root[z] == from || root[z] == to) ==> Merged(root, from, to)[z] == to
    ensures forall z :: 0 <= z < |root| && root[z] != from && root[z] != to ==> Merged(root, from, to)[z] == root[z]
    ensures Members(Merged(root, from, to), to) == Members(root, from) + Members(root, to)
    ensures Members(Merged(root, from, to), from) == 0
    ensures forall c :: c != from && c != to ==> Members(Merged(root, from, to), c) == Members(root, c)
  {
    MergedCount(root, from, to, to);
    MergedCount(root, from, to, from);
    MergedPreservesCounts(root, from, to);
  }

  /**
   * What `Union` of two different sets does, seen from the elements: the
   * members of both sets end with the representative of higher rank (`ry`
   * on a tie), whose set has as many members as the two had together; every
   * other element keeps its representative and every other set its size.
   */
  lemma UnionEffect(root: seq<int>, rank: seq<int>, rx: int, ry: int)
    requires 0 <= rx < |rank| && 0 <= ry < |rank| && rx != ry
    ensures var r, top := UnionRoots(root, rank, rx, ry), if rank[rx] > rank[ry] then rx else ry;
      && (forall z :: 0 <= z < |root| && (root[z] == rx || root[z] == ry) ==> r[z] == top)
      && (forall z :: 0 <= z < |root| && root[z] != rx && root[z] != ry ==> r[z] == root[z])
      && Members(r, top) == Members(root, rx) + Members(root, ry)
      && forall c :: c != rx && c != ry ==> Members(r, c) == Members(root, c)
  {
    if rank[rx] > rank[ry] {
      MergeEffect(root, ry, rx);
    } else {
      MergeEffect(root, rx, ry);
    }
  }

  /**
   * The source's test on `n = 5` elements: from singletons and zero ranks,
   * `Union(1, 2)`, `Union(3, 4)`, `Union(0, 3)` and `Union(4, 1)`, which act
   * on the representative pairs (1, 2), (3, 4), (0, 4) and (4, 2); after
   * each the merged elements share a representative, and the sets have
   * sizes 2, 2, 3 and 5.
   * The input is a parameter pinned by `requires` rather than a literal in the
   * body: the solver then unfolds the literal once, which keeps the proof cheap.
   */
  lemma UnionFindExample(n: nat)
    requires n == 5
    ensures var r0, k0 := Singletons(n), seq(n, _ => 0);
      var r1, k1 := UnionRoots(r0, k0, 1, 2), UnionRanks(k0, 1, 2);
      var r2, k2 := UnionRoots(r1, k1, 3, 4), UnionRanks(k1, 3, 4);
      var r3, k3 := UnionRoots(r2, k2, 0, 4), UnionRanks(k2, 0, 4);
      var r4 := UnionRoots(r3, k3, 4, 2);
      && (forall i :: 0 <= i < n ==> r0[i] == i && Members(r0, i) == 1)
      && r1[1] == r1[2] == 2 && Members(r1, 2) == 2
      && r2[3] == r2[4] == 4 && Members(r2, 4) == 2
      && r3[0] == r3[3] == r3[4] == 4 && r3[1] == 2 && Members(r3, 4) == 3
      && (forall i :: 0 <= i < n ==> r4[i] == r4[0]) && Members(r4, r4[0]) == 5
  {
    var r0, k0 := Singletons(n), seq(n, _ => 0);
    forall i | 0 <= i < n ensures Members(r0, i) == 1 {
      SingletonsCount(n, i);
    }
    // 1 and 2 have equal ranks: 1 joins 2, whose rank rises to 1.
    UnionEffect(r0, k0, 1, 2);
    var r1, k1 := UnionRoots(r0, k0, 1, 2), UnionRanks(k0, 1, 2);
    assert r1[0] == 0 && r1[1] == r1[2] == 2 && r1[3] == 3 && r1[4] == 4;
    // 3 and 4 have equal ranks: 3 joins 4, whose rank rises to 1.
    UnionEffect(r1, k1, 3, 4);
    var r2, k2 := UnionRoots(r1, k1, 3, 4), UnionRanks(k1, 3, 4);
    assert r2[0] == 0 && r2[1] == r2[2] == 2 && r2[3] == r2[4] == 4;
    // 0 has rank 0 and 4 rank 1: 0 joins 4.
    UnionEffect(r2, k2, 0, 4);
    var r3, k3 := UnionRoots(r2, k2, 0, 4), UnionRanks(k2, 0, 4);
    assert r3[0] == r3[3] == r3[4] == 4 && r3[1] == r3[2] == 2;
    // 4 and 2 both have rank 1: 4 joins 2.
    UnionEffect(r3, k3, 4, 2);
  }
}
