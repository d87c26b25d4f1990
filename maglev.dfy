/**
 * The Maglev consistent-hash table (maglev_hash/maglev.go).
 *
 * A table of `slotCnt` slots (a prime) is shared among a sorted,
 * duplicate-free list of nodes. Each node derives a preference list, a
 * permutation of the slots, from two hashes of its name; the lookup table
 * is then filled round-robin, each node in turn taking its next preferred
 * slot that is still free. A key is routed by hashing it to a slot and
 * reading the node that owns the slot.
 *
 * The MD5 hash of a node name and the key hash (CRC32 by default) are
 * foreign code: both are parameters here.
 */
module Maglev {
  import opened Wrappers
  import opened Orders
  import opened Modular
  import opened Prime

  /** The default number of slots, the smallest prime above 10,000. */
  const DefaultSlotCnt: int := 10007

  newtype uint32 = x: int | 0 <= x < 0x1_0000_0000

  type byte = x: int | 0 <= x < 256

  /** Hash from a key to a slot candidate (`KeyHashFnType`). */
  type KeyHashFn = seq<byte> -> uint32

  /** The MD5 digest of a string read as an unsigned number (before `md5StringToModulo` reduces it). */
  type Digest = string -> nat

  datatype Error =
    | SlotCountNotPrime(slotCnt: int)
    | NodeCountOutOfRange(nodeCnt: int, slotCnt: int)

  /** The fields of the source's `MaglevHash`; a value is never changed after construction. */
  datatype MaglevHash = MaglevHash(
    slotCnt: int,
    nodeCnt: int,
    nodes: seq<string>,
    lookup: seq<int>,
    keyHashFn: KeyHashFn)

  /** What construction guarantees of a table. */
  ghost predicate Valid(m: MaglevHash) {
    && IsPrimeNumber(m.slotCnt)
    && m.nodeCnt == |m.nodes|
    && 1 <= m.nodeCnt <= m.slotCnt
    && StrictlySorted(m.nodes, LexLess)
    && |m.lookup| == m.slotCnt
    && forall s :: 0 <= s < m.slotCnt ==> 0 <= m.lookup[s] < m.nodeCnt
  }

  // ---------------------------------------------------------------------
  // Node names: deduplication and sorting (`lo.Uniq`, `sort.Strings`)
  // ---------------------------------------------------------------------

  /** Go's string order: lexicographic, a proper prefix first. */
  predicate LexLess(a: string, b: string)
    decreases |a|
  {
    if a == [] then b != []
    else b != [] && (a[0] < b[0] || (a[0] == b[0] && LexLess(a[1..], b[1..])))
  }

  lemma {:induction false} LexLessIrreflexive(a: string)
    ensures !LexLess(a, a)
    decreases |a|
  {
    if a != [] {
      LexLessIrreflexive(a[1..]);
    }
  }

  lemma {:induction false} LexLessTransitive(a: string, b: string, c: string)
    requires LexLess(a, b) && LexLess(b, c)
    ensures LexLess(a, c)
    decreases |a|
  {
    if a != [] && a[0] == b[0] && b[0] == c[0] {
      LexLessTransitive(a[1..], b[1..], c[1..]);
    }
  }

  lemma {:induction false} LexLessTotal(a: string, b: string)
    requires a != b
    ensures LexLess(a, b) || LexLess(b, a)
    decreases |a|
  {
    if a != [] && b != [] && a[0] == b[0] {
      assert a == [a[0]] + a[1..] && b == [b[0]] + b[1..];
      LexLessTotal(a[1..], b[1..]);
    }
  }

  /** Go's string order is a strict total order. */
  lemma LexLessStrictTotal()
    ensures StrictTotalOrder(LexLess)
  {
    forall a: string ensures !LexLess(a, a) {
      LexLessIrreflexive(a);
    }
    forall a: string, b: string, c: string | LexLess(a, b) && LexLess(b, c)
      ensures LexLess(a, c)
    {
      LexLessTransitive(a, b, c);
    }
    forall a: string, b: string | a != b
      ensures LexLess(a, b) || LexLess(b, a)
    {
      LexLessTotal(a, b);
    }
  }

  /** Inserts `x` into a sorted duplicate-free list, unless it is there already. */
  function Insert(s: seq<string>, x: string): (r: seq<string>)
    requires StrictlySorted(s, LexLess)
    ensures StrictlySorted(r, LexLess)
    ensures forall y :: y in r <==> y == x || y in s
    ensures |r| <= |s| + 1
    decreases |s|
  {
    if s == [] then [x]
    else if x == s[0] then s
    else if LexLess(x, s[0]) then
      LexLessInsertFront(s, x);
      [x] + s
    else
      LexLessTotal(x, s[0]);
      var r := [s[0]] + Insert(s[1..], x);
      LexLessInsertAfter(s, x, r);
      r
  }

  lemma LexLessInsertFront(s: seq<string>, x: string)
    requires StrictlySorted(s, LexLess) && s != [] && LexLess(x, s[0])
    ensures StrictlySorted([x] + s, LexLess)
  {
    forall j | 0 < j < |s| ensures LexLess(x, s[j]) {
      LexLessTransitive(x, s[0], s[j]);
    }
  }

  lemma LexLessInsertAfter(s: seq<string>, x: string, r: seq<string>)
    requires StrictlySorted(s, LexLess) && s != [] && LexLess(s[0], x)
    requires |r| >= 1 && r[0] == s[0] && StrictlySorted(r[1..], LexLess)
    requires forall y :: y in r[1..] ==> y == x || y in s[1..]
    ensures StrictlySorted(r, LexLess)
  {
    forall i, j | 0 <= i < j < |r| ensures LexLess(r[i], r[j]) {
      if i > 0 {
        assert r[1..][i - 1] == r[i] && r[1..][j - 1] == r[j];
      } else {
        assert r[j] in r[1..] by { assert r[1..][j - 1] == r[j]; }
        if r[j] != x {
          var k :| 0 <= k < |s[1..]| && s[1..][k] == r[j];
          assert s[k + 1] == r[j];
        }
      }
    }
  }

  /**
   * The node list as the constructor stores it: duplicates removed and the
   * rest sorted, so it depends only on the set of names given.
   */
  function SortedNodes(nodes: seq<string>): (r: seq<string>)
    ensures StrictlySorted(r, LexLess)
    ensures forall y :: y in r <==> y in nodes
    ensures |r| <= |nodes|
  {
    if nodes == [] then []
    else
      var r := Insert(SortedNodes(nodes[..|nodes| - 1]), nodes[|nodes| - 1]);
      assert forall y :: y in nodes <==> y in nodes[..|nodes| - 1] || y == nodes[|nodes| - 1] by {
        assert nodes == nodes[..|nodes| - 1] + [nodes[|nodes| - 1]];
      }
      r
  }

  /** Two node lists with the same members are stored identically. */
  lemma SortedNodesOrderIndependent(nodes1: seq<string>, nodes2: seq<string>)
    requires forall y :: y in nodes1 <==> y in nodes2
    ensures SortedNodes(nodes1) == SortedNodes(nodes2)
  {
    LexLessStrictTotal();
    StrictlySortedUnique(SortedNodes(nodes1), SortedNodes(nodes2), LexLess);
  }

  /** The constructor keeps one entry per distinct node name. */
  lemma SortedNodesCount(nodes: seq<string>)
    ensures |SortedNodes(nodes)| == |set y | y in nodes|
  {
    var r := SortedNodes(nodes);
    forall i, j | 0 <= i < j < |r| ensures r[i] != r[j] {
      LexLessIrreflexive(r[i]);
    }
    DistinctCard(r);
    assert (set y | y in r) == (set y | y in nodes);
  }

  // ---------------------------------------------------------------------
  // Preference lists (`buildPreferences`)
  // ---------------------------------------------------------------------

  /** Where a node's preference list starts: `md5("<node>:offset") mod slotCnt`. */
  function Offset(digest: Digest, node: string, slotCnt: int): (offset: int)
    requires slotCnt >= 2
    ensures 0 <= offset < slotCnt
  {
    digest(node + ":offset") % slotCnt
  }

  /** The step of a node's preference list: `md5("<node>:skip") mod (slotCnt - 1) + 1`. */
  function Skip(digest: Digest, node: string, slotCnt: int): (skip: int)
    requires slotCnt >= 2
    ensures 1 <= skip < slotCnt
  {
    digest(node + ":skip") % (slotCnt - 1) + 1
  }

  /** The `j`-th preferred slot is `(offset + j * skip) mod slotCnt`. */
  function PreferenceList(slotCnt: int, offset: int, skip: int): (p: seq<int>)
    requires slotCnt >= 1
  {
    seq(slotCnt, j => (offset + j * skip) % slotCnt)
  }

  /** The preference lists of all nodes, in node order. */
  function Preferences(slotCnt: int, nodes: seq<string>, digest: Digest): (prefs: seq<seq<int>>)
    requires slotCnt >= 2
  {
    seq(|nodes|, i requires 0 <= i < |nodes| =>
      PreferenceList(slotCnt, Offset(digest, nodes[i], slotCnt), Skip(digest, nodes[i], slotCnt)))
  }

  /** `p` lists every slot of `[0, slotCnt)` exactly once. */
  ghost predicate IsPermutation(p: seq<int>, slotCnt: int) {
    && |p| == slotCnt
    && (forall j :: 0 <= j < |p| ==> 0 <= p[j] < slotCnt)
    && (forall i, j :: 0 <= i < j < |p| ==> p[i] != p[j])
    && (forall s :: 0 <= s < slotCnt ==> s in p)
  }

  /**
   * For a prime slot count and a step in `[1, slotCnt)`, the arithmetic
   * progression `offset + j * skip` visits every residue exactly once.
   */
  lemma PreferenceListIsPermutation(slotCnt: int, offset: int, skip: int)
    requires IsPrimeNumber(slotCnt) && 0 <= offset < slotCnt && 1 <= skip < slotCnt
    ensures IsPermutation(PreferenceList(slotCnt, offset, skip), slotCnt)
  {
    var p := PreferenceList(slotCnt, offset, skip);
    forall i, j | 0 <= i < j < slotCnt ensures p[i] != p[j] {
      var x, y := offset + i * skip, offset + j * skip;
      assert y - x == (j - i) * skip;
      SameRemainder(x, y, slotCnt);
      NoZeroDivisors(slotCnt, j - i, skip);
    }
    DistinctCoversRange(p, slotCnt);
  }

  /** A duplicate-free list of `n` numbers from `[0, n)` contains each of them (pigeonhole). */
  lemma DistinctCoversRange(p: seq<int>, n: int)
    requires |p| == n
    requires forall j :: 0 <= j < |p| ==> 0 <= p[j] < n
    requires forall i, j :: 0 <= i < j < |p| ==> p[i] != p[j]
    ensures forall s :: 0 <= s < n ==> s in p
  {
    var elems := set x | x in p;
    var range := Range(n);
    DistinctCard(p);
    assert elems <= range;
    assert elems + range == range && elems * range == elems && elems - range == {};
    assert |range - elems| == 0;
    forall s | 0 <= s < n ensures s in p {
      assert s in range;
    }
  }

  lemma {:induction false} DistinctCard<T>(p: seq<T>)
    requires forall i, j :: 0 <= i < j < |p| ==> p[i] != p[j]
    ensures |set x | x in p| == |p|
  {
    if p != [] {
      var front := p[..|p| - 1];
      DistinctCard(front);
      assert (set x | x in p) == (set x | x in front) + {p[|p| - 1]} by {
        assert p == front + [p[|p| - 1]];
      }
      assert p[|p| - 1] !in front;
    }
  }

  /** The slots `[0, n)` as a set. */
  function Range(n: int): (r: set<int>)
    ensures forall x :: x in r <==> 0 <= x < n
    ensures n >= 0 ==> |r| == n
  {
    if n <= 0 then {} else Range(n - 1) + {n - 1}
  }

  /** Every node's preference list is a permutation of the slots. */
  lemma PreferencesArePermutations(slotCnt: int, nodes: seq<string>, digest: Digest)
    requires IsPrimeNumber(slotCnt)
    ensures |Preferences(slotCnt, nodes, digest)| == |nodes|
    ensures forall i :: 0 <= i < |nodes| ==> IsPermutation(Preferences(slotCnt, nodes, digest)[i], slotCnt)
    ensures |nodes| >= 1 ==> PermutationPrefs(Preferences(slotCnt, nodes, digest), slotCnt)
  {
    forall i | 0 <= i < |nodes|
      ensures IsPermutation(Preferences(slotCnt, nodes, digest)[i], slotCnt)
    {
      PreferenceListIsPermutation(slotCnt, Offset(digest, nodes[i], slotCnt), Skip(digest, nodes[i], slotCnt));
    }
  }

  /** Fills one preference array per node, entry by entry, as the source does. */
  method BuildPreferences(slotCnt: int, nodes: seq<string>, digest: Digest) returns (prefs: seq<seq<int>>)
    requires slotCnt >= 2
    ensures prefs == Preferences(slotCnt, nodes, digest)
  {
    prefs := [];
    for i := 0 to |nodes|
      invariant prefs == Preferences(slotCnt, nodes[..i], digest)
    {
      var row := new int[slotCnt];
      var offset := Offset(digest, nodes[i], slotCnt);
      var skip := Skip(digest, nodes[i], slotCnt);
      for j := 0 to slotCnt
        invariant forall t :: 0 <= t < j ==> row[t] == (offset + t * skip) % slotCnt
      {
        row[j] := (offset + j * skip) % slotCnt;
      }
      assert row[..] == PreferenceList(slotCnt, offset, skip);
      prefs := prefs + [row[..]];
      assert prefs == Preferences(slotCnt, nodes[..i + 1], digest) by {
        assert nodes[..i + 1][..i] == nodes[..i];
      }
    }
    assert nodes[..|nodes|] == nodes;
  }

  // ---------------------------------------------------------------------
  // The lookup table (`buildLookup`)
  // ---------------------------------------------------------------------

  /** What `buildLookup` reads: at least one node, and one list of `slotCnt` slots per node. */
  ghost predicate WellShaped(prefs: seq<seq<int>>, slotCnt: int) {
    && |prefs| >= 1
    && forall i :: 0 <= i < |prefs| ==>
         |prefs[i]| == slotCnt && forall j :: 0 <= j < slotCnt ==> 0 <= prefs[i][j] < slotCnt
  }

  /** What `buildPreferences` delivers: at least one node, each with a permutation of the slots. */
  ghost predicate PermutationPrefs(prefs: seq<seq<int>>, slotCnt: int) {
    && |prefs| >= 1
    && forall i :: 0 <= i < |prefs| ==> IsPermutation(prefs[i], slotCnt)
  }

  /**
   * The first position at or after `k` in the preference list `p` whose
   * slot is still free (negative) in `table`, or `|p|` when there is none.
   */
  function NextFree(p: seq<int>, table: seq<int>, k: int): (j: int)
    requires 0 <= k <= |p|
    requires forall x :: 0 <= x < |p| ==> 0 <= p[x] < |table|
    ensures k <= j <= |p|
    ensures j < |p| ==> table[p[j]] < 0
    ensures forall x :: k <= x < j ==> table[p[x]] >= 0
    decreases |p| - k
  {
    if k == |p| then k
    else if table[p[k]] < 0 then k
    else NextFree(p, table, k + 1)
  }

  /**
   * The round-robin fill from the state reached after `t` assignments with
   * node `i` to move next: node `i` takes the first slot of its preference
   * list, from its cursor `next[i]` on, that is still free, and the turn
   * passes to node `i + 1` (back to node 0 after the last), until all
   * slots are assigned.
   */
  function Fill(prefs: seq<seq<int>>, table: seq<int>, next: seq<int>, t: int, i: int): (r: seq<int>)
    requires WellShaped(prefs, |table|)
    requires |next| == |prefs| && forall k :: 0 <= k < |next| ==> 0 <= next[k] <= |table|
    requires 0 <= i < |prefs|
    ensures |r| == |table|
    decreases |table| - t
  {
    if t >= |table| then table
    else
      var j := NextFree(prefs[i], table, next[i]);
      if j == |table| then table
      else
        Fill(prefs, table[prefs[i][j] := i], next[i := j + 1], t + 1, if i + 1 == |prefs| then 0 else i + 1)
  }

  /** The table the greedy fill produces from an empty table and every cursor at 0. */
  function GreedyTable(prefs: seq<seq<int>>, slotCnt: int): (r: seq<int>)
    requires slotCnt >= 0 && WellShaped(prefs, slotCnt)
    ensures |r| == slotCnt
  {
    Fill(prefs, Unassigned(slotCnt), ZeroCursors(|prefs|), 0, 0)
  }

  /**
   * The state of the fill after `t` assignments: every entry is a node or
   * -1 (free), exactly `|table| - t` entries are free, and every slot a node
   * has passed over with its cursor is assigned.
   */
  ghost predicate FillInv(prefs: seq<seq<int>>, table: seq<int>, next: seq<int>, t: int) {
    && WellShaped(prefs, |table|)
    && |next| == |prefs|
    && 0 <= t <= |table|
    && (forall s :: 0 <= s < |table| ==> -1 <= table[s] < |prefs|)
    && multiset(table)[-1] == |table| - t
    && (forall k :: 0 <= k < |next| ==> 0 <= next[k] <= |table|)
    && (forall k, j :: 0 <= k < |prefs| && 0 <= j < next[k] ==> table[prefs[k][j]] >= 0)
  }

  /**
   * While a slot is free, the node whose turn it is finds one it has not
   * passed over, so the source never reads beyond a preference list.
   */
  lemma FreeSlotFound(prefs: seq<seq<int>>, table: seq<int>, next: seq<int>, t: int, i: int)
    requires PermutationPrefs(prefs, |table|) && FillInv(prefs, table, next, t) && 0 <= i < |prefs| && t < |table|
    ensures var j := NextFree(prefs[i], table, next[i]);
      j < |table| && table[prefs[i][j]] == -1
  {
    var p := prefs[i];
    assert -1 in multiset(table);
    var s :| 0 <= s < |table| && table[s] == -1;
    assert s in p;
    var x :| 0 <= x < |p| && p[x] == s;
    assert x >= next[i];
  }

  /** Taking the slot found keeps the fill state, with one assignment more. */
  lemma FillStep(prefs: seq<seq<int>>, table: seq<int>, next: seq<int>, t: int, i: int)
    requires PermutationPrefs(prefs, |table|) && FillInv(prefs, table, next, t) && 0 <= i < |prefs| && t < |table|
    ensures var j := NextFree(prefs[i], table, next[i]);
      && j < |table|
      && table[prefs[i][j]] == -1
      && FillInv(prefs, table[prefs[i][j] := i], next[i := j + 1], t + 1)
  {
    FreeSlotFound(prefs, table, next, t, i);
    var j := NextFree(prefs[i], table, next[i]);
    TakeStep(prefs, table, next, t, i, j, table[prefs[i][j] := i], next[i := j + 1]);
  }

  /** Node `i` taking the free slot at position `j`, past only taken slots, keeps the fill state. */
  lemma TakeStep(prefs: seq<seq<int>>, table: seq<int>, next: seq<int>, t: int, i: int, j: int, table': seq<int>, next': seq<int>)
    requires FillInv(prefs, table, next, t) && 0 <= i < |prefs| && t < |table|
    requires next[i] <= j < |table| && table[prefs[i][j]] == -1
    requires forall x :: next[i] <= x < j ==> table[prefs[i][x]] >= 0
    requires table' == table[prefs[i][j] := i] && next' == next[i := j + 1]
    ensures FillInv(prefs, table', next', t + 1)
  {
    FreeCountStep(table, prefs[i][j], i);
    PassedStep(prefs, table, next, i, j, table', next');
  }

  /** Assigning a free slot to a node leaves one free slot fewer. */
  lemma FreeCountStep(table: seq<int>, s: int, i: int)
    requires 0 <= s < |table| && table[s] == -1 && i >= 0
    ensures multiset(table[s := i])[-1] == multiset(table)[-1] - 1
  {
    assert multiset(table[s := i]) == multiset(table) - multiset{-1} + multiset{i};
  }

  /** The slots node `i` skips and the one it takes are all assigned afterwards. */
  lemma PassedStep(prefs: seq<seq<int>>, table: seq<int>, next: seq<int>, i: int, j: int, table': seq<int>, next': seq<int>)
    requires WellShaped(prefs, |table|) && |next| == |prefs| && 0 <= i < |prefs|
    requires forall k :: 0 <= k < |next| ==> 0 <= next[k] <= |table|
    requires forall k, y :: 0 <= k < |prefs| && 0 <= y < next[k] ==> table[prefs[k][y]] >= 0
    requires next[i] <= j < |table| && forall x :: next[i] <= x < j ==> table[prefs[i][x]] >= 0
    requires table' == table[prefs[i][j] := i] && next' == next[i := j + 1]
    ensures forall k, y :: 0 <= k < |prefs| && 0 <= y < next'[k] ==> table'[prefs[k][y]] >= 0
  {
    forall k, y | 0 <= k < |prefs| && 0 <= y < next'[k] ensures table'[prefs[k][y]] >= 0 {
      if k != i {
        assert next'[k] == next[k];
      } else if y == j {
        assert table'[prefs[i][j]] == i;
      }
    }
  }

  /** One turn of the fill, unfolded. */
  lemma FillUnfold(prefs: seq<seq<int>>, table: seq<int>, next: seq<int>, t: int, i: int)
    requires PermutationPrefs(prefs, |table|) && FillInv(prefs, table, next, t) && 0 <= i < |prefs| && t < |table|
    ensures var j := NextFree(prefs[i], table, next[i]);
      && j < |table|
      && Fill(prefs, table, next, t, i)
         == Fill(prefs, table[prefs[i][j] := i], next[i := j + 1], t + 1, if i + 1 == |prefs| then 0 else i + 1)
  {
    FreeSlotFound(prefs, table, next, t, i);
  }

  /** A table of `n` free slots. */
  function Unassigned(n: nat): (r: seq<int>)
    ensures |r| == n && forall s :: 0 <= s < n ==> r[s] == -1
  {
    seq(n, _ => -1)
  }

  /** `n` cursors at the start of their preference lists. */
  function ZeroCursors(n: nat): (r: seq<int>)
    ensures |r| == n && forall k :: 0 <= k < n ==> r[k] == 0
  {
    seq(n, _ => 0)
  }

  lemma {:induction false} UnassignedCount(n: nat, w: int)
    ensures multiset(Unassigned(n))[w] == if w == -1 then n else 0
  {
    if n > 0 {
      UnassignedCount(n - 1, w);
      assert Unassigned(n) == Unassigned(n - 1) + [-1];
    }
  }

  /** The empty table with every cursor at 0 is the fill state after no assignments. */
  lemma FillStart(prefs: seq<seq<int>>, slotCnt: nat)
    requires PermutationPrefs(prefs, slotCnt)
    ensures FillInv(prefs, Unassigned(slotCnt), ZeroCursors(|prefs|), 0)
    ensures HasShares(Unassigned(slotCnt), |prefs|, 0, 0)
  {
    UnassignedCount(slotCnt, -1);
    forall k | 0 <= k < |prefs| ensures multiset(Unassigned(slotCnt))[k] == 0 {
      UnassignedCount(slotCnt, k);
    }
  }

  /** Node `k`'s share after `passes` full rounds and `i` further turns. */
  function Share(passes: nat, i: int, k: int): nat {
    passes + (if k < i then 1 else 0)
  }

  /** One more turn for node `i` adds one to its share and to nobody else's. */
  lemma ShareStep(table: seq<int>, s: int, i: int, n: int, passes: nat)
    requires 0 <= s < |table| && table[s] == -1 && 0 <= i < n
    requires HasShares(table, n, passes, i)
    ensures HasShares(table[s := i], n, if i + 1 == n then passes + 1 else passes, if i + 1 == n then 0 else i + 1)
  {
    assert multiset(table[s := i]) == multiset(table) - multiset{-1} + multiset{i};
  }

  /** A completed fill: no free slot is left. */
  lemma FillDone(table: seq<int>, n: int)
    requires forall s :: 0 <= s < |table| ==> -1 <= table[s] < n
    requires multiset(table)[-1] == 0
    ensures forall s :: 0 <= s < |table| ==> 0 <= table[s] < n
  {
    forall s | 0 <= s < |table| ensures 0 <= table[s] < n {
      assert table[s] in multiset(table);
    }
  }

  /** The position in the round-robin after `t` turns of `n` nodes. */
  ghost predicate Turns(t: int, n: int, passes: nat, i: int) {
    0 <= i < n && t == passes * n + i
  }

  /** One more turn moves to the next node, or to a new round after the last. */
  lemma TurnsStep(t: int, n: int, passes: nat, i: int)
    requires Turns(t, n, passes, i)
    ensures Turns(t + 1, n, if i + 1 == n then passes + 1 else passes, if i + 1 == n then 0 else i + 1)
  {
  }

  /** The round and turn are determined by the number of turns taken. */
  lemma TurnsUnique(t: int, n: int, passes: nat, i: int, passes': nat, i': int)
    requires Turns(t, n, passes, i) && Turns(t, n, passes', i')
    ensures passes == passes' && i == i'
  {
    ModUnique(t, n, passes, i);
    ModUnique(t, n, passes', i');
  }

  /** Every slot of `table` is assigned to one of `n` nodes. */
  ghost predicate AllAssigned(table: seq<int>, n: int) {
    forall s :: 0 <= s < |table| ==> 0 <= table[s] < n
  }

  /** Node `k`, for each of the `n` nodes, owns `Share(total, rest, k)` slots of `table`. */
  ghost predicate HasShares(table: seq<int>, n: int, total: nat, rest: int) {
    forall k :: 0 <= k < n ==> multiset(table)[k] == Share(total, rest, k)
  }

  /**
   * From any fill state, the fill runs to completion: every slot ends up
   * assigned to a node.
   */
  lemma {:induction false} FillAssignsAll(prefs: seq<seq<int>>, table: seq<int>, next: seq<int>, t: int, i: int)
    requires PermutationPrefs(prefs, |table|) && FillInv(prefs, table, next, t) && 0 <= i < |prefs|
    ensures AllAssigned(Fill(prefs, table, next, t, i), |prefs|)
    decreases |table| - t
  {
    if t == |table| {
      FillDone(table, |prefs|);
    } else {
      FillStep(prefs, table, next, t, i);
      var j := NextFree(prefs[i], table, next[i]);
      var i' := if i + 1 == |prefs| then 0 else i + 1;
      var table', next' := table[prefs[i][j] := i], next[i := j + 1];
      FillUnfold(prefs, table, next, t, i);
      FillAssignsAll(prefs, table', next', t + 1, i');
    }
  }

  /**
   * From a fill state after `passes` full rounds and `i` further turns,
   * with every node owning as many slots as the turns it has had, and
   * `|table|` splitting into `total` full rounds and `rest` further turns,
   * node `k` ends with `Share(total, rest, k)` slots.
   */
  lemma {:induction false} FillShares(prefs: seq<seq<int>>, table: seq<int>, next: seq<int>, t: int, i: int, passes: nat, total: nat, rest: int)
    requires PermutationPrefs(prefs, |table|) && FillInv(prefs, table, next, t)
    requires Turns(t, |prefs|, passes, i) && Turns(|table|, |prefs|, total, rest)
    requires HasShares(table, |prefs|, passes, i)
    ensures HasShares(Fill(prefs, table, next, t, i), |prefs|, total, rest)
    decreases |table| - t
  {
    var n := |prefs|;
    if t == |table| {
      TurnsUnique(t, n, passes, i, total, rest);
    } else {
      FillStep(prefs, table, next, t, i);
      var j := NextFree(prefs[i], table, next[i]);
      ShareStep(table, prefs[i][j], i, n, passes);
      TurnsStep(t, n, passes, i);
      var i' := if i + 1 == n then 0 else i + 1;
      var passes' := if i + 1 == n then passes + 1 else passes;
      var table', next' := table[prefs[i][j] := i], next[i := j + 1];
      FillUnfold(prefs, table, next, t, i);
      FillShares(prefs, table', next', t + 1, i', passes', total, rest);
    }
  }

  /**
   * The greedy table assigns every slot to a node, and the nodes' shares
   * differ by at most one: node `k` owns `slotCnt / nodeCnt` slots, one more
   * when `k < slotCnt % nodeCnt`.
   */
  lemma GreedyTableCorrect(prefs: seq<seq<int>>, slotCnt: int)
    requires slotCnt >= 0 && PermutationPrefs(prefs, slotCnt)
    ensures AllAssigned(GreedyTable(prefs, slotCnt), |prefs|)
    ensures HasShares(GreedyTable(prefs, slotCnt), |prefs|, slotCnt / |prefs|, slotCnt % |prefs|)
  {
    var n := |prefs|;
    FillStart(prefs, slotCnt);
    assert Turns(slotCnt, n, slotCnt / n, slotCnt % n);
    FillAssignsAll(prefs, Unassigned(slotCnt), ZeroCursors(n), 0, 0);
    FillShares(prefs, Unassigned(slotCnt), ZeroCursors(n), 0, 0, 0, slotCnt / n, slotCnt % n);

  }

  /** Load balance: no node owns more than one slot more than any other. */
  lemma LoadBalance(prefs: seq<seq<int>>, slotCnt: int, k1: int, k2: int)
    requires slotCnt >= 0 && PermutationPrefs(prefs, slotCnt)
    requires 0 <= k1 < |prefs| && 0 <= k2 < |prefs|
    ensures multiset(GreedyTable(prefs, slotCnt))[k1] <= multiset(GreedyTable(prefs, slotCnt))[k2] + 1
  {
    GreedyTableCorrect(prefs, slotCnt);
  }

  /**
   * The arrays `buildLookup` starts from: every slot free (-1) and every
   * cursor at the head of its preference list.
   */
  method StartFill(prefs: seq<seq<int>>, slotCnt: int) returns (table: array<int>, next: array<int>)
    requires slotCnt >= 1 && PermutationPrefs(prefs, slotCnt)
    ensures fresh(table) && fresh(next) && table.Length == slotCnt
    ensures FillInv(prefs, table[..], next[..], 0)
    ensures Fill(prefs, table[..], next[..], 0, 0) == GreedyTable(prefs, slotCnt)
  {
    table := new int[slotCnt];
    for s := 0 to slotCnt
      invariant forall x :: 0 <= x < s ==> table[x] == -1
    {
      table[s] := -1;
    }
    next := new int[|prefs|](_ => 0);
    assert table[..] == Unassigned(slotCnt);
    assert next[..] == ZeroCursors(|prefs|);
    FillStart(prefs, slotCnt);
  }

  /**
   * The arrays hold a fill state after `t` assignments, with node `i` to
   * move next, from which the fill ends in `goal`.
   */
  ghost predicate OnTrack(prefs: seq<seq<int>>, table: seq<int>, next: seq<int>, t: int, i: int, goal: seq<int>) {
    && PermutationPrefs(prefs, |table|)
    && FillInv(prefs, table, next, t)
    && 0 <= i < |prefs|
    && Fill(prefs, table, next, t, i) == goal
  }

  /** One turn of the fill keeps the arrays on track towards the same final table. */
  lemma OnTrackStep(prefs: seq<seq<int>>, table: seq<int>, next: seq<int>, t: int, i: int, goal: seq<int>)
    requires OnTrack(prefs, table, next, t, i, goal) && t < |table|
    ensures var j := NextFree(prefs[i], table, next[i]);
      && j < |table|
      && table[prefs[i][j]] == -1
      && OnTrack(prefs, table[prefs[i][j] := i], next[i := j + 1], t + 1, if i + 1 == |prefs| then 0 else i + 1, goal)
  {
    FillStep(prefs, table, next, t, i);
    FillUnfold(prefs, table, next, t, i);
  }

  /**
   * Node `i`'s turn in `buildLookup`: it skips the slots of its preference
   * list that are taken, takes the first free one and moves its cursor
   * past it. The new arrays are one step of `Fill`.
   */
  method TakeTurn(prefs: seq<seq<int>>, table: array<int>, next: array<int>, i: int)
    requires table != next && 0 <= i < |prefs| == next.Length
    requires |prefs[i]| == table.Length && forall x :: 0 <= x < |prefs[i]| ==> 0 <= prefs[i][x] < table.Length
    requires 0 <= next[i] <= table.Length && NextFree(prefs[i], table[..], next[i]) < table.Length
    modifies table, next
    ensures var j := NextFree(prefs[i], old(table[..]), old(next[i]));
      && table[..] == old(table[..])[prefs[i][j] := i]
      && next[..] == old(next[..])[i := j + 1]
  {
    ghost var p := prefs[i];
    ghost var target := NextFree(p, table[..], next[i]);
    ghost var next0 := next[..];
    var c := prefs[i][next[i]];
    while table[c] >= 0
      invariant next[i] <= target
      invariant NextFree(p, old(table[..]), next[i]) == target
      invariant next[..] == next0[i := next[i]]
      invariant c == p[next[i]]
      invariant unchanged(table)
      decreases target - next[i]
    {
      next[i] := next[i] + 1;
      c := prefs[i][next[i]];
    }
    table[c] := i;
    next[i] := next[i] + 1;
  }

  /** A turn taken on the arrays keeps them on track. */
  method Turn(prefs: seq<seq<int>>, table: array<int>, next: array<int>, t: int, i: int, ghost goal: seq<int>)
    requires table != next
    requires OnTrack(prefs, table[..], next[..], t, i, goal) && t < table.Length
    modifies table, next
    ensures OnTrack(prefs, table[..], next[..], t + 1, if i + 1 == |prefs| then 0 else i + 1, goal)
  {
    OnTrackStep(prefs, table[..], next[..], t, i, goal);
    ghost var j := NextFree(prefs[i], table[..], next[i]);
    ghost var table', next' := table[..][prefs[i][j] := i], next[..][i := j + 1];
    TakeTurn(prefs, table, next, i);
    assert table[..] == table' && next[..] == next';
  }

  /**
   * One round of `buildLookup`'s outer loop: nodes `0, 1, ...` take their
   * turns in order, stopping early, with `done` set, once the last free
   * slot is taken.
   */
  method Round(prefs: seq<seq<int>>, table: array<int>, next: array<int>, filled: int, ghost goal: seq<int>)
    returns (done: bool, filled': int)
    requires table != next
    requires OnTrack(prefs, table[..], next[..], filled, 0, goal) && filled < table.Length
    modifies table, next
    ensures done ==> table[..] == goal
    ensures !done ==> OnTrack(prefs, table[..], next[..], filled', 0, goal) && filled + |prefs| <= filled' < table.Length
  {
    filled' := filled;
    for i := 0 to |prefs|
      invariant OnTrack(prefs, table[..], next[..], filled', if i == |prefs| then 0 else i, goal)
      invariant filled' == filled + i && filled' < table.Length
    {
      Turn(prefs, table, next, filled', i, goal);
      filled' := filled' + 1;
      if filled' == table.Length {
        return true, filled';
      }
    }
    done := false;
  }

  /**
   * Fills the table in place as the source does: every entry starts at -1,
   * then the nodes take turns, each skipping the slots of its preference
   * list already taken, until `slotCnt` slots are assigned.
   */
  method BuildLookup(slotCnt: int, prefs: seq<seq<int>>) returns (lookup: seq<int>)
    requires slotCnt >= 1 && PermutationPrefs(prefs, slotCnt)
    ensures lookup == GreedyTable(prefs, slotCnt)
  {
    var table, next := StartFill(prefs, slotCnt);
    var assignedSlotCnt := 0;
    ghost var goal := GreedyTable(prefs, slotCnt);
    while true
      invariant OnTrack(prefs, table[..], next[..], assignedSlotCnt, 0, goal)
      invariant assignedSlotCnt < slotCnt
      decreases slotCnt - assignedSlotCnt
    {
      var done;
      done, assignedSlotCnt := Round(prefs, table, next, assignedSlotCnt, goal);
      if done {
        return table[..];
      }
    }
  }

  // ---------------------------------------------------------------------
  // Construction and routing (`NewMaglevWithTableSize`, `NewMaglev`, `Node`)
  // ---------------------------------------------------------------------

  /**
   * The lookup table built for a prime slot count and a non-empty node list:
   * every slot is owned by a node, and node `k` owns `slotCnt / |nodes|`
   * slots, one more when `k < slotCnt % |nodes|`.
   */
  function LookupFor(slotCnt: int, nodes: seq<string>, digest: Digest): (lookup: seq<int>)
    requires IsPrimeNumber(slotCnt) && |nodes| >= 1
    ensures |lookup| == slotCnt
    ensures AllAssigned(lookup, |nodes|)
    ensures HasShares(lookup, |nodes|, slotCnt / |nodes|, slotCnt % |nodes|)
  {
    var prefs := Preferences(slotCnt, nodes, digest);
    PreferencesArePermutations(slotCnt, nodes, digest);
    GreedyTableCorrect(prefs, slotCnt);
    GreedyTable(prefs, slotCnt)
  }

  /** The table a successful construction returns. */
  ghost function Built(slotCnt: int, nodes: seq<string>, keyHashFn: KeyHashFn, digest: Digest): (m: MaglevHash)
    requires IsPrimeNumber(slotCnt) && 1 <= |SortedNodes(nodes)| <= slotCnt
    ensures Valid(m)
  {
    var sorted := SortedNodes(nodes);
    MaglevHash(slotCnt, |sorted|, sorted, LookupFor(slotCnt, sorted, digest), keyHashFn)
  }

  /**
   * Construction: the slot count must be prime; the node names are
   * deduplicated and sorted, and between 1 and `slotCnt` of them must
   * remain; then the preference lists and the lookup table are built.
   */
  method NewMaglevWithTableSize(slotCnt: int, nodes: seq<string>, keyHashFn: KeyHashFn, digest: Digest)
    returns (r: Result<MaglevHash, Error>)
    ensures !IsPrimeNumber(slotCnt) ==> r == Failure(SlotCountNotPrime(slotCnt))
    ensures IsPrimeNumber(slotCnt) && !(1 <= |SortedNodes(nodes)| <= slotCnt)
      ==> r == Failure(NodeCountOutOfRange(|SortedNodes(nodes)|, slotCnt))
    ensures r.Success? <==> IsPrimeNumber(slotCnt) && 1 <= |SortedNodes(nodes)| <= slotCnt
    ensures r.Success? ==> Valid(r.value)
    ensures r.Success? ==> r.value == Built(slotCnt, nodes, keyHashFn, digest)
  {
    var slotCntIsPrime := IsPrime(slotCnt);
    if !slotCntIsPrime {
      return Failure(SlotCountNotPrime(slotCnt));
    }
    var sorted := SortedNodes(nodes);
    if |sorted| == 0 || |sorted| > slotCnt {
      return Failure(NodeCountOutOfRange(|sorted|, slotCnt));
    }
    var prefs := BuildPreferences(slotCnt, sorted, digest);
    PreferencesArePermutations(slotCnt, sorted, digest);
    var lookup := BuildLookup(slotCnt, prefs);
    assert lookup == LookupFor(slotCnt, sorted, digest);
    return Success(MaglevHash(slotCnt, |sorted|, sorted, lookup, keyHashFn));
  }

  /** Construction with the default slot count, which is prime, so only the node count can be refused. */
  method NewMaglev(nodes: seq<string>, keyHashFn: KeyHashFn, digest: Digest) returns (r: Result<MaglevHash, Error>)
    ensures IsPrimeNumber(DefaultSlotCnt)
    ensures r.Success? <==> 1 <= |SortedNodes(nodes)| <= DefaultSlotCnt
    ensures r.Failure? ==> r.error == NodeCountOutOfRange(|SortedNodes(nodes)|, DefaultSlotCnt)
    ensures r.Success? ==> r.value == Built(DefaultSlotCnt, nodes, keyHashFn, digest)
  {
    TenThousandSevenIsPrime();
    r := NewMaglevWithTableSize(DefaultSlotCnt, nodes, keyHashFn, digest);
  }

  /** A prime is never a multiple of 2^32, so `uint32(slotCnt)` is never 0. */
  lemma PrimeNotMultipleOfWord(p: int)
    requires IsPrimeNumber(p)
    ensures p % 0x1_0000_0000 != 0
  {
    Divides(p, 0x1_0000_0000, 2);
    if p != 2 {
      assert p % 2 != 0;
    }
  }

  /**
   * The slot of a key: its hash modulo the slot count converted to
   * `uint32` (the conversion keeps the low 32 bits). It equals the hash
   * modulo the slot count whenever the slot count fits in 32 bits.
   */
  function Slot(m: MaglevHash, key: seq<byte>): (s: int)
    requires Valid(m)
    ensures 0 <= s < m.slotCnt
    ensures m.slotCnt < 0x1_0000_0000 ==> s == m.keyHashFn(key) as int % m.slotCnt
  {
    PrimeNotMultipleOfWord(m.slotCnt);
    m.keyHashFn(key) as int % (m.slotCnt % 0x1_0000_0000)
  }

  /** The node a key is routed to: the owner of the key's slot, always one of the stored nodes. */
  function Node(m: MaglevHash, key: seq<byte>): (node: string)
    requires Valid(m)
    ensures node in m.nodes
  {
    m.nodes[m.lookup[Slot(m, key)]]
  }

  /**
   * Routing depends only on the set of node names: two constructions
   * from lists with the same members send every key to the same node.
   */
  lemma NodeOrderIndependent(slotCnt: int, nodes1: seq<string>, nodes2: seq<string>, keyHashFn: KeyHashFn, digest: Digest, key: seq<byte>)
    requires IsPrimeNumber(slotCnt) && 1 <= |SortedNodes(nodes1)| <= slotCnt
    requires forall y :: y in nodes1 <==> y in nodes2
    ensures 1 <= |SortedNodes(nodes2)| <= slotCnt
    ensures Built(slotCnt, nodes1, keyHashFn, digest) == Built(slotCnt, nodes2, keyHashFn, digest)
    ensures Node(Built(slotCnt, nodes1, keyHashFn, digest), key) == Node(Built(slotCnt, nodes2, keyHashFn, digest), key)
  {
    SortedNodesOrderIndependent(nodes1, nodes2);
  }

  /**
   * Load balance of a constructed table: node `k` owns `slotCnt / nodeCnt`
   * slots, one more when `k < slotCnt % nodeCnt`, so any two nodes' shares
   * differ by at most one.
   */
  lemma BuiltLoadBalance(m: MaglevHash, slotCnt: int, nodes: seq<string>, keyHashFn: KeyHashFn, digest: Digest, k: int)
    requires IsPrimeNumber(slotCnt) && 1 <= |SortedNodes(nodes)| <= slotCnt
    requires m == Built(slotCnt, nodes, keyHashFn, digest) && 0 <= k < m.nodeCnt
    ensures multiset(m.lookup)[k] == slotCnt / m.nodeCnt + (if k < slotCnt % m.nodeCnt then 1 else 0)
  {
  }

  /**
   * Six distinct node names stay six after deduplication.
   * The input is a parameter pinned by `requires` rather than a literal in the
   * body: the solver then unfolds the literal once, which keeps the proof cheap.
   */
  lemma SixDistinctNodes(nodes: seq<string>)
    requires nodes == ["B0", "B1", "B2", "B3", "B4", "B5"]
    ensures |SortedNodes(nodes)| == 6
  {
    forall i, j | 0 <= i < j < |nodes| ensures nodes[i] != nodes[j] {
      assert nodes[i][1] != nodes[j][1];
    }
    DistinctCard(nodes);
    SortedNodesCount(nodes);
  }

  /**
   * The construction errors of the public tests: 10 slots is not prime,
   * and six distinct nodes do not fit five slots.
   */
  method NewMaglevErrorExamples(keyHashFn: KeyHashFn, digest: Digest) returns (r1: Result<MaglevHash, Error>, r2: Result<MaglevHash, Error>)
    ensures r1 == Failure(SlotCountNotPrime(10))
    ensures r2 == Failure(NodeCountOutOfRange(6, 5))
  {
    assert 10 % 2 == 0;
    r1 := NewMaglevWithTableSize(10, ["B0", "B1"], keyHashFn, digest);
    var six := ["B0", "B1", "B2", "B3", "B4", "B5"];
    SixDistinctNodes(six);
    assert IsPrimeNumber(5) by {
      assert 5 % 2 != 0 && 5 % 3 != 0 && 5 % 4 != 0;
    }
    r2 := NewMaglevWithTableSize(5, six, keyHashFn, digest);
  }

  /**
   * A turn in which node `i` takes position `j` of its preference list,
   * slot `s`, the first free one from its cursor on.
   */
  lemma FillTurn(prefs: seq<seq<int>>, table: seq<int>, next: seq<int>, t: int, i: int, j: int, s: int)
    requires WellShaped(prefs, |table|)
    requires |next| == |prefs| && forall k :: 0 <= k < |next| ==> 0 <= next[k] <= |table|
    requires 0 <= i < |prefs| && t < |table|
    requires next[i] <= j < |table| && prefs[i][j] == s && table[s] < 0
    requires forall x :: next[i] <= x < j ==> table[prefs[i][x]] >= 0
    ensures Fill(prefs, table, next, t, i)
      == Fill(prefs, table[s := i], next[i := j + 1], t + 1, if i + 1 == |prefs| then 0 else i + 1)
  {
    assert NextFree(prefs[i], table, next[i]) == j;
  }

  // The table tests below take their preference lists as a parameter pinned
  // by `requires`, which keeps each proof's unfolding of the literal cheap.

  /** Turn 0 of the fill of the threenodes table. */
  lemma ThreeNodesTurns0To1(prefs: seq<seq<int>>)
    requires prefs == [[3, 0, 4, 1, 5, 2, 6], [0, 2, 4, 6, 1, 3, 5], [3, 4, 5, 6, 0, 1, 2]]
    ensures Fill(prefs, Unassigned(7), ZeroCursors(3), 0, 0)
         == Fill(prefs, Unassigned(7)[3 := 0], ZeroCursors(3)[0 := 1], 1, 1)
  {
    assert WellShaped(prefs, 7);
    var table, next := Unassigned(7), ZeroCursors(3);
    FillTurn(prefs, table, next, 0, 0, 0, 3);
  }

  /** Turns 1 to 2 of the fill of the threenodes table. */
  lemma ThreeNodesTurns1To3(prefs: seq<seq<int>>)
    requires prefs == [[3, 0, 4, 1, 5, 2, 6], [0, 2, 4, 6, 1, 3, 5], [3, 4, 5, 6, 0, 1, 2]]
    ensures Fill(prefs, Unassigned(7)[3 := 0], ZeroCursors(3)[0 := 1], 1, 1)
         == Fill(prefs, Unassigned(7)[3 := 0][0 := 1][4 := 2], ZeroCursors(3)[0 := 1][1 := 1][2 := 2], 3, 0)
  {
    assert WellShaped(prefs, 7);
    var table, next := Unassigned(7)[3 := 0], ZeroCursors(3)[0 := 1];
    FillTurn(prefs, table, next, 1, 1, 0, 0);
    table, next := table[0 := 1], next[1 := 1];
    FillTurn(prefs, table, next, 2, 2, 1, 4);
  }

  /** Turns 3 to 4 of the fill of the threenodes table. */
  lemma ThreeNodesTurns3To5(prefs: seq<seq<int>>)
    requires prefs == [[3, 0, 4, 1, 5, 2, 6], [0, 2, 4, 6, 1, 3, 5], [3, 4, 5, 6, 0, 1, 2]]
    ensures Fill(prefs, Unassigned(7)[3 := 0][0 := 1][4 := 2], ZeroCursors(3)[0 := 1][1 := 1][2 := 2], 3, 0)
         == Fill(prefs, Unassigned(7)[3 := 0][0 := 1][4 := 2][1 := 0][2 := 1], ZeroCursors(3)[0 := 1][1 := 1][2 := 2][0 := 4][1 := 2], 5, 2)
  {
    assert WellShaped(prefs, 7);
    var table, next := Unassigned(7)[3 := 0][0 := 1][4 := 2], ZeroCursors(3)[0 := 1][1 := 1][2 := 2];
    FillTurn(prefs, table, next, 3, 0, 3, 1);
    table, next := table[1 := 0], next[0 := 4];
    FillTurn(prefs, table, next, 4, 1, 1, 2);
  }

  /** Turns 5 to 6 of the fill of the threenodes table. */
  lemma ThreeNodesTurns5To7(prefs: seq<seq<int>>)
    requires prefs == [[3, 0, 4, 1, 5, 2, 6], [0, 2, 4, 6, 1, 3, 5], [3, 4, 5, 6, 0, 1, 2]]
    ensures Fill(prefs, Unassigned(7)[3 := 0][0 := 1][4 := 2][1 := 0][2 := 1], ZeroCursors(3)[0 := 1][1 := 1][2 := 2][0 := 4][1 := 2], 5, 2)
         == Fill(prefs, Unassigned(7)[3 := 0][0 := 1][4 := 2][1 := 0][2 := 1][5 := 2][6 := 0], ZeroCursors(3)[0 := 1][1 := 1][2 := 2][0 := 4][1 := 2][2 := 3][0 := 7], 7, 1)
  {
    assert WellShaped(prefs, 7);
    var table, next := Unassigned(7)[3 := 0][0 := 1][4 := 2][1 := 0][2 := 1], ZeroCursors(3)[0 := 1][1 := 1][2 := 2][0 := 4][1 := 2];
    FillTurn(prefs, table, next, 5, 2, 2, 5);
    table, next := table[5 := 2], next[2 := 3];
    FillTurn(prefs, table, next, 6, 0, 6, 6);
  }

  /** The three-node table test: the slots go to B1, B0, B1, B0, B2, B2, B0. */
  lemma BuildLookupExampleThreeNodes(prefs: seq<seq<int>>)
    requires prefs == [[3, 0, 4, 1, 5, 2, 6], [0, 2, 4, 6, 1, 3, 5], [3, 4, 5, 6, 0, 1, 2]]
    ensures GreedyTable(prefs, 7) == [1, 0, 1, 0, 2, 2, 0]
  {
    ThreeNodesTurns0To1(prefs);
    ThreeNodesTurns1To3(prefs);
    ThreeNodesTurns3To5(prefs);
    ThreeNodesTurns5To7(prefs);
    assert Unassigned(7)[3 := 0][0 := 1][4 := 2][1 := 0][2 := 1][5 := 2][6 := 0] == [1, 0, 1, 0, 2, 2, 0];
  }

  /** Turn 0 of the fill of the twonodes table. */
  lemma TwoNodesTurns0To1(prefs: seq<seq<int>>)
    requires prefs == [[3, 0, 4, 1, 5, 2, 6], [3, 4, 5, 6, 0, 1, 2]]
    ensures Fill(prefs, Unassigned(7), ZeroCursors(2), 0, 0)
         == Fill(prefs, Unassigned(7)[3 := 0], ZeroCursors(2)[0 := 1], 1, 1)
  {
    assert WellShaped(prefs, 7);
    var table, next := Unassigned(7), ZeroCursors(2);
    FillTurn(prefs, table, next, 0, 0, 0, 3);
  }

  /** Turns 1 to 3 of the fill of the twonodes table. */
  lemma TwoNodesTurns1To4(prefs: seq<seq<int>>)
    requires prefs == [[3, 0, 4, 1, 5, 2, 6], [3, 4, 5, 6, 0, 1, 2]]
    ensures Fill(prefs, Unassigned(7)[3 := 0], ZeroCursors(2)[0 := 1], 1, 1)
         == Fill(prefs, Unassigned(7)[3 := 0][4 := 1][0 := 0][5 := 1], ZeroCursors(2)[0 := 1][1 := 2][0 := 2][1 := 3], 4, 0)
  {
    assert WellShaped(prefs, 7);
    var table, next := Unassigned(7)[3 := 0], ZeroCursors(2)[0 := 1];
    FillTurn(prefs, table, next, 1, 1, 1, 4);
    table, next := table[4 := 1], next[1 := 2];
    FillTurn(prefs, table, next, 2, 0, 1, 0);
    table, next := table[0 := 0], next[0 := 2];
    FillTurn(prefs, table, next, 3, 1, 2, 5);
  }

  /** Turns 4 to 6 of the fill of the twonodes table. */
  lemma TwoNodesTurns4To7(prefs: seq<seq<int>>)
    requires prefs == [[3, 0, 4, 1, 5, 2, 6], [3, 4, 5, 6, 0, 1, 2]]
    ensures Fill(prefs, Unassigned(7)[3 := 0][4 := 1][0 := 0][5 := 1], ZeroCursors(2)[0 := 1][1 := 2][0 := 2][1 := 3], 4, 0)
         == Fill(prefs, Unassigned(7)[3 := 0][4 := 1][0 := 0][5 := 1][1 := 0][6 := 1][2 := 0], ZeroCursors(2)[0 := 1][1 := 2][0 := 2][1 := 3][0 := 4][1 := 4][0 := 6], 7, 1)
  {
    assert WellShaped(prefs, 7);
    var table, next := Unassigned(7)[3 := 0][4 := 1][0 := 0][5 := 1], ZeroCursors(2)[0 := 1][1 := 2][0 := 2][1 := 3];
    FillTurn(prefs, table, next, 4, 0, 3, 1);
    table, next := table[1 := 0], next[0 := 4];
    FillTurn(prefs, table, next, 5, 1, 3, 6);
    table, next := table[6 := 1], next[1 := 4];
    FillTurn(prefs, table, next, 6, 0, 5, 2);
  }

  /** The two-node table test: the slots go to B0, B0, B0, B0, B2, B2, B2. */
  lemma BuildLookupExampleTwoNodes(prefs: seq<seq<int>>)
    requires prefs == [[3, 0, 4, 1, 5, 2, 6], [3, 4, 5, 6, 0, 1, 2]]
    ensures GreedyTable(prefs, 7) == [0, 0, 0, 0, 1, 1, 1]
  {
    TwoNodesTurns0To1(prefs);
    TwoNodesTurns1To4(prefs);
    TwoNodesTurns4To7(prefs);
    assert Unassigned(7)[3 := 0][4 := 1][0 := 0][5 := 1][1 := 0][6 := 1][2 := 0] == [0, 0, 0, 0, 1, 1, 1];
  }
}
