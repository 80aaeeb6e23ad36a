/** The file allocation table of fat32_vfs.c as linked lists held in an array
    (FAT32 File System Specification, section "FAT Data Structure"). */
module FatTable {

  type u32 = n: nat | n < 0x1_0000_0000

  const NIBBLE: nat := 0x1000_0000
  /** Entries from here on end a chain. */
  const END_OF_CHAIN: nat := 0x0FFF_FFF8
  const END_MARK: nat := 0x0FFF_FFFF
  const BAD_CLUSTER: nat := 0x0FFF_FFF7

  /** fat32_get_fat_entry: the low 28 bits. */
  function Get(fat: seq<u32>, c: nat): nat
    requires c < |fat|
  {
    fat[c] % NIBBLE
  }

  /** fat32_set_fat_entry keeps the reserved top four bits. */
  function Set(fat: seq<u32>, c: nat, v: nat): (fat': seq<u32>)
    requires c < |fat|
    ensures |fat'| == |fat|
    ensures forall d :: 0 <= d < |fat| ==> Get(fat', d) == if d == c then v % NIBBLE else Get(fat, d)
    ensures fat'[c] / NIBBLE == fat[c] / NIBBLE
  {
    fat[c := fat[c] / NIBBLE * NIBBLE + v % NIBBLE]
  }

  type Chain = seq<nat>

  predicate Linked(fat: seq<u32>, total: nat, ch: Chain) {
    && ch != [] && total <= |fat| && total <= BAD_CLUSTER
    && (forall i :: 0 <= i < |ch| ==> 2 <= ch[i] < total)
    && (forall i :: 0 <= i < |ch| - 1 ==> Get(fat, ch[i]) == ch[i + 1])
    && Get(fat, ch[|ch| - 1]) >= 0x0FFF_FFF8
  }

  predicate Disjoint(chains: seq<Chain>) {
    forall k, l, i, j | 0 <= k < |chains| && 0 <= l < |chains| && 0 <= i < |chains[k]| && 0 <= j < |chains[l]| ::
      chains[k][i] == chains[l][j] ==> k == l && i == j
  }

  /** A set of disjoint chains, none of which meets itself. */
  predicate Forest(fat: seq<u32>, total: nat, chains: seq<Chain>) {
    (forall k :: 0 <= k < |chains| ==> Linked(fat, total, chains[k])) && Disjoint(chains)
  }

  /** Every entry in use, other than a bad-cluster mark, is on a chain. */
  predicate Complete(fat: seq<u32>, total: nat, chains: seq<Chain>)
    requires total <= |fat|
  {
    forall c :: 2 <= c < total && Get(fat, c) != 0 && Get(fat, c) != BAD_CLUSTER ==> OnSome(chains, c)
  }

  predicate OnSome(chains: seq<Chain>, c: nat) {
    exists k :: 0 <= k < |chains| && c in chains[k]
  }

  /** A chain is determined by its first cluster. */
  lemma {:induction false} ChainUnique(fat: seq<u32>, total: nat, a: Chain, b: Chain)
    requires Linked(fat, total, a) && Linked(fat, total, b) && a[0] == b[0]
    ensures a == b
    decreases |a|
  {
    assert |a| > 1 ==> Get(fat, a[0]) == a[1] < total;
    assert |b| > 1 ==> Get(fat, b[0]) == b[1] < total;
    if |a| > 1 && |b| > 1 {
      TailLinked(fat, total, a);
      TailLinked(fat, total, b);
      ChainUnique(fat, total, a[1..], b[1..]);
      assert a == [a[0]] + a[1..] && b == [b[0]] + b[1..];
    }
  }

  lemma TailLinked(fat: seq<u32>, total: nat, a: Chain)
    requires Linked(fat, total, a) && |a| > 1
    ensures Linked(fat, total, a[1..])
  {
  }

  /** Every walk ends within the number of clusters not yet visited. */
  lemma ChainLength(fat: seq<u32>, total: nat, chains: seq<Chain>, k: nat)
    requires Forest(fat, total, chains) && k < |chains| && 2 <= total
    ensures |chains[k]| + 2 <= total
  {
    DistinctFits(chains[k], Numbers(2, total));
  }

  ghost function Numbers(a: nat, b: nat): (s: set<nat>)
    requires a <= b
    ensures |s| == b - a && forall c :: c in s <==> a <= c < b
    decreases b - a
  {
    if a == b then {} else Numbers(a, b - 1) + {b - 1}
  }

  lemma {:induction false} DistinctFits(ch: seq<nat>, s: set<nat>)
    requires forall i, j :: 0 <= i < j < |ch| ==> ch[i] != ch[j]
    requires forall i :: 0 <= i < |ch| ==> ch[i] in s
    ensures |ch| <= |s|
    decreases |ch|
  {
    if ch != [] {
      DistinctFits(ch[1..], s - {ch[0]});
    }
  }

  lemma FreeIsOnNoChain(fat: seq<u32>, total: nat, chains: seq<Chain>, c: nat)
    requires Forest(fat, total, chains) && c < |fat| && Get(fat, c) == 0
    ensures !OnSome(chains, c)
  {
    forall k, i | 0 <= k < |chains| && 0 <= i < |chains[k]|
      ensures chains[k][i] != c
    {
      assert Linked(fat, total, chains[k]);
      assert i < |chains[k]| - 1 ==> Get(fat, chains[k][i]) == chains[k][i + 1];
    }
  }

  /** Allocation turns a free cluster into a chain of its own. */
  lemma AllocKeepsForest(fat: seq<u32>, total: nat, chains: seq<Chain>, c: nat)
    requires Forest(fat, total, chains) && total <= |fat| && total <= BAD_CLUSTER
    requires 2 <= c < total && Get(fat, c) == 0
    ensures Forest(Set(fat, c, END_MARK), total, chains + [[c]])
    ensures Complete(fat, total, chains) ==> Complete(Set(fat, c, END_MARK), total, chains + [[c]])
  {
    FreeIsOnNoChain(fat, total, chains, c);
    var fat', chains' := Set(fat, c, END_MARK), chains + [[c]];
    forall k | 0 <= k < |chains'|
      ensures Linked(fat', total, chains'[k])
    {
      if k < |chains| {
        OtherStaysLinked(fat, total, chains[k], c, END_MARK);
      }
    }
    NewIsDisjoint(chains, c);
    if Complete(fat, total, chains) {
      hide Linked, Disjoint, Set;
      forall d | 2 <= d < total && Get(fat', d) != 0 && Get(fat', d) != BAD_CLUSTER
        ensures OnSome(chains', d)
      {
        NewIsOn(chains, c, d);
      }
    }
  }

  lemma OtherStaysLinked(fat: seq<u32>, total: nat, ch: Chain, c: nat, v: nat)
    requires Linked(fat, total, ch) && c < |fat| && c !in ch
    ensures Linked(Set(fat, c, v), total, ch)
  {
  }

  lemma NewIsDisjoint(chains: seq<Chain>, c: nat)
    requires Disjoint(chains) && !OnSome(chains, c)
    ensures Disjoint(chains + [[c]])
  {
    forall k, i | 0 <= k < |chains| && 0 <= i < |chains[k]|
      ensures chains[k][i] != c
    {
      assert c !in chains[k];
    }
  }

  lemma NewIsOn(chains: seq<Chain>, c: nat, d: nat)
    ensures OnSome(chains + [[c]], d) <==> d == c || OnSome(chains, d)
  {
    var all := chains + [[c]];
    assert c in all[|chains|];
    if OnSome(chains, d) {
      var k :| 0 <= k < |chains| && d in chains[k];
      assert d in all[k];
    }
  }

  /** Linking a fresh one-cluster chain behind chain `k` appends it there and
      leaves every other chain alone. */
  lemma LinkKeepsForest(fat: seq<u32>, total: nat, chains: seq<Chain>, k: nat, c: nat)
    requires Forest(fat, total, chains + [[c]]) && k < |chains|
    ensures total <= |fat| && chains[k] != [] && chains[k][|chains[k]| - 1] < |fat|
    ensures var fat' := Set(fat, chains[k][|chains[k]| - 1], c);
            && Forest(fat', total, chains[k := chains[k] + [c]])
            && (Complete(fat, total, chains + [[c]]) ==> Complete(fat', total, chains[k := chains[k] + [c]]))
  {
    hide Linked, Disjoint, Set, Forest, Complete;
    ForestParts(fat, total, chains, c, k);
    var last := chains[k][|chains[k]| - 1];
    LastIsAlone(chains, c, k);
    AppendDisjoint(chains, k, c);
    LinkedAppend(fat, total, chains[k], c);
    var fat', chains' := Set(fat, last, c), chains[k := chains[k] + [c]];
    forall l | 0 <= l < |chains'|
      ensures Linked(fat', total, chains'[l])
    {
      if l != k {
        OtherStaysLinked(fat, total, chains[l], last, c);
      }
    }
    IsForest(fat', total, chains');
    if Complete(fat, total, chains + [[c]]) {
      StaysComplete(fat, total, chains, k, c);
    }
  }

  lemma ForestParts(fat: seq<u32>, total: nat, chains: seq<Chain>, c: nat, k: nat)
    requires Forest(fat, total, chains + [[c]]) && k < |chains|
    ensures total <= |fat| && Disjoint(chains + [[c]]) && Linked(fat, total, [c])
    ensures forall l :: 0 <= l < |chains| ==> Linked(fat, total, chains[l])
    ensures chains[k] != [] && chains[k][|chains[k]| - 1] < |fat|
  {
    hide Disjoint;
    var both := chains + [[c]];
    assert forall l :: 0 <= l < |chains| ==> both[l] == chains[l];
    assert both[|chains|] == [c];
  }

  lemma IsForest(fat: seq<u32>, total: nat, chains: seq<Chain>)
    requires (forall k :: 0 <= k < |chains| ==> Linked(fat, total, chains[k])) && Disjoint(chains)
    ensures Forest(fat, total, chains)
  {
    hide Linked, Disjoint;
  }

  lemma StaysComplete(fat: seq<u32>, total: nat, chains: seq<Chain>, k: nat, c: nat)
    requires total <= |fat| && Complete(fat, total, chains + [[c]])
    requires k < |chains| && chains[k] != [] && chains[k][|chains[k]| - 1] < |fat|
    ensures Complete(Set(fat, chains[k][|chains[k]| - 1], c), total, chains[k := chains[k] + [c]])
  {
    hide OnSome;
    var last := chains[k][|chains[k]| - 1];
    var fat' := Set(fat, last, c);
    forall d | 2 <= d < total && Get(fat', d) != 0 && Get(fat', d) != BAD_CLUSTER
      ensures OnSome(chains[k := chains[k] + [c]], d)
    {
      NewIsOn(chains, c, d);
      AppendIsOn(chains, k, c, d);
      if d == last {
        IsOn(chains, k, last);
      }
    }
  }

  lemma IsOn(chains: seq<Chain>, k: nat, d: nat)
    requires k < |chains| && d in chains[k]
    ensures OnSome(chains, d)
  {
  }

  lemma LinkedAppend(fat: seq<u32>, total: nat, ch: Chain, c: nat)
    requires Linked(fat, total, ch) && Linked(fat, total, [c])
    requires ch[|ch| - 1] != c && forall i :: 0 <= i < |ch| - 1 ==> ch[i] != ch[|ch| - 1]
    ensures Linked(Set(fat, ch[|ch| - 1], c), total, ch + [c])
  {
    assert [c][0] == c;
  }

  lemma AppendIsOn(chains: seq<Chain>, k: nat, c: nat, d: nat)
    requires k < |chains|
    ensures OnSome(chains[k := chains[k] + [c]], d) <==> d == c || OnSome(chains, d)
  {
    var all := chains[k := chains[k] + [c]];
    assert c in all[k];
    if OnSome(chains, d) {
      var l :| 0 <= l < |chains| && d in chains[l];
      assert d in all[l];
    }
  }

  lemma LastIsAlone(chains: seq<Chain>, c: nat, k: nat)
    requires Disjoint(chains + [[c]]) && k < |chains| && chains[k] != []
    ensures var n := |chains[k]| - 1; var last := chains[k][n];
            && last != c
            && (forall i :: 0 <= i < n ==> chains[k][i] != last)
            && (forall l :: 0 <= l < |chains| && l != k ==> last !in chains[l])
  {
    var all := chains + [[c]];
    var n := |chains[k]| - 1;
    assert all[k][n] == chains[k][n] && all[|chains|][0] == c;
    forall l, i | 0 <= l < |chains| && 0 <= i < |chains[l]| && chains[l][i] == chains[k][n]
      ensures l == k && i == n
    {
      assert all[l][i] == all[k][n];
    }
  }

  lemma AppendDisjoint(chains: seq<Chain>, k: nat, c: nat)
    requires Disjoint(chains + [[c]]) && k < |chains|
    ensures Disjoint(chains[k := chains[k] + [c]])
  {
    var all := chains + [[c]];
    var chains' := chains[k := chains[k] + [c]];
    forall l, m, i, j | 0 <= l < |chains'| && 0 <= m < |chains'| && 0 <= i < |chains'[l]| && 0 <= j < |chains'[m]|
                        && chains'[l][i] == chains'[m][j]
      ensures l == m && i == j
    {
      var l0, i0 := if l == k && i == |chains[k]| then |chains| else l, if l == k && i == |chains[k]| then 0 else i;
      var m0, j0 := if m == k && j == |chains[k]| then |chains| else m, if m == k && j == |chains[k]| then 0 else j;
      assert all[l0][i0] == chains'[l][i] && all[m0][j0] == chains'[m][j];
    }
  }
}
