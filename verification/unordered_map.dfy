/**
  The chained hash map of cxx/include/unordered_map: a dense array of entries, threaded by index
  links into one chain per bucket, erased by moving the last entry into the hole.

  An iterator is modelled as an index into the entries; `end()` is the number of entries.
 */
module UnorderedMap {
  import opened Words

  datatype Entry<K, V> = Entry(first: K, second: V, next: nat, hash: Word)

  const INITIAL_TABLE_SIZE: nat := 32

  /** An entry holds two words at least, so this many entries do not fit a 64-bit address space. */
  const MAX_ENTRIES: nat := 0x800_0000_0000_0000

  function Bucket(hash: Word, size: nat): (b: nat)
    requires size > 0
    ensures b < size
  {
    hash % size
  }

  // ---------- Chains ----------

  ghost predicate Distinct<T>(s: seq<T>) {
    forall i, j :: 0 <= i < j < |s| ==> s[i] != s[j]
  }

  ghost function NextInChain(chain: seq<nat>, k: nat): nat {
    if k < |chain| then chain[k] else SIZE_MAX
  }

  ghost predicate LinkAt<K, V>(entries: seq<Entry<K, V>>, chain: seq<nat>, k: nat)
    requires k < |chain|
  {
    chain[k] < |entries| && entries[chain[k]].next == NextInChain(chain, k + 1)
  }

  /** Starting from `head`, the `next` links visit exactly the indices of `chain`, in order. */
  ghost predicate IsChain<K, V>(entries: seq<Entry<K, V>>, head: nat, chain: seq<nat>) {
    && head == NextInChain(chain, 0)
    && Distinct(chain)
    && forall k: nat {:trigger LinkAt(entries, chain, k)} :: k < |chain| ==> LinkAt(entries, chain, k)
  }

  /** Every bucket heads a finite acyclic chain. */
  ghost predicate Linked<K, V>(entries: seq<Entry<K, V>>, table: seq<nat>, chains: seq<seq<nat>>) {
    |chains| == |table| && forall b :: 0 <= b < |table| ==> IsChain(entries, table[b], chains[b])
  }

  /** The chains hold exactly the live entries, each on the chain of its own bucket. */
  ghost predicate Housed<K, V>(entries: seq<Entry<K, V>>, chains: seq<seq<nat>>, live: set<nat>) {
    && |chains| > 0
    && (forall i :: i in live ==> i < |entries|)
    && (forall b, i :: 0 <= b < |chains| && i in chains[b] ==> i in live && Bucket(entries[i].hash, |chains|) == b)
    && (forall i :: i in live ==> i in chains[Bucket(entries[i].hash, |chains|)])
  }

  /** The table and the links thread exactly the entries in `live`. */
  ghost predicate Threaded<K, V>(entries: seq<Entry<K, V>>, table: seq<nat>, chains: seq<seq<nat>>, live: set<nat>) {
    Linked(entries, table, chains) && Housed(entries, chains, live)
  }

  ghost predicate AllBelow(live: set<nat>, n: nat) {
    forall i: nat :: i in live <==> i < n
  }

  lemma AllBelowPush(live: set<nat>, n: nat)
    requires AllBelow(live, n)
    ensures n !in live && AllBelow(live + {n}, n + 1)
    ensures forall i :: i in live ==> i < n
  {
  }

  lemma AllBelowSwapOut(live: set<nat>, n: nat, i: nat)
    requires AllBelow(live, n) && i < n
    ensures i in live && n - 1 in live
    ensures forall j :: j in live ==> j < n
    ensures AllBelow(if i == n - 1 then live - {i} else live - {i} - {n - 1} + {i}, n - 1)
  {
  }

  /** Two entry arrays that differ at most in their links. */
  ghost predicate SameBindings<K, V>(a: seq<Entry<K, V>>, b: seq<Entry<K, V>>) {
    |a| == |b| && forall i :: 0 <= i < |a| ==> a[i].first == b[i].first && a[i].second == b[i].second && a[i].hash == b[i].hash
  }

  ghost predicate KeepsLinks<K, V>(before: seq<Entry<K, V>>, after: seq<Entry<K, V>>, chain: seq<nat>) {
    forall i :: i in chain && i < |before| ==> i < |after| && after[i].next == before[i].next
  }

  /** A chain only depends on the links of its own entries. */
  lemma ChainFrame<K, V>(before: seq<Entry<K, V>>, after: seq<Entry<K, V>>, head: nat, chain: seq<nat>)
    requires IsChain(before, head, chain)
    requires KeepsLinks(before, after, chain)
    ensures IsChain(after, head, chain)
  {
    forall k: nat | k < |chain|
      ensures LinkAt(after, chain, k)
    {
      assert LinkAt(before, chain, k);
      assert chain[k] in chain;
    }
  }

  /** Entries whose links on chains do not change stay linked. */
  lemma LinkedFrame<K, V>(before: seq<Entry<K, V>>, after: seq<Entry<K, V>>, table: seq<nat>, chains: seq<seq<nat>>)
    requires Linked(before, table, chains)
    requires forall b :: 0 <= b < |chains| ==> KeepsLinks(before, after, chains[b])
    ensures Linked(after, table, chains)
  {
    forall b | 0 <= b < |table|
      ensures IsChain(after, table[b], chains[b])
    {
      ChainFrame(before, after, table[b], chains[b]);
    }
  }

  lemma HousedFrame<K, V>(before: seq<Entry<K, V>>, after: seq<Entry<K, V>>, chains: seq<seq<nat>>, live: set<nat>)
    requires Housed(before, chains, live)
    requires forall i :: i in live ==> i < |after| && after[i].hash == before[i].hash
    ensures Housed(after, chains, live)
  {
    hide Bucket;
  }

  /** Entries that are on no chain may change freely. */
  lemma FreeEntriesMayChange<K, V>(before: seq<Entry<K, V>>, after: seq<Entry<K, V>>,
                                   table: seq<nat>, chains: seq<seq<nat>>, live: set<nat>)
    requires Threaded(before, table, chains, live)
    requires forall i :: i in live ==> i < |after| && after[i] == before[i]
    ensures Threaded(after, table, chains, live)
  {
    hide Bucket, Linked;
    HousedFrame(before, after, chains, live);
    forall b | 0 <= b < |chains|
      ensures KeepsLinks(before, after, chains[b])
    {
      assert forall i :: i in chains[b] ==> i in live;
    }
    LinkedFrame(before, after, table, chains);
  }

  lemma LinkedPush<K, V>(before: seq<Entry<K, V>>, after: seq<Entry<K, V>>, table: seq<nat>, chains: seq<seq<nat>>,
                         e: nat, b: nat)
    requires Linked(before, table, chains)
    requires b < |table| && e < |before| && forall c :: 0 <= c < |chains| ==> e !in chains[c]
    requires after == before[e := before[e].(next := table[b])]
    ensures Linked(after, table[b := e], chains[b := [e] + chains[b]])
  {
    LinkedFrame(before, after, table, chains);
    var chain := [e] + chains[b];
    assert IsChain(after, table[b], chains[b]);
    forall k: nat | k < |chain|
      ensures LinkAt(after, chain, k)
    {
      if k > 0 {
        assert LinkAt(after, chains[b], k - 1);
      }
    }
    assert IsChain(after, e, chain);
  }

  lemma HousedPush<K, V>(before: seq<Entry<K, V>>, after: seq<Entry<K, V>>, chains: seq<seq<nat>>, live: set<nat>, e: nat)
    requires Housed(before, chains, live)
    requires SameBindings(before, after) && e < |before|
    ensures var b := Bucket(before[e].hash, |chains|); Housed(after, chains[b := [e] + chains[b]], live + {e})
  {
    hide Bucket;
    var b := Bucket(before[e].hash, |chains|);
    var chains' := chains[b := [e] + chains[b]];
    forall c, i | 0 <= c < |chains| && i in chains'[c]
      ensures i in live + {e} && Bucket(after[i].hash, |chains|) == c
    {
      assert i == e || i in chains[c];
    }
    forall i | i in live + {e}
      ensures i in chains'[Bucket(after[i].hash, |chains|)]
    {
      assert i == e || i in chains[Bucket(before[i].hash, |chains|)];
    }
  }

  /** Pushing a free entry at the head of its bucket's chain threads that entry too. */
  lemma LinkAtHead<K, V>(before: seq<Entry<K, V>>, after: seq<Entry<K, V>>, table: seq<nat>, chains: seq<seq<nat>>,
                         live: set<nat>, e: nat, b: nat)
    requires Threaded(before, table, chains, live)
    requires e < |before| && e !in live
    requires b == Bucket(before[e].hash, |table|)
    requires after == before[e := before[e].(next := table[b])]
    ensures Threaded(after, table[b := e], chains[b := [e] + chains[b]], live + {e})
  {
    hide Bucket, IsChain;
    LinkedPush(before, after, table, chains, e, b);
    HousedPush(before, after, chains, live, e);
    hide Housed;
  }

  ghost function Without<T>(s: seq<T>, k: nat): seq<T>
    requires k < |s|
  {
    s[..k] + s[k + 1..]
  }

  lemma WithoutElements<T>(s: seq<T>, k: nat)
    requires k < |s| && Distinct(s)
    ensures Distinct(Without(s, k))
    ensures forall x :: x in Without(s, k) <==> x in s && x != s[k]
  {
    var w := Without(s, k);
    forall x | x in s && x != s[k]
      ensures x in w
    {
      var i :| 0 <= i < |s| && s[i] == x;
      assert x == w[if i < k then i else i - 1];
    }
  }

  /** Where `steps` links lead from index `from`. */
  ghost function Walk<K, V>(entries: seq<Entry<K, V>>, from: nat, steps: nat): nat
    decreases steps
  {
    if steps == 0 || from >= |entries| then from else Walk(entries, entries[from].next, steps - 1)
  }

  lemma {:induction false} WalkAlongChain<K, V>(entries: seq<Entry<K, V>>, head: nat, chain: seq<nat>, k: nat, steps: nat)
    requires IsChain(entries, head, chain) && k + steps <= |chain|
    ensures Walk(entries, NextInChain(chain, k), steps) == NextInChain(chain, k + steps)
    decreases steps
  {
    if steps > 0 {
      assert LinkAt(entries, chain, k);
      WalkAlongChain(entries, head, chain, k + 1, steps - 1);
    }
  }

  lemma {:induction false} DistinctBelow(s: seq<nat>, n: nat)
    requires Distinct(s) && forall i :: 0 <= i < |s| ==> s[i] < n
    ensures |s| <= n
  {
    if s != [] {
      assert s[0] < n;
      if k: nat :| k < |s| && s[k] == n - 1 {
        WithoutElements(s, k);
        assert forall x :: x in Without(s, k) ==> x in s;
        DistinctBelow(Without(s, k), n - 1);
      } else {
        DistinctBelow(s, n - 1);
      }
    }
  }

  /** Each bucket's walk stops at the end mark, after visiting at most as many entries as there are. */
  lemma WalksTerminate<K, V>(entries: seq<Entry<K, V>>, table: seq<nat>, chains: seq<seq<nat>>, live: set<nat>, b: nat)
    requires Threaded(entries, table, chains, live) && b < |table|
    ensures |chains[b]| <= |entries|
    ensures Walk(entries, table[b], |chains[b]|) == SIZE_MAX
  {
    WalkAlongChain(entries, table[b], chains[b], 0, |chains[b]|);
    forall k | 0 <= k < |chains[b]|
      ensures chains[b][k] < |entries|
    {
      assert LinkAt(entries, chains[b], k);
    }
    DistinctBelow(chains[b], |entries|);
  }

  ghost predicate OccursOnlyAt(chains: seq<seq<nat>>, i: nat, b: nat, k: nat) {
    && b < |chains| && k < |chains[b]| && chains[b][k] == i
    && forall b': nat, k': nat :: b' < |chains| && k' < |chains[b']| && chains[b'][k'] == i ==> b' == b && k' == k
  }

  /** The chains partition the entries: each index is on exactly one chain, once, and that is the chain of its masked hash. */
  lemma ChainsPartition<K, V>(entries: seq<Entry<K, V>>, table: seq<nat>, chains: seq<seq<nat>>, live: set<nat>, i: nat)
    returns (k: nat)
    requires Threaded(entries, table, chains, live) && IsPow2(|table|)
    requires AllBelow(live, |entries|) && i < |entries|
    ensures OccursOnlyAt(chains, i, And(entries[i].hash, |table| - 1), k)
  {
    MaskIsMod(entries[i].hash, |table|);
    hide Bucket;
    var b := Bucket(entries[i].hash, |table|);
    assert i in live;
    assert i in chains[b];
    k :| k < |chains[b]| && chains[b][k] == i;
    forall b': nat, k': nat | b' < |chains| && k' < |chains[b']| && chains[b'][k'] == i
      ensures b' == b && k' == k
    {
      assert i in chains[b'];
      assert IsChain(entries, table[b], chains[b]);
    }
  }

  /** What redirecting the link to the k-th entry of a chain does to the entries. */
  ghost function Relinked<K, V>(entries: seq<Entry<K, V>>, chain: seq<nat>, k: nat): (r: seq<Entry<K, V>>)
    requires k < |chain| && LinkAt(entries, chain, k) && (k > 0 ==> LinkAt(entries, chain, k - 1))
    ensures SameBindings(entries, r)
  {
    var e := chain[k];
    var redirected := if k == 0 then entries
                      else entries[chain[k - 1] := entries[chain[k - 1]].(next := entries[e].next)];
    redirected[e := redirected[e].(next := SIZE_MAX)]
  }

  lemma RelinkedChain<K, V>(entries: seq<Entry<K, V>>, head: nat, chain: seq<nat>, k: nat)
    requires IsChain(entries, head, chain) && k < |chain|
    requires LinkAt(entries, chain, k) && (k > 0 ==> LinkAt(entries, chain, k - 1))
    ensures IsChain(Relinked(entries, chain, k), if k == 0 then entries[chain[0]].next else head, Without(chain, k))
  {
    var after := Relinked(entries, chain, k);
    var chain' := Without(chain, k);
    WithoutElements(chain, k);
    forall j: nat | j < |chain'|
      ensures LinkAt(after, chain', j)
    {
      var i := if j < k then j else j + 1;
      assert LinkAt(entries, chain, i);
      assert chain'[j] == chain[i] && chain[i] != chain[k];
      if i + 1 == k {
        assert after[chain[i]].next == entries[chain[k]].next == NextInChain(chain, k + 1);
      } else {
        assert after[chain[i]].next == entries[chain[i]].next;
      }
    }
  }

  /** Taking the k-th entry out of a chain by redirecting the link to it leaves all other entries threaded. */
  lemma UnlinkFromChain<K, V>(entries: seq<Entry<K, V>>, table: seq<nat>, chains: seq<seq<nat>>, live: set<nat>,
                              b: nat, k: nat, table': seq<nat>)
    requires Threaded(entries, table, chains, live)
    requires b < |table| && k < |chains[b]|
    requires LinkAt(entries, chains[b], k) && (k > 0 ==> LinkAt(entries, chains[b], k - 1))
    requires table' == if k == 0 then table[b := entries[chains[b][0]].next] else table
    ensures Threaded(Relinked(entries, chains[b], k), table', chains[b := Without(chains[b], k)], live - {chains[b][k]})
  {
    assert IsChain(entries, table[b], chains[b]);
    hide Bucket, IsChain;
    LinkedPop(entries, table, chains, live, b, k, table');
    HousedPop(entries, Relinked(entries, chains[b], k), chains, live, b, k);
    hide Housed, Relinked;
  }

  lemma LinkedPop<K, V>(entries: seq<Entry<K, V>>, table: seq<nat>, chains: seq<seq<nat>>, live: set<nat>,
                        b: nat, k: nat, table': seq<nat>)
    requires Linked(entries, table, chains) && Housed(entries, chains, live)
    requires b < |table| && k < |chains[b]|
    requires LinkAt(entries, chains[b], k) && (k > 0 ==> LinkAt(entries, chains[b], k - 1))
    requires table' == if k == 0 then table[b := entries[chains[b][0]].next] else table
    ensures Linked(Relinked(entries, chains[b], k), table', chains[b := Without(chains[b], k)])
  {
    hide Bucket;
    var chain := chains[b];
    var after := Relinked(entries, chain, k);
    assert chain[k] in chain && (k > 0 ==> chain[k - 1] in chain);
    forall c | 0 <= c < |table|
      ensures IsChain(after, table'[c], chains[b := Without(chain, k)][c])
    {
      if c == b {
        RelinkedChain(entries, table[b], chain, k);
      } else {
        ChainFrame(entries, after, table[c], chains[c]);
      }
    }
  }

  lemma HousedPop<K, V>(before: seq<Entry<K, V>>, after: seq<Entry<K, V>>, chains: seq<seq<nat>>, live: set<nat>,
                        b: nat, k: nat)
    requires Housed(before, chains, live)
    requires SameBindings(before, after) && b < |chains| && k < |chains[b]| && Distinct(chains[b])
    ensures Housed(after, chains[b := Without(chains[b], k)], live - {chains[b][k]})
  {
    hide Bucket;
    var chain, e := chains[b], chains[b][k];
    var chains' := chains[b := Without(chain, k)];
    WithoutElements(chain, k);
    hide Without, Distinct;
    assert e in chain;
    forall c, i | 0 <= c < |chains| && i in chains'[c]
      ensures i in live - {e} && Bucket(after[i].hash, |chains|) == c
    {
      assert i in chains[c];
    }
    forall i | i in live - {e}
      ensures i in chains'[Bucket(after[i].hash, |chains|)]
    {
      assert i in chains[Bucket(before[i].hash, |chains|)];
    }
  }

  // ---------- The finite map an entry array stands for ----------

  ghost predicate UniqueKeys<K, V>(entries: seq<Entry<K, V>>) {
    forall i, j :: 0 <= i < j < |entries| ==> entries[i].first != entries[j].first
  }

  ghost function Bindings<K, V>(entries: seq<Entry<K, V>>): (m: map<K, V>)
    requires UniqueKeys(entries)
  {
    map i | 0 <= i < |entries| :: entries[i].first := entries[i].second
  }

  lemma BindingAt<K, V>(entries: seq<Entry<K, V>>, i: nat)
    requires UniqueKeys(entries) && i < |entries|
    ensures entries[i].first in Bindings(entries) && Bindings(entries)[entries[i].first] == entries[i].second
  {
  }

  lemma SlotOf<K, V>(entries: seq<Entry<K, V>>, key: K) returns (i: nat)
    requires UniqueKeys(entries) && key in Bindings(entries)
    ensures i < |entries| && entries[i].first == key && entries[i].second == Bindings(entries)[key]
  {
    i :| i < |entries| && entries[i].first == key;
  }

  lemma NoBindings<K, V>(entries: seq<Entry<K, V>>)
    requires entries == []
    ensures UniqueKeys(entries) && Bindings(entries) == map[]
  {
  }

  /** An entry array stands for the map that its slots agree with, when they cover all of its keys. */
  lemma MapFromSlots<K, V>(a: seq<Entry<K, V>>, m: map<K, V>)
    requires UniqueKeys(a)
    requires forall i :: 0 <= i < |a| ==> a[i].first in m && m[a[i].first] == a[i].second
    requires forall k :: k in m ==> exists i :: 0 <= i < |a| && a[i].first == k
    ensures Bindings(a) == m
  {
    forall k | k in m
      ensures k in Bindings(a)
    {
      var i: nat :| i < |a| && a[i].first == k;
      BindingAt(a, i);
    }
    forall k | k in Bindings(a)
      ensures k in m && m[k] == Bindings(a)[k]
    {
      var i := SlotOf(a, k);
    }
  }

  lemma SameBindingsSameMap<K, V>(a: seq<Entry<K, V>>, b: seq<Entry<K, V>>)
    requires SameBindings(a, b) && UniqueKeys(a)
    ensures UniqueKeys(b) && Bindings(b) == Bindings(a)
  {
    hide Bindings;
    var m := Bindings(a);
    forall i: nat | i < |b|
      ensures b[i].first in m && m[b[i].first] == b[i].second
    {
      BindingAt(a, i);
    }
    forall k | k in m
      ensures exists i :: 0 <= i < |b| && b[i].first == k
    {
      var i := SlotOf(a, k);
      assert b[i].first == k;
    }
    MapFromSlots(b, m);
  }

  /** Which old slot the binding in slot j comes from, when the last slot has been moved into slot i. */
  ghost function Source(i: nat, last: nat, j: nat): nat {
    if j == i then last else j
  }

  ghost predicate SwappedOut<K, V>(before: seq<Entry<K, V>>, after: seq<Entry<K, V>>, i: nat) {
    && i < |before| == |after| + 1
    && forall j :: 0 <= j < |after| ==>
         && after[j].first == before[Source(i, |after|, j)].first
         && after[j].second == before[Source(i, |after|, j)].second
  }

  /** Overwriting slot i with the last entry and dropping the last slot removes exactly the binding of slot i. */
  lemma SwapOutBindings<K, V>(before: seq<Entry<K, V>>, after: seq<Entry<K, V>>, i: nat)
    requires UniqueKeys(before) && SwappedOut(before, after, i)
    ensures UniqueKeys(after) && Bindings(after) == Bindings(before) - {before[i].first}
  {
    hide Bindings;
    var last, m := |after|, Bindings(before) - {before[i].first};
    forall j: nat, k: nat | j < k < last
      ensures after[j].first != after[k].first
    {
      assert before[Source(i, last, j)].first != before[Source(i, last, k)].first;
    }
    forall j: nat | j < last
      ensures after[j].first in m && m[after[j].first] == after[j].second
    {
      BindingAt(before, Source(i, last, j));
      assert before[Source(i, last, j)].first != before[i].first;
    }
    forall k | k in m
      ensures exists j :: 0 <= j < |after| && after[j].first == k
    {
      var j := SlotOf(before, k);
      assert after[if j == last then i else j].first == k;
    }
    MapFromSlots(after, m);
  }

  lemma PushBindings<K, V>(before: seq<Entry<K, V>>, e: Entry<K, V>)
    requires UniqueKeys(before) && e.first !in Bindings(before)
    ensures UniqueKeys(before + [e]) && Bindings(before + [e]) == Bindings(before)[e.first := e.second]
  {
    hide Bindings;
    var after, m := before + [e], Bindings(before)[e.first := e.second];
    forall i: nat | i < |before|
      ensures after[i] == before[i] && before[i].first in m && m[before[i].first] == before[i].second
      ensures before[i].first != e.first
    {
      BindingAt(before, i);
    }
    forall k | k in m
      ensures exists i :: 0 <= i < |after| && after[i].first == k
    {
      if k == e.first {
        assert after[|before|].first == k;
      } else {
        var i := SlotOf(before, k);
        assert after[i].first == k;
      }
    }
    MapFromSlots(after, m);
  }

  /** Each entry holds one binding of its own. */
  lemma {:induction false} CountBindings<K, V>(entries: seq<Entry<K, V>>)
    requires UniqueKeys(entries)
    ensures |Bindings(entries)| == |entries|
  {
    if entries == [] {
      NoBindings(entries);
    } else {
      var front, e := entries[..|entries| - 1], entries[|entries| - 1];
      assert entries == front + [e];
      CountBindings(front);
      assert e.first !in Bindings(front);
      PushBindings(front, e);
    }
  }

  lemma OverwriteBindings<K, V>(before: seq<Entry<K, V>>, after: seq<Entry<K, V>>, i: nat, value: V)
    requires UniqueKeys(before) && i < |before|
    requires after == before[i := before[i].(second := value)]
    ensures UniqueKeys(after) && Bindings(after) == Bindings(before)[before[i].first := value]
  {
    hide Bindings;
    var m := Bindings(before)[before[i].first := value];
    forall j: nat | j < |after|
      ensures after[j].first == before[j].first && after[j].first in m && m[after[j].first] == after[j].second
    {
      BindingAt(before, j);
    }
    forall k | k in m
      ensures exists j :: 0 <= j < |after| && after[j].first == k
    {
      assert after[i].first == before[i].first;
      if k != before[i].first {
        var j := SlotOf(before, k);
        assert after[j].first == k;
      }
    }
    MapFromSlots(after, m);
  }

  /** Changing keys and values, but neither links nor hashes, keeps the threading. */
  lemma RelabelThreaded<K, V>(before: seq<Entry<K, V>>, after: seq<Entry<K, V>>,
                              table: seq<nat>, chains: seq<seq<nat>>, live: set<nat>)
    requires Threaded(before, table, chains, live)
    requires |after| == |before|
    requires forall i :: 0 <= i < |after| ==> after[i].next == before[i].next && after[i].hash == before[i].hash
    ensures Threaded(after, table, chains, live)
  {
    hide Bucket;
    assert forall b, i :: 0 <= b < |chains| && i in chains[b] ==> i in live;
    LinkedFrame(before, after, table, chains);
    HousedFrame(before, after, chains, live);
    hide Linked, Housed;
  }

  // ---------- The container ----------

  class UnorderedMap<K(==), V> {
    const hasher: K -> Word
    const blank: V  // what T() builds

    var entries: seq<Entry<K, V>>
    var hashTable: seq<nat>

    ghost var chains: seq<seq<nat>>
    ghost var live: set<nat>

    ghost predicate Threading()
      reads this
    {
      && |entries| <= MAX_ENTRIES
      && Threaded(entries, hashTable, chains, live)
      && IsPow2(|hashTable|)
    }

    ghost predicate Valid()
      reads this
    {
      && Threading()
      && AllBelow(live, |entries|)
      && UniqueKeys(entries)
      && (forall i :: 0 <= i < |entries| ==> entries[i].hash == hasher(entries[i].first))
      && 2 * |entries| <= |hashTable|
      && INITIAL_TABLE_SIZE <= |hashTable|
    }

    ghost function Contents(): map<K, V>
      requires Valid()
      reads this
    {
      Bindings(entries)
    }

    constructor (hasher: K -> Word, blank: V)
      ensures Valid() && Contents() == map[] && entries == [] && |hashTable| == 32
      ensures this.hasher == hasher && this.blank == blank
    {
      this.hasher, this.blank := hasher, blank;
      entries := [];
      hashTable := seq(INITIAL_TABLE_SIZE, _ => SIZE_MAX);
      chains := seq(INITIAL_TABLE_SIZE, _ => []);
      live := {};
      new;
      assert Pow2(5) == 32;
    }

    function EntryFromIndex(index: nat): nat
      reads this
    {
      if index == SIZE_MAX then |entries| else index
    }

    method Find(key: K) returns (it: nat)
      requires Valid()
      ensures it <= |entries|
      ensures it == |entries| <==> key !in Contents()
      ensures it < |entries| ==> entries[it].first == key && entries[it].second == Contents()[key]
    {
      MaskIsMod(hasher(key), |hashTable|);
      var index := And(hasher(key), |hashTable| - 1);
      ghost var chain := chains[index];
      ghost var k := 0;
      it := EntryFromIndex(hashTable[index]);
      while it != |entries|
        invariant k <= |chain|
        invariant it == EntryFromIndex(NextInChain(chain, k))
        invariant k < |chain| ==> LinkAt(entries, chain, k)
        invariant forall j :: 0 <= j < k ==> chain[j] < |entries| && entries[chain[j]].first != key
        decreases |chain| - k
      {
        assert k + 1 < |chain| ==> LinkAt(entries, chain, k + 1);
        if entries[it].first == key {
          BindingAt(entries, it);
          return;
        }
        it := EntryFromIndex(entries[it].next);
        k := k + 1;
      }
      hide Bindings;
      assert k == |chain|;
      forall i | 0 <= i < |entries|
        ensures entries[i].first != key
      {
        if entries[i].hash == hasher(key) {
          assert i in live;
          assert i in chain;
        }
      }
      assert key !in Contents() by {
        if key in Contents() {
          var i := SlotOf(entries, key);
        }
      }
    }

    method InsertIntoHashTable(entry: nat)
      requires Threading() && entry < |entries| && entry !in live
      modifies this
      ensures Threading() && live == old(live) + {entry} && |hashTable| == old(|hashTable|)
      ensures SameBindings(old(entries), entries)
      ensures var b := Bucket(entries[entry].hash, |hashTable|); chains == old(chains)[b := [entry] + old(chains)[b]]
    {
      MaskIsMod(entries[entry].hash, |hashTable|);
      var index := And(entries[entry].hash, |hashTable| - 1);
      var nextIndex := hashTable[index];
      LinkAtHead(entries, entries[entry := entries[entry].(next := nextIndex)], hashTable, chains, live, entry, index);
      entries := entries[entry := entries[entry].(next := nextIndex)];
      hashTable := hashTable[index := entry];
      chains := chains[index := [entry] + chains[index]];
      live := live + {entry};
    }

    method RemoveFromHashTable(entry: nat)
      requires Threading() && entry in live
      modifies this
      ensures Threading() && live == old(live) - {entry} && |hashTable| == old(|hashTable|)
      ensures SameBindings(old(entries), entries)
      ensures entries[entry].next == SIZE_MAX
    {
      MaskIsMod(entries[entry].hash, |hashTable|);
      var index := And(entries[entry].hash, |hashTable| - 1);
      ghost var chain := chains[index];
      ghost var k := 0;
      var prev := |entries|;
      var it := EntryFromIndex(hashTable[index]);
      while it != |entries|
        invariant k <= |chain| && entry in chain[k..]
        invariant it == EntryFromIndex(NextInChain(chain, k))
        invariant k < |chain| ==> LinkAt(entries, chain, k)
        invariant k > 0 ==> LinkAt(entries, chain, k - 1)
        invariant prev == if k == 0 then |entries| else chain[k - 1]
        invariant entries == old(entries) && hashTable == old(hashTable) && chains == old(chains) && live == old(live)
        decreases |chain| - k
      {
        assert k + 1 < |chain| ==> LinkAt(entries, chain, k + 1);
        if it == entry {
          UnlinkFromChain(entries, hashTable, chains, live, index, k,
                          if k == 0 then hashTable[index := entries[chain[0]].next] else hashTable);
          if prev == |entries| {
            hashTable := hashTable[index := entries[entry].next];
          } else {
            entries := entries[prev := entries[prev].(next := entries[entry].next)];
          }
          entries := entries[entry := entries[entry].(next := SIZE_MAX)];
          chains := chains[index := Without(chain, k)];
          live := live - {entry};
          return;
        }
        prev := it;
        it := EntryFromIndex(entries[it].next);
        k := k + 1;
      }
    }

    method ExpandHashTable()
      requires Valid() && 2 * |hashTable| <= SIZE_MAX
      modifies this
      ensures Valid() && Contents() == old(Contents())
      ensures |hashTable| == 2 * old(|hashTable|) && |entries| == old(|entries|)
    {
      DoublePow2(|hashTable|);
      WrapSmall(2 * |hashTable|);
      hashTable := seq(Wrap(2 * |hashTable|), _ => SIZE_MAX);
      chains, live := seq(|hashTable|, _ => []), {};
      var it := 0;
      while it < |entries|
        invariant it <= |entries| == old(|entries|)
        invariant Threading() && |hashTable| == 2 * old(|hashTable|)
        invariant AllBelow(live, it)
        invariant SameBindings(old(entries), entries)
      {
        AllBelowPush(live, it);
        InsertIntoHashTable(it);
        it := it + 1;
      }
      SameBindingsSameMap(old(entries), entries);
    }

    /** `operator[]`: the slot whose `second` the returned reference designates. */
    method Index(key: K) returns (it: nat)
      requires Valid()
      requires |entries| < MAX_ENTRIES
      modifies this
      ensures Valid() && |entries| <= old(|entries|) + 1
      ensures Contents() == if key in old(Contents()) then old(Contents()) else old(Contents())[key := blank]
      ensures it < |entries| && entries[it].first == key
      ensures |hashTable| == if key !in old(Contents()) && 2 * old(|entries|) >= old(|hashTable|)
                             then 2 * old(|hashTable|) else old(|hashTable|)
    {
      hide Threaded, Bucket, AllBelow, UniqueKeys, Bindings, IsPow2, Wrap;
      it := Find(key);
      if it != |entries| {
        return;
      }
      WrapSmall(2 * |entries|);
      if Wrap(2 * |entries|) >= |hashTable| {
        ExpandHashTable();
      }
      Pow2IsEven(|hashTable|);
      assert 2 * |entries| + 2 <= |hashTable|;
      PushBindings(entries, Entry(key, blank, SIZE_MAX, hasher(key)));
      ghost var before := entries;
      entries := entries + [Entry(key, blank, SIZE_MAX, hasher(key))];
      AllBelowPush(live, |before|);
      FreeEntriesMayChange(before, entries, hashTable, chains, live);
      it := |entries| - 1;
      ghost var pushed := entries;
      InsertIntoHashTable(it);
      SameBindingsSameMap(pushed, entries);
    }

    /** `map[key] = value`: a write through the reference that `operator[]` returns. */
    method Store(key: K, value: V)
      requires Valid()
      requires |entries| < MAX_ENTRIES
      modifies this
      ensures Valid() && |entries| <= old(|entries|) + 1
      ensures Contents() == old(Contents())[key := value]
    {
      hide Threaded, Bucket, AllBelow, UniqueKeys, Bindings, IsPow2;
      var it := Index(key);
      ghost var before := entries;
      entries := entries[it := entries[it].(second := value)];
      OverwriteBindings(before, entries, it, value);
      RelabelThreaded(before, entries, hashTable, chains, live);
    }

    method Erase(key: K)
      requires Valid()
      modifies this
      ensures Valid() && |entries| <= old(|entries|)
      ensures Contents() == old(Contents()) - {key}
      ensures if key in old(Contents()) then exists i :: SwappedOut(old(entries), entries, i)
              else unchanged(this)
    {
      hide Threaded, Bucket, AllBelow, UniqueKeys, Bindings, IsPow2;
      if |entries| == 0 {
        NoBindings(entries);
        return;
      }
      var it := Find(key);
      if it == |entries| {
        return;
      }
      AllBelowSwapOut(live, |entries|, it);
      RemoveFromHashTable(it);
      var last := |entries| - 1;
      if it != last {
        RemoveFromHashTable(last);
        FreeEntriesMayChange(entries, entries[it := entries[last]], hashTable, chains, live);
        entries := entries[it := entries[last]];
        InsertIntoHashTable(it);
      }
      FreeEntriesMayChange(entries, entries[..last], hashTable, chains, live);
      entries := entries[..last];
      SwapOutBindings(old(entries), entries, it);
    }
  }

  // ---------- Whole runs ----------

  datatype Op<K, V> =
    | Put(key: K, value: V)   // map[key] = value
    | Touch(key: K)           // map[key], read through the reference
    | Lookup(key: K)          // find(key)
    | Delete(key: K)          // erase(key)

  /** What one operation does to a finite map, by the C++ standard's account of it. */
  ghost function Effect<K, V>(m: map<K, V>, op: Op<K, V>, blank: V): map<K, V> {
    match op
    case Put(k, v) => m[k := v]
    case Touch(k) => if k in m then m else m[k := blank]
    case Lookup(_) => m
    case Delete(k) => m - {k}
  }

  /** What one operation on a finite map shows its caller. */
  ghost function Answer<K, V>(m: map<K, V>, op: Op<K, V>, blank: V): Option<V> {
    match op
    case Put(_, v) => Some(v)
    case Touch(k) => Some(if k in m then m[k] else blank)
    case Lookup(k) => if k in m then Some(m[k]) else None
    case Delete(_) => None
  }

  /** The finite map that a run of operations leaves. */
  ghost function After<K, V>(ops: seq<Op<K, V>>, blank: V): map<K, V> {
    if ops == [] then map[] else Effect(After(ops[..|ops| - 1], blank), ops[|ops| - 1], blank)
  }

  lemma AnswerIs<K, V>(m: map<K, V>, op: Op<K, V>, blank: V)
    ensures op.Lookup? ==> Answer(m, op, blank) == if op.key in m then Some(m[op.key]) else None
    ensures op.Touch? ==> Answer(m, op, blank) == Some(if op.key in m then m[op.key] else blank)
  {
  }

  lemma NoOps<K, V>(blank: V)
    ensures After<K, V>([], blank) == map[]
  {
  }

  lemma OneOpMore<K, V>(ops: seq<Op<K, V>>, i: nat, blank: V)
    requires i < |ops|
    ensures After(ops[..i + 1], blank) == Effect(After(ops[..i], blank), ops[i], blank)
  {
    assert ops[..i + 1][..i] == ops[..i];
  }

  /** No operation from `from` on stores under the key or erases it. */
  ghost predicate Untouched<K, V>(ops: seq<Op<K, V>>, from: nat, key: K) {
    forall i :: from <= i < |ops| ==> ops[i] != Delete(key) && (ops[i].Put? ==> ops[i].key != key)
  }

  /** What a key is bound to stays until it is stored under or erased, whatever happens to other keys. */
  lemma {:induction false} BoundStays<K, V>(ops: seq<Op<K, V>>, from: nat, key: K, blank: V)
    requires from <= |ops| && Untouched(ops, from, key) && key in After(ops[..from], blank)
    ensures key in After(ops, blank) && After(ops, blank)[key] == After(ops[..from], blank)[key]
  {
    if from == |ops| {
      assert ops[..from] == ops;
    } else {
      var front := ops[..|ops| - 1];
      assert front[..from] == ops[..from];
      BoundStays(front, from, key, blank);
    }
  }

  /** The last value stored under a key is the one that it has. */
  lemma LastPutWins<K, V>(ops: seq<Op<K, V>>, j: nat, key: K, value: V, blank: V)
    requires j < |ops| && ops[j] == Put(key, value) && Untouched(ops, j + 1, key)
    ensures key in After(ops, blank) && After(ops, blank)[key] == value
  {
    OneOpMore(ops, j, blank);
    BoundStays(ops, j + 1, key, blank);
  }

  /** A key that is absent, and then read through `map[key]`, is bound to T(). */
  lemma TouchBindsBlank<K, V>(ops: seq<Op<K, V>>, j: nat, key: K, blank: V)
    requires j < |ops| && ops[j] == Touch(key) && key !in After(ops[..j], blank) && Untouched(ops, j + 1, key)
    ensures key in After(ops, blank) && After(ops, blank)[key] == blank
  {
    OneOpMore(ops, j, blank);
    BoundStays(ops, j + 1, key, blank);
  }

  /** An erased key, like one never used, is unbound until it is used again. */
  lemma {:induction false} ErasedStaysUnbound<K, V>(ops: seq<Op<K, V>>, from: nat, key: K, blank: V)
    requires from <= |ops| && (from == 0 || ops[from - 1] == Delete(key))
    requires forall i :: from <= i < |ops| ==> ops[i].key != key || ops[i].Lookup? || ops[i].Delete?
    ensures key !in After(ops, blank)
  {
    if from < |ops| {
      ErasedStaysUnbound(ops[..|ops| - 1], from, key, blank);
    }
  }

  method Perform<K(==), V>(m: UnorderedMap<K, V>, op: Op<K, V>) returns (answer: Option<V>)
    requires m.Valid() && |m.entries| < MAX_ENTRIES
    modifies m
    ensures m.Valid()
    ensures m.Contents() == Effect(old(m.Contents()), op, m.blank)
    ensures answer == Answer(old(m.Contents()), op, m.blank)
  {
    hide Threaded, Bindings, UniqueKeys, AllBelow, IsPow2, SwappedOut, Bucket;
    match op {
      case Put(k, v) =>
        m.Store(k, v);
        answer := Some(v);
      case Touch(k) =>
        var it := m.Index(k);
        BindingAt(m.entries, it);
        answer := Some(m.entries[it].second);
      case Lookup(k) =>
        var it := m.Find(k);
        answer := if it == |m.entries| then None else Some(m.entries[it].second);
      case Delete(k) =>
        m.Erase(k);
        answer := None;
    }
  }

  /**
    Any run from a fresh map, of any length and for any hash function, answers as the finite map does, as long
    as the bindings that it holds at one time fit an address space.
   */
  method Replay<K(==), V>(hasher: K -> Word, blank: V, ops: seq<Op<K, V>>) returns (answers: seq<Option<V>>)
    requires forall i :: 0 <= i < |ops| ==> |After(ops[..i], blank)| < MAX_ENTRIES
    ensures |answers| == |ops|
    ensures forall i :: 0 <= i < |ops| ==> answers[i] == Answer(After(ops[..i], blank), ops[i], blank)
    ensures forall i :: 0 <= i < |ops| ==>
              var m, k := After(ops[..i], blank), ops[i].key;
              && (ops[i].Lookup? ==> answers[i] == if k in m then Some(m[k]) else None)
              && (ops[i].Touch? ==> answers[i] == Some(if k in m then m[k] else blank))
  {
    hide Threaded, Bindings, UniqueKeys, AllBelow, IsPow2, Bucket, Effect, Answer, After;
    NoOps<K, V>(blank);
    var m := new UnorderedMap(hasher, blank);
    answers := [];
    while |answers| < |ops|
      invariant |answers| <= |ops|
      invariant fresh(m) && m.Valid() && m.blank == blank
      invariant m.Contents() == After(ops[..|answers|], blank)
      invariant forall i :: 0 <= i < |answers| ==> answers[i] == Answer(After(ops[..i], blank), ops[i], blank)
      invariant forall i :: 0 <= i < |answers| ==>
                  var m, k := After(ops[..i], blank), ops[i].key;
                  && (ops[i].Lookup? ==> answers[i] == if k in m then Some(m[k]) else None)
                  && (ops[i].Touch? ==> answers[i] == Some(if k in m then m[k] else blank))
    {
      assert |m.entries| < MAX_ENTRIES by {
        CountBindings(m.entries);
        assert m.Contents() == Bindings(m.entries);
      }
      var op := ops[|answers|];
      OneOpMore(ops, |answers|, blank);
      AnswerIs(After(ops[..|answers|], blank), op, blank);
      var answer := Perform(m, op);
      answers := answers + [answer];
    }
  }
}
