/** The least-loaded server index of src/common/ServerNode.h: a heap whose entries are dropped lazily, and
    the map it must agree with. */
module ServerNodes {
  import opened Decimal

  const STALE_THRESHOLD: nat := 100

  function KeyOf(ip: string, port: int): string { ip + ":" + ToText(port) }

  /** The last colon of a key is the one before its port. */
  lemma LastColon(ip: string, text: string, ip': string, text': string)
    requires ip + ":" + text == ip' + ":" + text' && ':' !in text
    ensures |ip'| <= |ip|
  {
    var k := ip + ":" + text;
    assert k[|ip'|] == (ip' + ":" + text')[|ip'|] == ':';
    assert forall i :: |ip| < i < |k| ==> k[i] == text[i - |ip| - 1];
  }

  /** The key of a node determines its address, even for an address with colons in it. */
  lemma KeyIsInjective(ip: string, port: int, ip': string, port': int)
    requires KeyOf(ip, port) == KeyOf(ip', port')
    ensures ip == ip' && port == port'
  {
    hide ToText;
    var k := KeyOf(ip, port);
    TextCharacters(port);
    TextCharacters(port');
    LastColon(ip, ToText(port), ip', ToText(port'));
    LastColon(ip', ToText(port'), ip, ToText(port));
    assert k[..|ip|] == ip && k[..|ip'|] == ip';
    assert k[|ip| + 1..] == ToText(port) && k[|ip'| + 1..] == ToText(port');
    TextIsInjective(port, port');
  }

  lemma SampleKey()
    ensures KeyOf("10.0.0.1", 8000) == "10.0.0.1:8000"
  {
    SampleTexts();
  }

  datatype Address = Address(cpuUsage: real, ip: string, port: int)

  /** A heap element. Two elements may have equal fields; what tells them apart is their identity. */
  class ServerNode {
    const cpuUsage: real
    const ip: string
    const port: int

    function Key(): string { KeyOf(ip, port) }

    function AsAddress(): Address { Address(cpuUsage, ip, port) }

    constructor (a: Address)
      ensures AsAddress() == a
    {
      cpuUsage, ip, port := a.cpuUsage, a.ip, a.port;
    }
  }

  /** `n` itself, not merely a node with its key, is in the map. */
  predicate Live(m: map<string, ServerNode>, n: ServerNode) {
    n.Key() in m && m[n.Key()] == n
  }

  /** Every live node is in the heap exactly once, and so is every stale entry; there is nothing else. */
  ghost predicate Matches(heap: multiset<ServerNode>, m: map<string, ServerNode>, stale: set<ServerNode>) {
    && (forall k :: k in m ==> m[k].Key() == k && m[k] in heap)
    && (forall n :: n in heap ==> heap[n] == 1 && (Live(m, n) || n in stale))
    && (forall n :: n in stale ==> n in heap && !Live(m, n))
    && |heap| == |m| + |stale|
  }

  lemma SizeWithout<K, V>(m: map<K, V>, k: K)
    requires k in m
    ensures |m - {k}| == |m| - 1
  {
    assert (m - {k}).Keys == m.Keys - {k};
    assert |m| == |m.Keys| && |m - {k}| == |(m - {k}).Keys|;
  }

  lemma RemovalMatches(heap: multiset<ServerNode>, m: map<string, ServerNode>, stale: set<ServerNode>, k: string)
    requires Matches(heap, m, stale) && k in m
    ensures m[k] !in stale && Matches(heap, m - {k}, stale + {m[k]})
  {
    hide KeyOf;
    SizeWithout(m, k);
  }

  lemma PushMatches(heap: multiset<ServerNode>, m: map<string, ServerNode>, stale: set<ServerNode>, n: ServerNode)
    requires Matches(heap, m, stale) && n.Key() !in m && n !in heap
    ensures Matches(heap + multiset{n}, m[n.Key() := n], stale)
  {
    hide KeyOf;
    SizeWithout(m[n.Key() := n], n.Key());
    assert m[n.Key() := n] - {n.Key()} == m;
  }

  lemma PopMatches(heap: multiset<ServerNode>, m: map<string, ServerNode>, stale: set<ServerNode>, n: ServerNode)
    requires Matches(heap, m, stale) && n in heap && !Live(m, n)
    ensures n in stale && Matches(heap - multiset{n}, m, stale - {n})
  {
    hide KeyOf;
  }

  lemma MatchesSize(heap: multiset<ServerNode>, m: map<string, ServerNode>, stale: set<ServerNode>)
    requires Matches(heap, m, stale)
    ensures |heap| == |m| + |stale|
    ensures heap == multiset{} ==> m == map[]
  {
    assert forall k :: k in m ==> m[k] in heap;
    assert heap == multiset{} ==> m.Keys == {};
  }

  /** The addresses a map of nodes stands for. */
  ghost function AddressesOf(m: map<string, ServerNode>): map<string, Address> {
    map k | k in m :: m[k].AsAddress()
  }

  lemma AddressesReplaced(m: map<string, ServerNode>, n: ServerNode)
    ensures AddressesOf((m - {n.Key()})[n.Key() := n]) == AddressesOf(m)[n.Key() := n.AsAddress()]
  {
    hide KeyOf;
  }

  lemma NoAddresses()
    ensures AddressesOf(map[]) == map[]
  {
  }

  /** A live node on top of the heap has the least load of all live nodes. */
  lemma TopIsLeast(heap: multiset<ServerNode>, m: map<string, ServerNode>, stale: set<ServerNode>, top: ServerNode)
    requires Matches(heap, m, stale) && Live(m, top) && forall n :: n in heap ==> top.cpuUsage <= n.cpuUsage
    ensures var a := AddressesOf(m);
      && top.Key() in a && a[top.Key()] == top.AsAddress() && a != map[]
      && forall k :: k in a ==> top.cpuUsage <= a[k].cpuUsage
  {
    hide KeyOf;
    assert forall k :: k in m ==> m[k] in heap;
  }

  /** The heap holds the nodes of the map that are not under one of `keys`, each once. */
  ghost predicate Partial(heap: multiset<ServerNode>, m: map<string, ServerNode>, keys: set<string>) {
    && keys <= m.Keys
    && (forall k :: k in m && k !in keys ==> m[k] in heap)
    && (forall n :: n in heap ==> heap[n] == 1 && Live(m, n) && n.Key() !in keys)
    && |heap| + |keys| == |m|
  }

  lemma PartialGrows(heap: multiset<ServerNode>, m: map<string, ServerNode>, keys: set<string>, k: string)
    requires Partial(heap, m, keys) && k in keys && m[k].Key() == k
    ensures Partial(heap + multiset{m[k]}, m, keys - {k})
  {
    hide KeyOf;
    assert m[k] !in heap;
  }

  lemma PartialStart(m: map<string, ServerNode>)
    ensures Partial(multiset{}, m, m.Keys)
  {
    assert |m.Keys| == |m|;
  }

  lemma PartialEnd(heap: multiset<ServerNode>, m: map<string, ServerNode>)
    requires Partial(heap, m, {}) && forall k :: k in m ==> m[k].Key() == k
    ensures Matches(heap, m, {})
  {
    hide KeyOf;
  }

  lemma KeysMatch(heap: multiset<ServerNode>, m: map<string, ServerNode>, stale: set<ServerNode>)
    requires Matches(heap, m, stale)
    ensures forall k :: k in m ==> m[k].Key() == k
  {
  }

  class ServerNodeManager {
    var minHeap: multiset<ServerNode>
    var nodeMap: map<string, ServerNode>
    var staleCount: nat

    // The heap entries that were removed or replaced, and the history: successful removals, stale entries
    // popped, stale entries dropped by rebuilding, rebuilds.
    ghost var stale: set<ServerNode>
    ghost var removals: nat
    ghost var popped: nat
    ghost var dropped: nat
    ghost var rebuilds: nat

    /** What the index stands for. */
    ghost function Addresses(): map<string, Address>
      reads this
    {
      AddressesOf(nodeMap)
    }

    /** Every removal left an entry that is still stale, or was popped, or was dropped; `staleCount` bounds
        the stale entries, and every rebuild accounts for at least a hundred removals. */
    ghost predicate CountsOk()
      reads this
    {
      && |stale| <= staleCount
      && removals == popped + dropped + |stale|
      && 100 * rebuilds + staleCount <= removals
    }

    ghost predicate Valid()
      reads this
    {
      Matches(minHeap, nodeMap, stale) && CountsOk()
    }

    constructor ()
      ensures Valid() && nodeMap == map[] && Addresses() == map[] && removals == 0
    {
      minHeap, nodeMap, staleCount, stale := multiset{}, map[], 0, {};
      removals, popped, dropped, rebuilds := 0, 0, 0, 0;
    }

    method RemoveNodeInternal(key: string) returns (found: bool)
      requires Valid()
      modifies this`nodeMap, this`staleCount, this`stale, this`removals
      ensures Valid() && found == (key in old(nodeMap)) && nodeMap == old(nodeMap) - {key}
      ensures removals == old(removals) + if found then 1 else 0
      ensures staleCount == old(staleCount) + if found then 1 else 0
    {
      hide Matches;
      if key !in nodeMap {
        return false;
      }
      RemovalMatches(minHeap, nodeMap, stale, key);
      stale := stale + {nodeMap[key]};
      nodeMap := nodeMap - {key};
      staleCount := staleCount + 1;
      removals := removals + 1;
      return true;
    }

    /** Empties the heap and pushes every node of the map. */
    method RebuildHeap()
      requires Valid() && 100 <= staleCount
      modifies this`minHeap, this`staleCount, this`stale, this`dropped, this`rebuilds
      ensures Valid() && stale == {} && staleCount == 0 && rebuilds == old(rebuilds) + 1
    {
      hide KeyOf, Matches, Partial;
      KeysMatch(minHeap, nodeMap, stale);
      dropped := dropped + |stale|;
      stale := {};
      rebuilds := rebuilds + 1;
      minHeap := multiset{};
      var keys := nodeMap.Keys;
      PartialStart(nodeMap);
      while keys != {}
        modifies this`minHeap
        invariant keys <= nodeMap.Keys && Partial(minHeap, nodeMap, keys)
        decreases |keys|
      {
        var k :| k in keys;
        PartialGrows(minHeap, nodeMap, keys, k);
        minHeap := minHeap + multiset{nodeMap[k]};
        keys := keys - {k};
      }
      PartialEnd(minHeap, nodeMap);
      staleCount := 0;
    }

    /** The new node enters the heap and the map. */
    method Push(n: ServerNode)
      requires Valid() && n.Key() !in nodeMap && n !in minHeap
      modifies this`minHeap, this`nodeMap
      ensures Valid() && n in minHeap
      ensures nodeMap == old(nodeMap)[n.Key() := n]
    {
      hide Matches;
      PushMatches(minHeap, nodeMap, stale, n);
      minHeap := minHeap + multiset{n};
      nodeMap := nodeMap[n.Key() := n];
    }

    /** Adds a node or replaces the one with the same key. Afterwards fewer than a hundred removals have
        not been accounted for by a rebuild, so the heap is not much larger than the map. */
    method UpsertNode(a: Address)
      requires Valid()
      modifies this
      ensures Valid() && Addresses() == old(Addresses())[KeyOf(a.ip, a.port) := a]
      ensures staleCount < 100 && |minHeap| <= |nodeMap| + 99
      ensures removals == old(removals) + if KeyOf(a.ip, a.port) in old(nodeMap) then 1 else 0
    {
      hide KeyOf, Matches, AddressesOf;
      var newNode := new ServerNode(a);
      assert newNode !in minHeap;
      var key := newNode.Key();
      AddressesReplaced(nodeMap, newNode);
      var found := RemoveNodeInternal(key);
      Push(newNode);
      if staleCount >= STALE_THRESHOLD && minHeap != multiset{} {
        RebuildHeap();
      }
      MatchesSize(minHeap, nodeMap, stale);
    }

    method RemoveNode(ip: string, port: int) returns (found: bool)
      requires Valid()
      modifies this`nodeMap, this`staleCount, this`stale, this`removals
      ensures Valid() && found == (KeyOf(ip, port) in old(Addresses()))
      ensures Addresses() == old(Addresses()) - {KeyOf(ip, port)}
    {
      hide Matches, CountsOk, ToText;
      found := RemoveNodeInternal(ip + ":" + ToText(port));
    }

    /** The contract of `priority_queue::top` under the order on cpu usage. */
    method Top() returns (top: ServerNode)
      requires minHeap != multiset{}
      ensures top in minHeap && forall n :: n in minHeap ==> top.cpuUsage <= n.cpuUsage
    {
      top :| top in minHeap;
      var rest := minHeap - multiset{top};
      ghost var seen := multiset{top};
      while rest != multiset{}
        invariant seen + rest == minHeap && top in minHeap
        invariant forall n :: n in seen ==> top.cpuUsage <= n.cpuUsage
        decreases |rest|
      {
        var n :| n in rest;
        rest := rest - multiset{n};
        seen := seen + multiset{n};
        if n.cpuUsage < top.cpuUsage {
          top := n;
        }
      }
    }

    /** Pops a stale entry. */
    method PopStale(top: ServerNode)
      requires Valid() && top in minHeap && !Live(nodeMap, top)
      modifies this`minHeap, this`stale, this`popped
      ensures Valid() && minHeap == old(minHeap) - multiset{top} && popped == old(popped) + 1
    {
      hide Matches;
      PopMatches(minHeap, nodeMap, stale, top);
      minHeap := minHeap - multiset{top};
      stale := stale - {top};
      popped := popped + 1;
    }

    /** A node of least cpu usage among those of the map; null exactly if there is none. Stale entries on
        top of the heap are popped on the way, and the map does not change. */
    method GetLowestCPUNode() returns (node: ServerNode?)
      requires Valid()
      modifies this`minHeap, this`stale, this`popped
      ensures Valid() && Addresses() == old(Addresses())
      ensures node == null <==> Addresses() == map[]
      ensures node != null ==> Live(nodeMap, node)
      ensures node != null ==> node.Key() in Addresses() && Addresses()[node.Key()] == node.AsAddress()
      ensures node != null ==> forall k :: k in Addresses() ==> node.cpuUsage <= Addresses()[k].cpuUsage
    {
      hide KeyOf, CountsOk, Matches, AddressesOf, Live;
      while minHeap != multiset{}
        modifies this`minHeap, this`stale, this`popped
        invariant Valid()
        decreases |minHeap|
      {
        var top := Top();
        if Live(nodeMap, top) {
          TopIsLeast(minHeap, nodeMap, stale, top);
          return top;
        }
        PopStale(top);
      }
      MatchesSize(minHeap, nodeMap, stale);
      assert AddressesOf(map[]) == map[] by { NoAddresses(); }
      node := null;
    }
  }
}
