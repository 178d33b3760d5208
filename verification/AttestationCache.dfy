/**
 The attestation cache on the heap: a doubly linked list between two sentinels,
 threaded through the nodes of a map. Every operation is proved equal to the
 operation of the same name in `CacheModel`.
 */
module AttestationCache {
  import opened Outcomes
  import opened CacheModel

  class Node<V> {
    var key: string
    var value: V
    var insertedAt: int
    var prev: Node?<V>
    var next: Node?<V>

    constructor (key: string, value: V, insertedAt: int)
      ensures this.key == key && this.value == value && this.insertedAt == insertedAt
    {
      this.key, this.value, this.insertedAt := key, value, insertedAt;
      prev, next := null, null;
    }
  }

  /** Following `next` visits `chain` in order; following `prev` visits it backwards. */
  ghost predicate Linked<V>(chain: seq<Node<V>>)
    reads chain
  {
    && (forall i, j :: 0 <= i < j < |chain| ==> chain[i] != chain[j])
    && (forall i {:trigger chain[i].next} :: 0 <= i < |chain| - 1 ==> chain[i].next == chain[i + 1])
    && (forall i {:trigger chain[i].prev} :: 0 < i < |chain| ==> chain[i].prev == chain[i - 1])
  }

  /** The i-th node after the head sentinel holds the i-th entry. */
  ghost predicate Holds<V>(chain: seq<Node<V>>, entries: seq<Entry<V>>)
    requires |chain| == |entries| + 2
    reads chain
  {
    forall i {:trigger entries[i]} :: 0 <= i < |entries| ==>
      && chain[i + 1].key == entries[i].key
      && chain[i + 1].value == entries[i].value
      && chain[i + 1].insertedAt == entries[i].insertedAt
  }

  /** The map leads from the key of the i-th entry to its node; equal sizes leave no other key. */
  ghost predicate Mapped<V>(nodes: map<string, Node<V>>, entries: seq<Entry<V>>, chain: seq<Node<V>>)
    requires |chain| == |entries| + 2
  {
    && |nodes| == |entries|
    && DistinctKeys(entries)
    && (forall i {:trigger entries[i]} :: 0 <= i < |entries| ==>
          entries[i].key in nodes && nodes[entries[i].key] == chain[i + 1])
  }

  function Drop<T>(s: seq<T>, i: nat): (r: seq<T>)
    requires i < |s|
    ensures |r| == |s| - 1
    ensures forall k :: 0 <= k < |r| ==> r[k] == s[if k < i then k else k + 1]
  {
    s[..i] + s[i + 1..]
  }

  function Second<T>(s: seq<T>, x: T): (r: seq<T>)
    requires |s| > 0
    ensures |r| == |s| + 1 && r[0] == s[0] && r[1] == x
    ensures forall k :: 2 <= k < |r| ==> r[k] == s[k - 1]
  {
    [s[0], x] + s[1..]
  }

  lemma {:induction false} DistinctKeysFillTheSet<V>(entries: seq<Entry<V>>, all: set<string>)
    requires DistinctKeys(entries)
    requires |all| == |entries| && forall i :: 0 <= i < |entries| ==> entries[i].key in all
    ensures forall k :: k in all ==> exists i :: 0 <= i < |entries| && entries[i].key == k
  {
    if entries != [] {
      var rest := all - {entries[0].key};
      DistinctKeysFillTheSet(entries[1..], rest);
      forall k | k in all ensures exists i :: 0 <= i < |entries| && entries[i].key == k {
        if k != entries[0].key {
          assert k in rest;
          var i :| 0 <= i < |entries| - 1 && entries[1..][i].key == k;
          assert entries[i + 1].key == k;
        }
      }
    }
  }

  lemma EveryKeyHasANode<V>(nodes: map<string, Node<V>>, entries: seq<Entry<V>>, chain: seq<Node<V>>, key: string)
    returns (i: nat)
    requires |chain| == |entries| + 2 && Mapped(nodes, entries, chain) && key in nodes
    ensures i < |entries| && chain[i + 1] == nodes[key] && entries[i].key == key
  {
    DistinctKeysFillTheSet(entries, nodes.Keys);
    i :| 0 <= i < |entries| && entries[i].key == key;
  }

  lemma MappedDrop<V>(nodes: map<string, Node<V>>, entries: seq<Entry<V>>, chain: seq<Node<V>>, i: nat,
                      key: string)
    requires |chain| == |entries| + 2 && Mapped(nodes, entries, chain) && i < |entries| && key == entries[i].key
    ensures Mapped(nodes - {key}, Drop(entries, i), Drop(chain, i + 1))
  {
    var fewer := nodes - {key};
    assert fewer.Keys == nodes.Keys - {key};
  }

  lemma MappedFront<V>(nodes: map<string, Node<V>>, entries: seq<Entry<V>>, chain: seq<Node<V>>, i: nat)
    requires |chain| == |entries| + 2 && Mapped(nodes, entries, chain) && i < |entries|
    ensures Mapped(nodes, [entries[i]] + Drop(entries, i), Second(Drop(chain, i + 1), chain[i + 1]))
  {
  }

  /** A chain whose `i`-th node moves right behind the head keeps its ends and its nodes. */
  lemma FrontKeepsNodes<V>(chain: seq<Node<V>>, i: nat, within: set<object>)
    requires 0 < i < |chain| - 1 && forall k :: 0 <= k < |chain| ==> chain[k] in within
    ensures var moved := Second(Drop(chain, i), chain[i]);
            && |moved| == |chain|
            && moved[0] == chain[0] && moved[|moved| - 1] == chain[|chain| - 1]
            && forall k :: 0 <= k < |moved| ==> moved[k] in within
  {
  }

  lemma HoldsFront<V>(chain: seq<Node<V>>, entries: seq<Entry<V>>, i: nat)
    requires |chain| == |entries| + 2 && Holds(chain, entries) && i < |entries|
    ensures Holds(Second(Drop(chain, i + 1), chain[i + 1]), [entries[i]] + Drop(entries, i))
  {
    var moved, es := Second(Drop(chain, i + 1), chain[i + 1]), [entries[i]] + Drop(entries, i);
    forall k | 0 <= k < |es|
      ensures exists j :: 0 <= j < |entries| && es[k] == entries[j] && moved[k + 1] == chain[j + 1]
    {
      var j := if k == 0 then i else if k <= i then k - 1 else k;
      assert es[k] == entries[j] && moved[k + 1] == chain[j + 1];
    }
  }

  lemma DropKeepsNodes<V>(chain: seq<Node<V>>, i: nat, within: set<object>)
    requires 0 < i < |chain| - 1 && forall k :: 0 <= k < |chain| ==> chain[k] in within
    ensures var fewer := Drop(chain, i);
            && |fewer| == |chain| - 1
            && fewer[0] == chain[0] && fewer[|fewer| - 1] == chain[|chain| - 1]
            && forall k :: 0 <= k < |fewer| ==> fewer[k] in within
  {
  }

  lemma HoldsDrop<V>(chain: seq<Node<V>>, entries: seq<Entry<V>>, i: nat)
    requires |chain| == |entries| + 2 && Holds(chain, entries) && i < |entries|
    ensures Holds(Drop(chain, i + 1), Drop(entries, i))
  {
  }

  lemma InsertKeepsNodes<V>(chain: seq<Node<V>>, node: Node<V>, within: set<object>)
    requires |chain| >= 2 && forall k :: 0 <= k < |chain| ==> chain[k] in within
    ensures var more := Second(chain, node);
            && |more| == |chain| + 1
            && more[0] == chain[0] && more[|more| - 1] == chain[|chain| - 1]
            && forall k :: 0 <= k < |more| ==> more[k] in within + {node}
  {
  }

  lemma HoldsInsert<V>(chain: seq<Node<V>>, entries: seq<Entry<V>>, node: Node<V>, e: Entry<V>)
    requires |chain| == |entries| + 2 && Holds(chain, entries)
    requires node.key == e.key && node.value == e.value && node.insertedAt == e.insertedAt
    ensures Holds(Second(chain, node), [e] + entries)
  {
    var es := [e] + entries;
    assert forall k :: 0 < k < |es| ==> es[k] == entries[k - 1];
  }

  lemma MappedInsert<V>(nodes: map<string, Node<V>>, entries: seq<Entry<V>>, chain: seq<Node<V>>, e: Entry<V>,
                        node: Node<V>)
    requires |chain| == |entries| + 2 && Mapped(nodes, entries, chain) && e.key !in nodes
    ensures Mapped(nodes[e.key := node], [e] + entries, Second(chain, node))
  {
    var es := [e] + entries;
    assert forall i :: 0 < i < |es| ==> es[i] == entries[i - 1];
  }

  /** The entries when the purging walk, coming from the end, has still `j` entries ahead. */
  ghost function Purged<V>(was: seq<Entry<V>>, j: nat, ttlMs: nat, now: int): (es: seq<Entry<V>>)
    requires j <= |was|
    ensures |es| >= j
    ensures forall k :: 0 <= k < j ==> es[k] == was[k]
  {
    was[..j] + Survivors(was[j..], ttlMs, now)
  }

  lemma PurgedBounds<V>(was: seq<Entry<V>>, ttlMs: nat, now: int)
    ensures Purged(was, |was|, ttlMs, now) == was
    ensures Purged(was, 0, ttlMs, now) == Survivors(was, ttlMs, now)
  {
    assert was[|was|..] == [] && was[0..] == was;
  }

  lemma PurgedStep<V>(was: seq<Entry<V>>, j: nat, ttlMs: nat, now: int)
    requires 0 < j <= |was|
    ensures Purged(was, j - 1, ttlMs, now)
         == if Expired(was[j - 1], ttlMs, now) then Drop(Purged(was, j, ttlMs, now), j - 1)
            else Purged(was, j, ttlMs, now)
  {
    hide Expired;
    assert was[j - 1..][0] == was[j - 1] && was[j - 1..][1..] == was[j..];
    assert was[..j] == was[..j - 1] + [was[j - 1]];
  }

  class AttestationCache<V> {
    var nodes: map<string, Node<V>>
    const maxSize: nat
    const ttlMs: nat
    /** Sentinels: `head.next` is the most recently used node, `tail.prev` the least. */
    const head: Node<V>
    const tail: Node<V>
    var signerId: Option<string>
    var window: Option<Window>
    var hits: nat
    var misses: nat
    var evictions: nat

    /** The linked nodes from sentinel to sentinel, most recently used first. */
    ghost var chain: seq<Node<V>>
    /** What the nodes between the sentinels hold. */
    ghost var entries: seq<Entry<V>>
    ghost var Repr: set<object>

    /** The list is well linked, and the map leads from every key to its node and nowhere else. */
    ghost predicate Valid()
      reads this, Repr
      ensures Valid() ==> this in Repr
    {
      && this in Repr
      && |chain| == |entries| + 2
      && (forall i :: 0 <= i < |chain| ==> chain[i] in Repr)
      && chain[0] == head && chain[|chain| - 1] == tail
      && maxSize >= 1 && |entries| <= maxSize
      && Linked(chain)
      && Holds(chain, entries)
      && Mapped(nodes, entries, chain)
    }

    /** The abstract value of the cache. */
    ghost function Model(): Cache<V>
      requires Valid()
      reads this, Repr
    {
      Cache(maxSize, ttlMs, entries, signerId, window, hits, misses, evictions)
    }

    /** `undefined` stands for the value the source casts into the sentinels; it is never read. */
    constructor (maxSize: nat, ttlMs: nat, undefined: V)
      requires maxSize >= 1
      ensures Valid() && fresh(Repr)
      ensures Model() == Empty(maxSize, ttlMs)
    {
      this.maxSize, this.ttlMs := maxSize, ttlMs;
      var h := new Node("__head__", undefined, 0);
      var t := new Node("__tail__", undefined, 0);
      h.next := t;
      t.prev := h;
      head, tail, nodes := h, t, map[];
      chain, entries := [h, t], [];
      signerId, window := None, None;
      hits, misses, evictions := 0, 0, 0;
      Repr := {this, h, t};
    }

    /** Refuses options the source rejects with a range error. */
    static method Create(maxSize: int, ttlMs: int, undefined: V) returns (r: Option<AttestationCache<V>>)
      ensures r.Some? <==> maxSize >= 1 && ttlMs >= 0
      ensures r.Some? ==> fresh(r.value.Repr) && r.value.Valid() && r.value.Model() == Empty(maxSize, ttlMs)
    {
      if maxSize < 1 || ttlMs < 0 {
        return None;
      }
      var c := new AttestationCache<V>(maxSize, ttlMs, undefined);
      return Some(c);
    }

    // ------------------------------------------------------------------
    // Linked-list helpers
    // ------------------------------------------------------------------

    /** Unlinks the node between `before` and `after`, at position `i` of a chain. */
    method RemoveNode(node: Node<V>, ghost before: Node<V>, ghost after: Node<V>, ghost chain: seq<Node<V>>,
                      ghost i: nat)
      requires Linked(chain) && 0 < i < |chain| - 1
      requires chain[i - 1] == before && chain[i] == node && chain[i + 1] == after
      modifies before`next, after`prev, node`prev, node`next
      ensures Linked(Drop(chain, i))
      ensures node.prev == null && node.next == null
    {
      assert chain[i].prev == before && chain[i].next == after;
      var p, n := node.prev, node.next;
      p.next := n;
      n.prev := p;
      node.prev, node.next := null, null;
    }

    /** Links an unlinked node right behind the head sentinel. */
    method InsertAtFront(node: Node<V>, ghost first: Node<V>, ghost chain: seq<Node<V>>)
      requires Linked(chain) && |chain| >= 2 && chain[0] == head && chain[1] == first && node !in chain
      modifies head`next, first`prev, node`prev, node`next
      ensures Linked(Second(chain, node))
    {
      assert chain[0].next == first;
      node.prev := head;
      node.next := head.next;
      head.next.prev := node;
      head.next := node;
    }

    /** Moves a linked node right behind the head sentinel. */
    method MoveToFront(node: Node<V>, ghost before: Node<V>, ghost after: Node<V>, ghost first: Node<V>,
                       ghost chain: seq<Node<V>>, ghost i: nat)
      requires Linked(chain) && 0 < i < |chain| - 1 && chain[0] == head
      requires chain[i - 1] == before && chain[i] == node && chain[i + 1] == after
      requires first == if i == 1 then after else chain[1]
      modifies head`next, first`prev, before`next, after`prev, node`prev, node`next
      ensures Linked(Second(Drop(chain, i), node))
    {
      RemoveNode(node, before, after, chain, i);
      InsertAtFront(node, first, Drop(chain, i));
    }

    /** Position of a mapped node in the list. */
    lemma PositionOf(key: string) returns (i: nat)
      requires Valid() && key in nodes
      ensures i < |entries| && chain[i + 1] == nodes[key]
      ensures Find(entries, key) == Some(entries[i])
      ensures Without(entries, key) == Drop(entries, i)
    {
      i := EveryKeyHasANode(nodes, entries, chain, key);
      WithoutAt(entries, i);
    }

    lemma AbsentKey(key: string)
      requires Valid() && key !in nodes
      ensures Find(entries, key).None? && Without(entries, key) == entries
    {
      WithoutAbsent(entries, key);
    }

    // ------------------------------------------------------------------
    // Moving and removing mapped nodes
    // ------------------------------------------------------------------

    /** Drops the node of entry `i` from list and map. */
    method Unlink(node: Node<V>, ghost i: nat)
      requires Valid() && i < |entries| && chain[i + 1] == node
      modifies Repr
      ensures Valid() && Repr == old(Repr)
      ensures chain == Drop(old(chain), i + 1)
      ensures Model() == old(Model()).(entries := Drop(old(entries), i))
    {
      hide Linked, Mapped, Drop;
      ghost var linked, held := chain, entries;
      MappedDrop(nodes, held, linked, i, node.key);
      DropKeepsNodes(linked, i + 1, Repr);
      nodes, chain, entries := nodes - {node.key}, Drop(linked, i + 1), Drop(held, i);
      RemoveNode(node, linked[i], linked[i + 2], linked, i + 1);
      HoldsDrop(linked, held, i);
    }

    /** Removes a node and counts the eviction. */
    method EvictNode(node: Node<V>, ghost i: nat)
      requires Valid() && i < |entries| && chain[i + 1] == node
      modifies Repr
      ensures Valid() && Repr == old(Repr)
      ensures chain == Drop(old(chain), i + 1)
      ensures Model() == old(Model()).(entries := Drop(old(entries), i), evictions := old(evictions) + 1)
    {
      Unlink(node, i);
      evictions := evictions + 1;
    }

    /** Makes entry `i` the most recently used one. */
    method Promote(node: Node<V>, ghost i: nat)
      requires Valid() && i < |entries| && chain[i + 1] == node
      modifies Repr
      ensures Valid() && Repr == old(Repr) && nodes == old(nodes)
      ensures node.value == old(entries)[i].value
      ensures Model() == old(Model()).(entries := [old(entries)[i]] + Drop(old(entries), i))
    {
      hide Linked, Mapped, Drop, Second;
      MappedFront(nodes, entries, chain, i);
      FrontKeepsNodes(chain, i + 1, Repr);
      MoveToFront(node, chain[i], chain[i + 2], if i == 0 then chain[2] else chain[1], chain, i + 1);
      HoldsFront(chain, entries, i);
      chain, entries := Second(Drop(chain, i + 1), node), [entries[i]] + Drop(entries, i);
    }

    predicate IsExpired(node: Node<V>, now: int)
      reads node
    {
      ttlMs > 0 && now - node.insertedAt > ttlMs
    }

    /** Removes the node just before the tail sentinel, if there is one. */
    method EvictLru()
      requires Valid()
      modifies Repr
      ensures Valid() && Repr == old(Repr)
      ensures |old(entries)| == 0 ==> Model() == old(Model())
      ensures |old(entries)| > 0 ==>
                Model() == old(Model()).(entries := old(entries)[..|old(entries)| - 1], evictions := old(evictions) + 1)
    {
      assert chain[|chain| - 1].prev == chain[|chain| - 2];
      var lru := tail.prev;
      if lru == head {
        assert |entries| == 0 by { assert chain[0] == head; }
        return;
      }
      EvictNode(lru, |entries| - 1);
      assert Drop(old(entries), |old(entries)| - 1) == old(entries)[..|old(entries)| - 1];
    }

    // ------------------------------------------------------------------
    // Public operations
    // ------------------------------------------------------------------

    method CountLookup(hit: bool)
      requires Valid()
      modifies this`hits, this`misses
      ensures Valid()
      ensures Model() == old(Model()).(hits := old(hits) + (if hit then 1 else 0),
                                       misses := old(misses) + (if hit then 0 else 1))
    {
      if hit {
        hits := hits + 1;
      } else {
        misses := misses + 1;
      }
    }

    method Get(key: string, now: int) returns (r: Option<V>)
      requires Valid()
      modifies Repr
      ensures Valid() && Repr == old(Repr)
      ensures r == Answer(old(Model()), key, now)
      ensures Model() == AfterGet(old(Model()), key, now)
    {
      hide Linked, Mapped, Drop, Without, Find;
      if key !in nodes {
        AbsentKey(key);
        CountLookup(false);
        return None;
      }
      var node := nodes[key];
      ghost var i := PositionOf(key);

      if IsExpired(node, now) {
        EvictNode(node, i);
        CountLookup(false);
        return None;
      }

      Promote(node, i);
      CountLookup(true);
      return Some(node.value);
    }

    /** Stores a fresh value in the node of a key that is already cached. */
    method Refresh(node: Node<V>, value: V, now: int, ghost i: nat)
      requires Valid() && i < |entries| && chain[i + 1] == node
      modifies Repr
      ensures Valid() && Repr == old(Repr) && chain == old(chain) && nodes == old(nodes)
      ensures Model() == old(Model()).(entries := old(entries)[i := Entry(old(entries)[i].key, value, now)])
    {
      node.value := value;
      node.insertedAt := now;
      entries := entries[i := Entry(entries[i].key, value, now)];
    }

    /** Links a new node for a key that is not cached. */
    method Insert(node: Node<V>, ghost e: Entry<V>)
      requires Valid() && e.key !in nodes && |entries| < maxSize && node !in Repr
      requires node.key == e.key && node.value == e.value && node.insertedAt == e.insertedAt
      modifies Repr, node
      ensures Valid() && Repr == old(Repr) + {node}
      ensures Model() == old(Model()).(entries := [e] + old(entries))
    {
      hide Linked, Mapped, Second;
      MappedInsert(nodes, entries, chain, e, node);
      InsertKeepsNodes(chain, node, Repr);
      nodes := nodes[node.key := node];
      InsertAtFront(node, chain[1], chain);
      HoldsInsert(chain, entries, node, e);
      chain, entries, Repr := Second(chain, node), [e] + entries, Repr + {node};
    }

    method Set(key: string, value: V, now: int)
      requires Valid()
      modifies Repr
      ensures Valid() && fresh(Repr - old(Repr))
      ensures Model() == AfterSet(old(Model()), key, value, now)
    {
      hide Linked, Holds, Without, Find;
      if key in nodes {
        var existing := nodes[key];
        ghost var i := PositionOf(key);
        Refresh(existing, value, now, i);
        Promote(existing, i);
        assert Drop(old(entries)[i := Entry(key, value, now)], i) == Drop(old(entries), i);
        return;
      }

      AbsentKey(key);
      if |nodes| >= maxSize {
        EvictLru();
        assert key !in nodes by {
          if key in nodes {
            var i := PositionOf(key);
          }
        }
      }
      var node := new Node(key, value, now);
      Insert(node, Entry(key, value, now));
    }

    method Delete(key: string) returns (existed: bool)
      requires Valid()
      modifies Repr
      ensures Valid() && Repr == old(Repr)
      ensures existed <==> Find(old(entries), key).Some?
      ensures Model() == AfterDelete(old(Model()), key)
    {
      if key !in nodes {
        AbsentKey(key);
        return false;
      }
      ghost var i := PositionOf(key);
      Unlink(nodes[key], i);
      return true;
    }

    method EvictIfExpired(node: Node<V>, now: int, ghost i: nat) returns (evicted: bool)
      requires Valid() && i < |entries| && chain[i + 1] == node
      modifies Repr
      ensures Valid() && Repr == old(Repr)
      ensures evicted <==> Expired(old(entries)[i], ttlMs, now)
      ensures i < |chain| && chain[i] == old(chain)[i]
      ensures Model() == if !evicted then old(Model())
                         else old(Model()).(entries := Drop(old(entries), i), evictions := old(evictions) + 1)
    {
      assert entries[i].insertedAt == node.insertedAt;
      evicted := IsExpired(node, now);
      if evicted {
        EvictNode(node, i);
      }
    }

    /** Walks from the least to the most recently used node, evicting what has expired. */
    method PurgeExpired(now: int) returns (count: nat)
      requires Valid()
      modifies Repr
      ensures Valid() && Repr == old(Repr)
      ensures count == |old(entries)| - |entries|
      ensures Model() == AfterPurge(old(Model()), now)
    {
      hide Survivors, Purged, Mapped, Holds, Drop;
      ghost var was, j := entries, |entries|;
      count := 0;
      assert chain[|chain| - 1].prev == chain[|chain| - 2];
      var node := tail.prev;
      PurgedBounds(was, ttlMs, now);
      while node != null && node != head
        invariant 0 <= j <= |was| && j <= |entries|
        invariant Valid() && Repr == old(Repr) && node == chain[j]
        invariant Model() == old(Model()).(entries := Purged(was, j, ttlMs, now),
                                           evictions := old(evictions) + count)
        invariant count == |was| - |entries|
        decreases j
      {
        assert j > 0 && chain[j].prev == chain[j - 1];
        var prev := node.prev;
        PurgedStep(was, j, ttlMs, now);
        var evicted := EvictIfExpired(node, now, j - 1);
        if evicted {
          count := count + 1;
        }
        node := prev;
        j := j - 1;
      }
      assert j == 0;
    }

    method Clear()
      requires Valid()
      modifies Repr
      ensures Valid() && Repr == old(Repr)
      ensures Model() == old(Model()).(entries := [])
    {
      if |nodes| == 0 {
        return;
      }
      nodes := map[];
      head.next := tail;
      tail.prev := head;
      chain, entries := [head, tail], [];
    }

    method SetSignerId(id: Option<string>)
      requires Valid()
      modifies Repr
      ensures Valid() && Repr == old(Repr)
      ensures Model() == AfterSetSignerId(old(Model()), id)
    {
      if id == signerId {
        return;
      }
      Clear();
      signerId := id;
    }

    /** Returns false where the source throws a range error. */
    method BeginWindow(start: int, end: int) returns (accepted: bool)
      requires Valid()
      modifies Repr
      ensures Valid() && Repr == old(Repr)
      ensures accepted <==> ValidWindow(start, end)
      ensures Model() == AfterBeginWindow(old(Model()), start, end)
    {
      if start <= 0 {
        return false;
      }
      if end <= start {
        return false;
      }
      if window == Some(Window(start, end)) {
        return true;
      }
      Clear();
      window := Some(Window(start, end));
      return true;
    }
  }
}
