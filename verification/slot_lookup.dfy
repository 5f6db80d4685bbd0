/**
  Walking along a list in the kernel memory: where the walk for a channel ends, and when that
  is where the channel is.
*/
module SlotLookup {
  import opened SlotLayout

  predicate IsNode(heap: Heap, p: Addr) {
    p in heap && heap[p].NodeBlock?
  }

  /** The k-th successor of a node. */
  function Follow(heap: Heap, a: Addr, k: nat): Addr {
    if k == 0 then a
    else
      var p := Follow(heap, a, k - 1);
      if IsNode(heap, p) then heap[p].next else NULL
  }

  /** How a walk for a channel ends. It is astray when it is about to read a node where there is none. */
  datatype Lookup = Found(node: Addr) | Absent | Astray

  /** The walk from a for channel c ends after k steps. */
  predicate Ends(heap: Heap, a: Addr, c: int, k: nat, result: Lookup) {
    && (forall j: nat | j < k :: Passed(heap, Follow(heap, a, j), c))
    && var p := Follow(heap, a, k);
       if p == NULL then result == Absent
       else if !IsNode(heap, p) then result == Astray
       else heap[p].channelId == c && result == Found(p)
  }

  predicate Passed(heap: Heap, p: Addr, c: int) {
    p != NULL && IsNode(heap, p) && heap[p].channelId != c
  }

  lemma WalkEndsOnce(heap: Heap, a: Addr, c: int, k: nat, result: Lookup, k': nat, result': Lookup)
    requires Ends(heap, a, c, k, result) && Ends(heap, a, c, k', result')
    ensures k == k' && result == result'
  {
    hide Follow;
    assert k < k' ==> Passed(heap, Follow(heap, a, k), c);
    assert k' < k ==> Passed(heap, Follow(heap, a, k'), c);
  }

  /** Where the channel is. */
  function Expected(o: Ownership, m: int, c: int): Lookup {
    if NodeOf(m, c) in o.at then Found(o.at[NodeOf(m, c)]) else Absent
  }

  /** A list that has a node, or was allocated where the first word was NULL. */
  predicate Sound(o: Ownership, m: int)
    requires m in o.order
  {
    o.order[m] != [] || FirstOf(o, m) == NULL
  }

  lemma NodeIsThereIn(heap: Heap, o: Ownership, store: Store, m: int, i: nat)
    requires Layout(heap, o, store) && m in o.order
    ensures i < |o.order[m]| ==>
      && NodeHolds(heap, o, store, m, i)
      && NodeAt(o, m, i) == o.at[NodeOf(m, o.order[m][i])] != NULL
    ensures i >= |o.order[m]| ==> NodeAt(o, m, i) == NULL
  {
    if i < |o.order[m]| { assert NodeHolds(heap, o, store, m, i); }
  }

  lemma LayoutParts(heap: Heap, o: Ownership, store: Store)
    requires Layout(heap, o, store)
    ensures Owns(heap, o) && Complete(o, store)
  {
  }

  lemma HoldsList(heap: Heap, o: Ownership, store: Store, m: int)
    requires Layout(heap, o, store) && m in o.order
    ensures ListHolds(heap, o, m)
  {
  }

  lemma ChannelsAreListed(heap: Heap, o: Ownership, store: Store, m: int, c: int)
    requires Layout(heap, o, store) && m in o.order
    ensures m in store && ListOf(m) in o.at
    ensures c in store[m] <==> c in o.order[m]
    ensures c in store[m] <==> NodeOf(m, c) in o.at
    ensures Ascending(o.order[m])
  {
  }

  /** The two blocks of a channel that has been written. */
  lemma ChannelBlocks(heap: Heap, o: Ownership, store: Store, m: int, c: int)
    requires Layout(heap, o, store) && m in store && c in store[m]
    ensures NodeOf(m, c) in o.at && o.at[NodeOf(m, c)] in heap && o.at[NodeOf(m, c)] != NULL
    ensures BufferOf(m, c) in o.at && o.at[BufferOf(m, c)] in heap
    ensures o.at[NodeOf(m, c)] != o.at[BufferOf(m, c)]
    ensures var node := heap[o.at[NodeOf(m, c)]];
      node.NodeBlock? && node.msg == o.at[BufferOf(m, c)] && node.msgLength == store[m][c].len
    ensures heap[o.at[BufferOf(m, c)]] == Buffer(store[m][c].bytes) && |store[m][c].bytes| == MSG_MAX_LENGTH
  {
    hide Complete, NodeAt;
    var i := ChannelNode(heap, o, store, m, c);
    assert BufferHolds(heap, o, store, m, c);
    AddressesDiffer(heap, o, NodeOf(m, c), BufferOf(m, c));
  }

  lemma NextNode(heap: Heap, o: Ownership, store: Store, m: int, i: nat)
    requires Layout(heap, o, store) && m in o.order
    ensures NodeAt(o, m, i + 1) == if IsNode(heap, NodeAt(o, m, i)) then heap[NodeAt(o, m, i)].next else NULL
  {
    hide Layout, NodeAt, Owns, Complete;
    LayoutParts(heap, o, store);
    OwnedIsNotNull(heap, o);
    NodeIsThereIn(heap, o, store, m, i);
    NodeIsThereIn(heap, o, store, m, i + 1);
  }

  lemma {:induction false} FollowIsNodeAt(heap: Heap, o: Ownership, store: Store, m: int, i: nat, k: nat)
    requires Layout(heap, o, store) && m in o.order
    ensures Follow(heap, NodeAt(o, m, i), k) == NodeAt(o, m, i + k)
  {
    hide Layout, NodeAt;
    if k > 0 {
      FollowIsNodeAt(heap, o, store, m, i, k - 1);
      NextNode(heap, o, store, m, i + k - 1);
    }
  }

  /** Every node belongs to a place in a list. */
  lemma NodeHasPlace(heap: Heap, o: Ownership, store: Store, p: Addr) returns (m: int, i: nat)
    requires Layout(heap, o, store) && IsNode(heap, p)
    ensures m in o.order && i < |o.order[m]| && p == NodeAt(o, m, i) && NodeHolds(heap, o, store, m, i)
  {
    hide NodeAt, Layout;
    LayoutParts(heap, o, store);
    var r := o.role[p];
    assert r in o.at && o.at[r] == p;
    match r
    case ListOf(k) =>
      HoldsList(heap, o, store, k);
      assert false;
    case BufferOf(k, c) =>
      HoldsBuffer(heap, o, store, k, c);
      assert false;
    case NodeOf(k, c) =>
      m := k;
      assert c in o.order[m];
      i :| 0 <= i < |o.order[m]| && o.order[m][i] == c;
      NodeIsThereIn(heap, o, store, m, i);
  }

  lemma HoldsBuffer(heap: Heap, o: Ownership, store: Store, m: int, c: int)
    requires Layout(heap, o, store) && BufferOf(m, c) in o.at
    ensures m in store && c in store[m] && BufferHolds(heap, o, store, m, c)
  {
  }

  /** A walk that starts in a list ends where the channel is, if it comes after the start, and never strays. */
  lemma WalkFromNode(heap: Heap, o: Ownership, store: Store, m: int, i: nat, c: int, k: nat, result: Lookup)
    requires Layout(heap, o, store) && m in o.order && i <= |o.order[m]|
    requires Ends(heap, NodeAt(o, m, i), c, k, result)
    ensures i + k <= |o.order[m]| && forall j :: i <= j < i + k ==> o.order[m][j] != c
    ensures result ==
      if i + k == |o.order[m]| then Absent else Found(NodeAt(o, m, i + k))
    ensures i + k < |o.order[m]| ==> o.order[m][i + k] == c
  {
    hide Layout, NodeAt, Follow;
    var s := o.order[m];
    FollowIsNodeAt(heap, o, store, m, i, k);
    NodeIsThereIn(heap, o, store, m, i + k);
    NodeIsThereIn(heap, o, store, m, |s|);
    FollowIsNodeAt(heap, o, store, m, i, |s| - i);
    assert !Passed(heap, Follow(heap, NodeAt(o, m, i), |s| - i), c);
    forall j | i <= j < i + k
      ensures s[j] != c
    {
      FollowIsNodeAt(heap, o, store, m, i, j - i);
      NodeIsThereIn(heap, o, store, m, j);
      assert Passed(heap, Follow(heap, NodeAt(o, m, i), j - i), c);
    }
  }

  lemma SoundWalkIsRight(heap: Heap, o: Ownership, store: Store, m: int, c: int, k: nat, result: Lookup)
    requires Layout(heap, o, store) && m in o.order && Sound(o, m)
    requires Ends(heap, FirstOf(o, m), c, k, result)
    ensures result == Expected(o, m, c)
  {
    hide Layout, Owns, Ends;
    LayoutParts(heap, o, store);
    assert FirstOf(o, m) == NodeAt(o, m, 0);
    WalkFromNode(heap, o, store, m, 0, c, k, result);
    assert c in o.order[m] <==> NodeOf(m, c) in o.at;
    hide Complete;
    var s := o.order[m];
    if k < |s| { NodeIsThereIn(heap, o, store, m, k); }
  }

  /** The first node of a list without nodes: it belongs to another list, or it is no node at all. */
  lemma UnsoundWalk(heap: Heap, o: Ownership, store: Store, m: int, c: int)
    requires Layout(heap, o, store) && m in o.order && !Sound(o, m)
    ensures Expected(o, m, c) == Absent
    ensures var first := FirstOf(o, m);
      if IsNode(heap, first) then Ends(heap, first, heap[first].channelId, 0, Found(first))
      else Ends(heap, first, c, 0, Astray)
  {
    hide Layout, Owns;
    LayoutParts(heap, o, store);
    assert c !in o.order[m];
  }

  /**
    Looking up a channel in a list is right for every channel exactly if the list has a node or
    its first word was NULL from the start: nothing sets that word before the first node does.
  */
  lemma LookUpsAreRightExactlyIfSound(heap: Heap, o: Ownership, store: Store, m: int)
    requires Layout(heap, o, store) && m in o.order
    ensures (forall c, k: nat, result :: Ends(heap, FirstOf(o, m), c, k, result) ==> result == Expected(o, m, c))
            <==> o.order[m] != [] || FirstOf(o, m) == NULL
  {
    hide Layout, FirstOf, Ends, Expected;
    if Sound(o, m) {
      forall c, k: nat, result | Ends(heap, FirstOf(o, m), c, k, result)
        ensures result == Expected(o, m, c)
      {
        SoundWalkIsRight(heap, o, store, m, c, k, result);
      }
    } else {
      var first := FirstOf(o, m);
      var c := if IsNode(heap, first) then heap[first].channelId else 0;
      UnsoundWalk(heap, o, store, m, c);
    }
  }

  /**
    And it leaves the live nodes, whatever the channel, exactly if that word is neither NULL nor the
    address of a node.
  */
  lemma StraysExactlyIf(heap: Heap, o: Ownership, store: Store, m: int, c: int)
    requires Layout(heap, o, store) && m in o.order
    ensures (exists k: nat :: Ends(heap, FirstOf(o, m), c, k, Astray))
            <==> o.order[m] == [] && FirstOf(o, m) != NULL && !IsNode(heap, FirstOf(o, m))
  {
    hide Layout, FirstOf, Ends;
    var first := FirstOf(o, m);
    if k: nat :| Ends(heap, first, c, k, Astray) {
      if Sound(o, m) {
        SoundWalkIsRight(heap, o, store, m, c, k, Astray);
      } else if IsNode(heap, first) {
        var n, i := NodeHasPlace(heap, o, store, first);
        WalkFromNode(heap, o, store, n, i, c, k, Astray);
      }
    } else if !Sound(o, m) && !IsNode(heap, first) {
      UnsoundWalk(heap, o, store, m, c);
    }
  }
}
