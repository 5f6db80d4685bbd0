/**
  What a read makes of the end of its walk, in the kernel memory and in terms of the stored
  messages.
*/
module SlotAnswers {
  import opened SlotLayout
  import opened SlotLookup
  import opened SlotModel

  /** A node with a message that it is safe to copy. */
  predicate Readable(heap: Heap, found: Lookup) {
    found.Found? ==>
      && IsNode(heap, found.node) && heap[found.node].msg in heap && heap[heap[found.node].msg].Buffer?
      && 0 <= heap[found.node].msgLength <= |heap[heap[found.node].msg].bytes|
  }

  /** What a read makes of the end of its walk, when its temporary buffer is allocated and copied. */
  function AnswerOf(heap: Heap, found: Lookup, length: nat, bufferIsNull: bool): Reply
    requires Readable(heap, found)
  {
    match found
    case Astray => Stray
    case Absent => Error(-EWOULDBLOCK)
    case Found(node) =>
      if length < heap[node].msgLength || bufferIsNull then Error(-ENOSPC)
      else Message(heap[heap[node].msg].bytes[..heap[node].msgLength])
  }

  lemma AnswerIsStray(heap: Heap, found: Lookup, length: nat, bufferIsNull: bool)
    requires Readable(heap, found)
    ensures AnswerOf(heap, found, length, bufferIsNull) == Stray <==> found == Astray
    ensures AnswerOf(heap, found, length, bufferIsNull) != Error(-EINVAL)
  {
  }

  /** Any node that a walk finds has a whole message. */
  lemma FoundIsReadable(heap: Heap, o: Ownership, store: Store, m: int, c: int, steps: nat, found: Lookup)
    requires Layout(heap, o, store) && Settled(store) && m in o.order
    requires Ends(heap, FirstOf(o, m), c, steps, found)
    ensures Readable(heap, found)
  {
    hide Layout, FirstOf, NodeAt, Follow;
    if found.Found? {
      var n, i := NodeHasPlace(heap, o, store, found.node);
      var d := o.order[n][i];
      assert d in o.order[n];
      NodeIsThereIn(heap, o, store, n, i);
      ChannelsAreListed(heap, o, store, n, d);
      ChannelBlocks(heap, o, store, n, d);
      SettledHolds(store, n, d);
    }
  }

  lemma AnswerIsReply(heap: Heap, o: Ownership, store: Store, m: int, privateData: nat, length: nat, bufferIsNull: bool)
    requires Layout(heap, o, store) && Settled(store) && m in o.order && privateData != 0
    ensures m in store && Readable(heap, Expected(o, m, Narrow(privateData)))
    ensures AnswerOf(heap, Expected(o, m, Narrow(privateData)), length, bufferIsNull) ==
      ReadReply(store, m, privateData, length, bufferIsNull)
  {
    hide Layout, Narrow;
    ChannelsAreListed(heap, o, store, m, Narrow(privateData));
    if Narrow(privateData) in store[m] {
      ChannelBlocks(heap, o, store, m, Narrow(privateData));
      SettledHolds(store, m, Narrow(privateData));
    }
  }

  /** A walk from the i-th node on finds the channels that are not below that of the node. */
  lemma WalkFindsFrom(heap: Heap, o: Ownership, store: Store, n: int, i: nat, c: int, steps: nat, found: Lookup)
    requires Layout(heap, o, store) && n in o.order && i < |o.order[n]|
    requires Ends(heap, NodeAt(o, n, i), c, steps, found)
    ensures found == if c < o.order[n][i] then Absent else Expected(o, n, c)
  {
    hide Layout, NodeAt, Ends;
    var s := o.order[n];
    WalkFromNode(heap, o, store, n, i, c, steps, found);
    ChannelsAreListed(heap, o, store, n, c);
    if i + steps < |s| {
      NodeIsThereIn(heap, o, store, n, i + steps);
    }
  }

  /**
    A list without nodes whose first word is the address of a node, of channel d of some other
    list n: its reads answer as those of list n do, from channel d on.
  */
  lemma BorrowedAnswer(heap: Heap, o: Ownership, store: Store, m: int, privateData: nat, steps: nat, found: Lookup,
                       length: nat, bufferIsNull: bool) returns (n: int, d: int)
    requires Layout(heap, o, store) && Settled(store) && m in o.order && privateData != 0
    requires !Sound(o, m) && IsNode(heap, FirstOf(o, m))
    requires Ends(heap, FirstOf(o, m), Narrow(privateData), steps, found)
    ensures FirstOf(o, m) in o.role && o.role[FirstOf(o, m)] == NodeOf(n, d)
    ensures n != m && n in store && d in store[n] && Readable(heap, found)
    ensures AnswerOf(heap, found, length, bufferIsNull) ==
      if Narrow(privateData) < d then Error(-EWOULDBLOCK)
      else ReadReply(store, n, privateData, length, bufferIsNull)
  {
    hide Layout, Narrow, NodeAt, FirstOf, Ends, ReadReply, Expected;
    var c := Narrow(privateData);
    var i;
    n, i := NodeHasPlace(heap, o, store, FirstOf(o, m));
    var s := o.order[n];
    d := s[i];
    assert d in s;
    NodeIsThereIn(heap, o, store, n, i);
    LayoutParts(heap, o, store);
    hide Complete;
    ChannelsAreListed(heap, o, store, n, d);
    WalkFindsFrom(heap, o, store, n, i, c, steps, found);
    AnswerIsReply(heap, o, store, n, privateData, length, bufferIsNull);
  }
}
