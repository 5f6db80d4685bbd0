/**
  The kernel memory of the message-slot module: which allocated block plays which role,
  and what each block holds.
*/
module SlotLayout {
  const MSG_MAX_LENGTH: nat := 128
  const MINORS: nat := 256

  type Byte = b: int | 0 <= b < 256
  type Addr = nat
  const NULL: Addr := 0

  datatype Block =
    | ListBlock(first: Addr, size: int)
    | NodeBlock(channelId: int, msg: Addr, msgLength: int, next: Addr)
    | Buffer(bytes: seq<Byte>)

  type Heap = map<Addr, Block>

  /** What a channel holds: a buffer of fixed size and the length that is in use. */
  datatype Slot = Slot(bytes: seq<Byte>, len: int)

  /** For each opened minor number, its channels. */
  type Store = map<int, map<int, Slot>>

  datatype Role =
    | ListOf(minor: int)
    | NodeOf(minor: int, channel: int)
    | BufferOf(minor: int, channel: int)

  /**
    The blocks that the module owns, by role; `role` is the inverse of `at`. For each list, the
    channels in order and what the first word of its memory held when it was allocated.
  */
  datatype Ownership = Ownership(
    at: map<Role, Addr>, role: map<Addr, Role>, order: map<int, seq<int>>, firstWord: map<int, Addr>)

  predicate Ascending(s: seq<int>) {
    forall i, j :: 0 <= i < j < |s| ==> s[i] < s[j]
  }

  /** The address of the i-th node of a list, or NULL at its end. */
  function NodeAt(o: Ownership, m: int, i: nat): Addr
    requires m in o.order
  {
    if i < |o.order[m]| && NodeOf(m, o.order[m][i]) in o.at then o.at[NodeOf(m, o.order[m][i])] else NULL
  }

  /** The first word of a list. Nothing sets it before the list has a node. */
  function FirstOf(o: Ownership, m: int): Addr
    requires m in o.order
  {
    if o.order[m] == [] && m in o.firstWord then o.firstWord[m] else NodeAt(o, m, 0)
  }

  /** Live allocations and roles are one to one. */
  ghost predicate Owns(heap: Heap, o: Ownership) {
    && o.role.Keys == heap.Keys
    && (forall r :: r in o.at ==> o.at[r] != NULL && o.at[r] in o.role && o.role[o.at[r]] == r)
    && (forall a :: a in o.role ==> o.role[a] in o.at && o.at[o.role[a]] == a)
  }

  /** There is a role for each opened list, each channel in it and each channel's buffer, and for nothing else. */
  ghost predicate Complete(o: Ownership, store: Store) {
    && o.order.Keys == store.Keys == o.firstWord.Keys
    && (forall m :: m in o.order ==> 0 <= m < MINORS && Ascending(o.order[m]))
    && (forall m, c :: m in o.order ==> (c in o.order[m] <==> c in store[m]))
    && (forall m :: ListOf(m) in o.at <==> m in o.order)
    && (forall m, c :: NodeOf(m, c) in o.at <==> m in o.order && c in o.order[m])
    && (forall m, c :: BufferOf(m, c) in o.at <==> m in o.order && c in o.order[m])
  }

  ghost predicate ListHolds(heap: Heap, o: Ownership, m: int)
    requires m in o.order
  {
    && ListOf(m) in o.at && o.at[ListOf(m)] in heap
    && heap[o.at[ListOf(m)]] == ListBlock(FirstOf(o, m), |o.order[m]|)
  }

  ghost predicate NodeHolds(heap: Heap, o: Ownership, store: Store, m: int, i: nat)
    requires m in o.order && i < |o.order[m]|
  {
    var c := o.order[m][i];
    && NodeOf(m, c) in o.at && o.at[NodeOf(m, c)] in heap
    && BufferOf(m, c) in o.at && m in store && c in store[m]
    && heap[o.at[NodeOf(m, c)]] == NodeBlock(c, o.at[BufferOf(m, c)], store[m][c].len, NodeAt(o, m, i + 1))
  }

  ghost predicate BufferHolds(heap: Heap, o: Ownership, store: Store, m: int, c: int)
    requires m in store && c in store[m]
  {
    && BufferOf(m, c) in o.at && o.at[BufferOf(m, c)] in heap
    && heap[o.at[BufferOf(m, c)]] == Buffer(store[m][c].bytes)
    && |store[m][c].bytes| == MSG_MAX_LENGTH
  }

  /** The heap is exactly the lists that the store describes. */
  ghost predicate Layout(heap: Heap, o: Ownership, store: Store) {
    && Owns(heap, o)
    && Complete(o, store)
    && (forall m :: m in o.order ==> ListHolds(heap, o, m))
    && (forall m, i: nat :: m in o.order && i < |o.order[m]| ==> NodeHolds(heap, o, store, m, i))
    && (forall m, c :: m in store && c in store[m] ==> BufferHolds(heap, o, store, m, c))
  }

  /** Ownership after one more allocation. */
  function Owning(o: Ownership, r: Role, a: Addr): Ownership {
    Ownership(o.at[r := a], o.role[a := r], o.order, o.firstWord)
  }

  lemma OwnsOneMore(heap: Heap, o: Ownership, r: Role, a: Addr, block: Block)
    requires Owns(heap, o) && r !in o.at && a != NULL && a !in heap
    ensures Owns(heap[a := block], Owning(o, r, a))
  {
  }

  lemma OwnsDependsOnKeys(heap: Heap, heap': Heap, o: Ownership, o': Ownership)
    requires Owns(heap, o) && heap'.Keys == heap.Keys && o'.at == o.at && o'.role == o.role
    ensures Owns(heap', o')
  {
  }

  lemma AddressesDiffer(heap: Heap, o: Ownership, r: Role, q: Role)
    requires Owns(heap, o) && r in o.at && q in o.at && r != q
    ensures o.at[r] != o.at[q] && o.at[r] in heap && o.at[q] in heap
  {
  }

  // ----- A new list

  /** A list is empty at first, with a first word that is whatever the memory held. */
  function WithList(o: Ownership, m: int, a: Addr, left: Addr): Ownership {
    Owning(o, ListOf(m), a).(order := o.order[m := []], firstWord := o.firstWord[m := left])
  }

  lemma NewListKeepsComplete(o: Ownership, store: Store, m: int, a: Addr, left: Addr)
    requires Complete(o, store) && m !in store && 0 <= m < MINORS
    ensures Complete(WithList(o, m, a, left), store[m := map[]])
    ensures ListOf(m) !in o.at && m !in o.order
  {
  }

  lemma NewListKeepsNode(heap: Heap, o: Ownership, store: Store, m: int, a: Addr, left: Addr, k: int, i: nat)
    requires a !in heap && m !in o.order && m !in store
    requires k in o.order && i < |o.order[k]| && NodeHolds(heap, o, store, k, i)
    ensures NodeHolds(heap[a := ListBlock(left, 0)], WithList(o, m, a, left), store[m := map[]], k, i)
  {
  }

  /** A new list keeps the layout, whatever its first word is. */
  lemma NewListKeepsLayout(heap: Heap, o: Ownership, store: Store, m: int, a: Addr, left: Addr)
    requires Layout(heap, o, store) && m !in store && 0 <= m < MINORS && a != NULL && a !in heap
    ensures Layout(heap[a := ListBlock(left, 0)], WithList(o, m, a, left), store[m := map[]])
  {
    hide Owns, Complete, NodeHolds;
    var heap', o', store' := heap[a := ListBlock(left, 0)], WithList(o, m, a, left), store[m := map[]];
    NewListKeepsComplete(o, store, m, a, left);
    OwnsOneMore(heap, o, ListOf(m), a, ListBlock(left, 0));
    OwnsDependsOnKeys(heap', heap', Owning(o, ListOf(m), a), o');
    forall k, i: nat | k in o'.order && i < |o'.order[k]|
      ensures NodeHolds(heap', o', store', k, i)
    {
      NewListKeepsNode(heap, o, store, m, a, left, k, i);
    }
    forall k | k in o'.order
      ensures ListHolds(heap', o', k)
    {
      if k != m { assert ListHolds(heap, o, k); }
    }
    forall k, c | k in store' && c in store'[k]
      ensures BufferHolds(heap', o', store', k, c)
    {
      assert BufferHolds(heap, o, store, k, c);
    }
  }

  // ----- A new channel

  function Inserted(s: seq<int>, p: nat, c: int): (t: seq<int>)
    requires p <= |s|
    ensures |t| == |s| + 1
  {
    s[..p] + [c] + s[p..]
  }

  /** Where a channel belongs in a list. */
  predicate Fits(s: seq<int>, p: nat, c: int) {
    p <= |s| && (forall i :: 0 <= i < p ==> s[i] < c) && (forall i :: p <= i < |s| ==> c < s[i])
  }

  lemma InsertKeepsOrder(s: seq<int>, p: nat, c: int)
    requires Ascending(s) && Fits(s, p, c)
    ensures Ascending(Inserted(s, p, c)) && c !in s
    ensures forall k :: k in Inserted(s, p, c) <==> k == c || k in s
  {
    var t := Inserted(s, p, c);
    assert t[p] == c;
    assert forall i :: 0 <= i < p ==> t[i] == s[i];
    assert forall i :: p < i < |t| ==> t[i] == s[i - 1];
    forall k
      ensures k in t <==> k == c || k in s
    {
      if k in s {
        var i :| 0 <= i < |s| && s[i] == k;
        assert t[if i < p then i else i + 1] == k;
      }
    }
  }

  /** What is inserted, and where. */
  datatype Insertion = Insertion(m: int, p: nat, c: int, node: Addr, msg: Addr, slot: Slot)

  function WithChannel(o: Ownership, x: Insertion): Ownership
    requires x.m in o.order && x.p <= |o.order[x.m]|
  {
    Owning(Owning(o, NodeOf(x.m, x.c), x.node), BufferOf(x.m, x.c), x.msg).(
      order := o.order[x.m := Inserted(o.order[x.m], x.p, x.c)])
  }

  function ListAt(heap: Heap, a: Addr): (b: Block)
    ensures b.ListBlock?
  {
    if a in heap && heap[a].ListBlock? then heap[a] else ListBlock(NULL, 0)
  }

  /** The node in front of the insertion, or NULL if it is at the head. */
  function Before(o: Ownership, x: Insertion): Addr
    requires x.m in o.order
  {
    if x.p == 0 then NULL else NodeAt(o, x.m, x.p - 1)
  }

  /** The two new blocks, not linked to from anywhere. */
  function Unlinked(heap: Heap, o: Ownership, x: Insertion): Heap
    requires x.m in o.order
  {
    heap[x.msg := Buffer(x.slot.bytes)][x.node := NodeBlock(x.c, x.msg, x.slot.len, NodeAt(o, x.m, x.p))]
  }

  /** The heap after the neighbours are linked to the new node. */
  function Linked(heap: Heap, o: Ownership, x: Insertion): Heap
    requires x.m in o.order && ListOf(x.m) in o.at
  {
    var list := o.at[ListOf(x.m)];
    var h := Unlinked(heap, o, x);
    if Before(o, x) in heap && heap[Before(o, x)].NodeBlock? then
      h[Before(o, x) := heap[Before(o, x)].(next := x.node)]
       [list := ListBlock(ListAt(heap, list).first, ListAt(heap, list).size + 1)]
    else
      h[list := ListBlock(x.node, ListAt(heap, list).size + 1)]
  }

  function Put(store: Store, m: int, c: int, slot: Slot): Store
    requires m in store
  {
    store[m := store[m][c := slot]]
  }

  ghost predicate Insertable(heap: Heap, o: Ownership, store: Store, x: Insertion) {
    && Layout(heap, o, store) && x.m in o.order && Fits(o.order[x.m], x.p, x.c)
    && x.node != NULL && x.msg != NULL && x.node != x.msg && x.node !in heap && x.msg !in heap
    && |x.slot.bytes| == MSG_MAX_LENGTH
  }

  lemma InsertKeepsOwns(heap: Heap, o: Ownership, store: Store, x: Insertion)
    requires Insertable(heap, o, store, x) && ListOf(x.m) in o.at
    requires NodeOf(x.m, x.c) !in o.at && BufferOf(x.m, x.c) !in o.at
    ensures Owns(Linked(heap, o, x), WithChannel(o, x))
  {
    hide Complete, ListHolds, NodeHolds, BufferHolds, Inserted, NodeAt;
    assert Owns(heap, o);
    assert o.at[ListOf(x.m)] in heap;
    hide Owns;
    var block := NodeBlock(x.c, x.msg, x.slot.len, NodeAt(o, x.m, x.p));
    OwnsOneMore(heap, o, NodeOf(x.m, x.c), x.node, block);
    var o1 := Owning(o, NodeOf(x.m, x.c), x.node);
    OwnsOneMore(heap[x.node := block], o1, BufferOf(x.m, x.c), x.msg, Buffer(x.slot.bytes));
    var o2 := Owning(o1, BufferOf(x.m, x.c), x.msg);
    OwnsDependsOnKeys(heap[x.node := block][x.msg := Buffer(x.slot.bytes)], Linked(heap, o, x), o2, WithChannel(o, x));
  }

  lemma InsertKeepsComplete(o: Ownership, store: Store, x: Insertion)
    requires Complete(o, store) && x.m in o.order && Fits(o.order[x.m], x.p, x.c)
    ensures NodeOf(x.m, x.c) !in o.at && BufferOf(x.m, x.c) !in o.at && ListOf(x.m) in o.at
    ensures Complete(WithChannel(o, x), Put(store, x.m, x.c, x.slot))
  {
    hide Inserted, Ascending, Fits;
    InsertKeepsOrder(o.order[x.m], x.p, x.c);
  }

  lemma NodeAtAfterInsert(o: Ownership, x: Insertion, k: int, i: nat)
    requires x.m in o.order && k in o.order && Fits(o.order[x.m], x.p, x.c)
    ensures NodeAt(WithChannel(o, x), k, i) ==
      if k != x.m then NodeAt(o, k, i)
      else if i < x.p then NodeAt(o, k, i)
      else if i == x.p then x.node
      else NodeAt(o, k, i - 1)
  {
    var s := o.order[x.m];
    if k == x.m && i <= |s| {
      assert Inserted(s, x.p, x.c)[i] == if i < x.p then s[i] else if i == x.p then x.c else s[i - 1];
    }
    NodeRoleElsewhere(o, x, k, i);
  }

  lemma NodeRoleElsewhere(o: Ownership, x: Insertion, k: int, i: nat)
    requires x.m in o.order && k in o.order && Fits(o.order[x.m], x.p, x.c)
    ensures k != x.m && i < |o.order[k]| ==> NodeOf(k, o.order[k][i]) != NodeOf(x.m, x.c)
  {
  }

  lemma OwnedIsNotNull(heap: Heap, o: Ownership)
    requires Owns(heap, o)
    ensures NULL !in heap
  {
  }

  /** The node in front of the insertion is in the list. */
  lemma BeforeIsNode(heap: Heap, o: Ownership, store: Store, x: Insertion)
    requires Insertable(heap, o, store, x)
    ensures x.p == 0 ==> Before(o, x) == NULL && NULL !in heap
    ensures x.p > 0 ==>
      && NodeHolds(heap, o, store, x.m, x.p - 1)
      && Before(o, x) == o.at[NodeOf(x.m, o.order[x.m][x.p - 1])]
  {
    hide Owns, Complete, ListHolds, BufferHolds;
    OwnedIsNotNull(heap, o);
  }

  /** Only the two new blocks, the list and the node in front change. */
  lemma LinkedElsewhere(heap: Heap, o: Ownership, store: Store, x: Insertion, r: Role)
    requires Insertable(heap, o, store, x) && r in o.at && ListOf(x.m) in o.at
    requires r != ListOf(x.m) && (x.p > 0 ==> r != NodeOf(x.m, o.order[x.m][x.p - 1]))
    ensures o.at[r] in heap && o.at[r] in Linked(heap, o, x)
    ensures Linked(heap, o, x)[o.at[r]] == heap[o.at[r]]
  {
    hide Owns, Complete, ListHolds, BufferHolds, NodeAt;
    BeforeIsNode(heap, o, store, x);
    AddressesDiffer(heap, o, r, ListOf(x.m));
    if x.p > 0 {
      AddressesDiffer(heap, o, r, NodeOf(x.m, o.order[x.m][x.p - 1]));
    }
  }

  lemma InsertKeepsOtherList(heap: Heap, o: Ownership, store: Store, x: Insertion, k: int, i: nat)
    requires Insertable(heap, o, store, x) && ListOf(x.m) in o.at && k in o.order && k != x.m
    ensures ListHolds(Linked(heap, o, x), WithChannel(o, x), k)
    ensures i < |o.order[k]| ==>
      NodeHolds(Linked(heap, o, x), WithChannel(o, x), Put(store, x.m, x.c, x.slot), k, i)
  {
    hide Owns, Complete, NodeAt, Linked, BufferHolds;
    assert ListHolds(heap, o, k);
    LinkedElsewhere(heap, o, store, x, ListOf(k));
    NodeAtAfterInsert(o, x, k, 0);
    if i < |o.order[k]| {
      assert NodeHolds(heap, o, store, k, i);
      LinkedElsewhere(heap, o, store, x, NodeOf(k, o.order[k][i]));
      NodeAtAfterInsert(o, x, k, i + 1);
    }
  }

  /** The new node itself. */
  lemma InsertHoldsNewNode(heap: Heap, o: Ownership, store: Store, x: Insertion)
    requires Insertable(heap, o, store, x) && ListOf(x.m) in o.at
    ensures NodeHolds(Linked(heap, o, x), WithChannel(o, x), Put(store, x.m, x.c, x.slot), x.m, x.p)
  {
    hide Owns, Complete, NodeAt, BufferHolds;
    assert ListHolds(heap, o, x.m);
    BeforeIsNode(heap, o, store, x);
    NodeAtAfterInsert(o, x, x.m, x.p + 1);
    assert Inserted(o.order[x.m], x.p, x.c)[x.p] == x.c;
    hide Inserted;
  }

  /** The node that now leads to the new one. */
  lemma InsertRelinksNodeBefore(heap: Heap, o: Ownership, store: Store, x: Insertion)
    requires Insertable(heap, o, store, x) && ListOf(x.m) in o.at && x.p > 0
    ensures NodeHolds(Linked(heap, o, x), WithChannel(o, x), Put(store, x.m, x.c, x.slot), x.m, x.p - 1)
  {
    hide Owns, Complete, NodeAt, BufferHolds;
    BeforeIsNode(heap, o, store, x);
    NodeAtAfterInsert(o, x, x.m, x.p);
    var s := o.order[x.m];
    assert Inserted(s, x.p, x.c)[x.p - 1] == s[x.p - 1] != x.c;
    AddressesDiffer(heap, o, NodeOf(x.m, s[x.p - 1]), ListOf(x.m));
    hide Inserted;
  }

  /** An entry that is neither the new one nor the one in front of it. */
  lemma InsertedElsewhere(s: seq<int>, p: nat, c: int, i: nat)
    requires Ascending(s) && Fits(s, p, c) && i <= |s| && i != p && i + 1 != p
    ensures var j := if i < p then i else i - 1;
      Inserted(s, p, c)[i] == s[j] != c && (p > 0 ==> s[j] != s[p - 1])
  {
  }

  lemma LayoutNode(heap: Heap, o: Ownership, store: Store, m: int, i: nat)
    requires Layout(heap, o, store) && m in o.order && i < |o.order[m]|
    ensures NodeHolds(heap, o, store, m, i) && Ascending(o.order[m])
  {
  }

  lemma InsertKeepsNode(heap: Heap, o: Ownership, store: Store, x: Insertion, i: nat)
    requires Insertable(heap, o, store, x) && ListOf(x.m) in o.at
    requires i <= |o.order[x.m]| && i != x.p && i + 1 != x.p
    ensures NodeHolds(Linked(heap, o, x), WithChannel(o, x), Put(store, x.m, x.c, x.slot), x.m, i)
  {
    hide Layout, NodeAt, Linked, Inserted, Ascending;
    var s := o.order[x.m];
    var j := if i < x.p then i else i - 1;
    LayoutNode(heap, o, store, x.m, j);
    InsertedElsewhere(s, x.p, x.c, i);
    LinkedElsewhere(heap, o, store, x, NodeOf(x.m, s[j]));
    NodeAtAfterInsert(o, x, x.m, i + 1);
  }

  lemma InsertKeepsBuffer(heap: Heap, o: Ownership, store: Store, x: Insertion, k: int, d: int)
    requires Insertable(heap, o, store, x) && ListOf(x.m) in o.at
    requires k in store && x.m in store && (d in store[k] || (k == x.m && d == x.c))
    ensures BufferHolds(Linked(heap, o, x), WithChannel(o, x), Put(store, x.m, x.c, x.slot), k, d)
  {
    hide Owns, Complete, NodeAt;
    if k == x.m && d == x.c {
      assert ListHolds(heap, o, x.m);
      BeforeIsNode(heap, o, store, x);
    } else {
      assert BufferHolds(heap, o, store, k, d);
      LinkedElsewhere(heap, o, store, x, BufferOf(k, d));
    }
  }

  lemma InsertKeepsOwnList(heap: Heap, o: Ownership, store: Store, x: Insertion)
    requires Insertable(heap, o, store, x) && ListOf(x.m) in o.at
    ensures ListHolds(Linked(heap, o, x), WithChannel(o, x), x.m)
  {
    hide Owns, Complete, NodeAt, BufferHolds;
    assert ListHolds(heap, o, x.m);
    BeforeIsNode(heap, o, store, x);
    NodeAtAfterInsert(o, x, x.m, 0);
  }

  lemma InsertKeepsEveryNode(heap: Heap, o: Ownership, store: Store, x: Insertion, k: int, i: nat)
    requires Insertable(heap, o, store, x) && ListOf(x.m) in o.at
    requires k in o.order && i < |WithChannel(o, x).order[k]|
    ensures NodeHolds(Linked(heap, o, x), WithChannel(o, x), Put(store, x.m, x.c, x.slot), k, i)
  {
    hide Linked, Owns, Complete, ListHolds, NodeHolds, BufferHolds, NodeAt;
    if k != x.m { InsertKeepsOtherList(heap, o, store, x, k, i); }
    else if i == x.p { InsertHoldsNewNode(heap, o, store, x); }
    else if i + 1 == x.p { InsertRelinksNodeBefore(heap, o, store, x); }
    else { InsertKeepsNode(heap, o, store, x, i); }
  }

  /** Inserting a channel where it fits keeps the layout, wherever in the list that is. */
  lemma InsertKeepsLayout(heap: Heap, o: Ownership, store: Store, x: Insertion)
    requires Insertable(heap, o, store, x)
    ensures ListOf(x.m) in o.at && x.m in store
    ensures Layout(Linked(heap, o, x), WithChannel(o, x), Put(store, x.m, x.c, x.slot))
  {
    InsertKeepsComplete(o, store, x);
    InsertKeepsOwns(heap, o, store, x);
    assert o.order.Keys == store.Keys;
    hide Linked, Owns, Complete, ListHolds, NodeHolds, BufferHolds, NodeAt;
    var heap', o', store' := Linked(heap, o, x), WithChannel(o, x), Put(store, x.m, x.c, x.slot);
    forall k | k in o'.order
      ensures ListHolds(heap', o', k)
    {
      if k == x.m { InsertKeepsOwnList(heap, o, store, x); } else { InsertKeepsOtherList(heap, o, store, x, k, 0); }
    }
    forall k, i: nat | k in o'.order && i < |o'.order[k]|
      ensures NodeHolds(heap', o', store', k, i)
    {
      InsertKeepsEveryNode(heap, o, store, x, k, i);
    }
    forall k, d | k in store' && d in store'[k]
      ensures BufferHolds(heap', o', store', k, d)
    {
      InsertKeepsBuffer(heap, o, store, x, k, d);
    }
  }

  // ----- New contents

  /** The heap after the node and the buffer of a channel are set. */
  function Rewritten(heap: Heap, o: Ownership, m: int, c: int, slot: Slot): Heap
    requires NodeOf(m, c) in o.at && o.at[NodeOf(m, c)] in heap && heap[o.at[NodeOf(m, c)]].NodeBlock?
  {
    var node := o.at[NodeOf(m, c)];
    heap[node := heap[node].(msgLength := slot.len)][heap[node].msg := Buffer(slot.bytes)]
  }

  lemma ChannelNode(heap: Heap, o: Ownership, store: Store, m: int, c: int) returns (i: nat)
    requires Layout(heap, o, store) && m in store && c in store[m]
    ensures m in o.order && i < |o.order[m]| && o.order[m][i] == c && NodeHolds(heap, o, store, m, i)
  {
    assert c in o.order[m];
    i :| 0 <= i < |o.order[m]| && o.order[m][i] == c;
    assert NodeHolds(heap, o, store, m, i);
  }

  lemma RewriteKeepsComplete(o: Ownership, store: Store, m: int, c: int, slot: Slot)
    requires Complete(o, store) && m in store && c in store[m]
    ensures Complete(o, Put(store, m, c, slot))
  {
  }

  ghost predicate Rewritable(heap: Heap, o: Ownership, store: Store, m: int, c: int, slot: Slot) {
    Layout(heap, o, store) && m in store && c in store[m] && |slot.bytes| == MSG_MAX_LENGTH
  }

  lemma RewrittenChannel(heap: Heap, o: Ownership, store: Store, m: int, c: int, slot: Slot)
    requires Rewritable(heap, o, store, m, c, slot)
    ensures NodeOf(m, c) in o.at && o.at[NodeOf(m, c)] in heap && heap[o.at[NodeOf(m, c)]].NodeBlock?
    ensures BufferOf(m, c) in o.at && o.at[BufferOf(m, c)] in heap
    ensures heap[o.at[NodeOf(m, c)]].msg == o.at[BufferOf(m, c)] != o.at[NodeOf(m, c)]
  {
    hide Owns, Complete, NodeAt;
    var n := ChannelNode(heap, o, store, m, c);
    assert BufferHolds(heap, o, store, m, c);
    AddressesDiffer(heap, o, NodeOf(m, c), BufferOf(m, c));
  }

  /** Only the node and the buffer of the channel change. */
  lemma RewrittenElsewhere(heap: Heap, o: Ownership, store: Store, m: int, c: int, slot: Slot, r: Role)
    requires Rewritable(heap, o, store, m, c, slot) && r in o.at && r != NodeOf(m, c) && r != BufferOf(m, c)
    requires NodeOf(m, c) in o.at && o.at[NodeOf(m, c)] in heap && heap[o.at[NodeOf(m, c)]].NodeBlock?
    ensures o.at[r] in heap && Rewritten(heap, o, m, c, slot)[o.at[r]] == heap[o.at[r]]
  {
    hide Owns, Complete, NodeAt;
    RewrittenChannel(heap, o, store, m, c, slot);
    AddressesDiffer(heap, o, r, NodeOf(m, c));
    AddressesDiffer(heap, o, r, BufferOf(m, c));
  }

  lemma RewriteKeepsNode(heap: Heap, o: Ownership, store: Store, m: int, c: int, slot: Slot, k: int, i: nat)
    requires Rewritable(heap, o, store, m, c, slot) && k in o.order && i < |o.order[k]|
    requires NodeOf(m, c) in o.at && o.at[NodeOf(m, c)] in heap && heap[o.at[NodeOf(m, c)]].NodeBlock?
    ensures NodeHolds(Rewritten(heap, o, m, c, slot), o, Put(store, m, c, slot), k, i)
  {
    hide Owns, Complete, NodeAt;
    assert NodeHolds(heap, o, store, k, i);
    RewrittenChannel(heap, o, store, m, c, slot);
    if k != m || o.order[k][i] != c {
      RewrittenElsewhere(heap, o, store, m, c, slot, NodeOf(k, o.order[k][i]));
    }
  }

  lemma RewriteKeepsBuffer(heap: Heap, o: Ownership, store: Store, m: int, c: int, slot: Slot, k: int, d: int)
    requires Rewritable(heap, o, store, m, c, slot) && k in store && d in store[k]
    requires NodeOf(m, c) in o.at && o.at[NodeOf(m, c)] in heap && heap[o.at[NodeOf(m, c)]].NodeBlock?
    ensures d in Put(store, m, c, slot)[k]
    ensures BufferHolds(Rewritten(heap, o, m, c, slot), o, Put(store, m, c, slot), k, d)
  {
    hide Owns, Complete, NodeAt;
    assert BufferHolds(heap, o, store, k, d);
    RewrittenChannel(heap, o, store, m, c, slot);
    if k != m || d != c {
      RewrittenElsewhere(heap, o, store, m, c, slot, BufferOf(k, d));
    }
  }

  /** Setting the contents of one channel keeps the layout. */
  lemma RewriteKeepsLayout(heap: Heap, o: Ownership, store: Store, m: int, c: int, slot: Slot)
    requires Layout(heap, o, store) && m in store && c in store[m] && |slot.bytes| == MSG_MAX_LENGTH
    ensures NodeOf(m, c) in o.at && o.at[NodeOf(m, c)] in heap && heap[o.at[NodeOf(m, c)]].NodeBlock?
    ensures Layout(Rewritten(heap, o, m, c, slot), o, Put(store, m, c, slot))
  {
    hide Owns, Complete, NodeAt, NodeHolds, BufferHolds;
    RewrittenChannel(heap, o, store, m, c, slot);
    var heap', store' := Rewritten(heap, o, m, c, slot), Put(store, m, c, slot);
    assert heap'.Keys == heap.Keys;
    hide Rewritten;
    OwnsDependsOnKeys(heap, heap', o, o);
    RewriteKeepsComplete(o, store, m, c, slot);
    forall k | k in o.order
      ensures ListHolds(heap', o, k)
    {
      assert ListHolds(heap, o, k);
      RewrittenElsewhere(heap, o, store, m, c, slot, ListOf(k));
    }
    forall k, i: nat | k in o.order && i < |o.order[k]|
      ensures NodeHolds(heap', o, store', k, i)
    {
      RewriteKeepsNode(heap, o, store, m, c, slot, k, i);
    }
    forall k, d | k in store' && d in store'[k]
      ensures BufferHolds(heap', o, store', k, d)
    {
      RewriteKeepsBuffer(heap, o, store, m, c, slot, k, d);
    }
  }
}
