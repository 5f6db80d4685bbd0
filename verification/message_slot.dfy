/**
  The message-slot device over kernel memory that is allocated and freed explicitly.
  Reading or writing through an address requires that it is allocated.
*/
module MessageSlot {
  import opened SlotLayout
  import opened SlotLookup
  import opened SlotModel
  import opened SlotAnswers

  const MAX_DEVICES: nat := 257

  /** An open file: its device and the channel that was set with ioctl. */
  class File {
    const fd: int
    const minor: int
    var privateData: nat

    constructor (fd: int, minor: int)
      ensures this.fd == fd && this.minor == minor && privateData == 0
    {
      this.fd := fd;
      this.minor := minor;
      privateData := 0;
    }
  }

  class SlotDevice {
    var heap: Heap
    const devices: array<Addr>

    ghost var owned: Ownership
    ghost var store: Store
    /** The open files, and the calls made so far. */
    ghost var files: map<int, File>
    ghost var calls: seq<Call>
    /** How often memory or a copy from or to the user has been refused. */
    ghost var refusals: nat

    ghost predicate Registered()
      reads this, devices
    {
      && devices.Length == MAX_DEVICES
      && (forall m :: 0 <= m < MINORS ==>
            devices[m + 1] == if ListOf(m) in owned.at then owned.at[ListOf(m)] else NULL)
    }

    ghost predicate Valid()
      reads this, devices
    {
      Layout(heap, owned, store) && Registered()
    }

    /** The store and the open files are what the calls so far have made of them. */
    ghost predicate Logged()
      reads this, files.Values
    {
      && Legal(calls)
      && Run(calls).store == store
      && Run(calls).firstWord == owned.firstWord
      && Run(calls).files.Keys == files.Keys
      && forall fd :: fd in files ==>
           files[fd].fd == fd && Run(calls).files[fd] == FileState(files[fd].minor, files[fd].privateData)
    }

    /** Between calls. */
    ghost predicate Ready()
      reads this, devices, files.Values
    {
      Valid() && Logged()
    }

    ghost predicate IsOpen(file: File)
      reads this
    {
      file.fd in files && files[file.fd] == file
    }

    constructor ()
      ensures Ready() && calls == [] && heap == map[] && fresh(devices)
      ensures forall t :: LastLength(calls, t) == None && LastMessage(calls, t) == None
    {
      heap := map[];
      devices := new Addr[MAX_DEVICES](_ => NULL);
      owned := Ownership(map[], map[], map[], map[]);
      store := map[];
      files, calls, refusals := map[], [], 0;
    }

    /** A call is over: files whose state it sets are the only ones that changed. */
    ghost method Log(call: Call, before: World)
      requires Legal(calls) && before == Run(calls) && LegalCall(before, call)
      requires Do(before, call).store == store && Do(before, call).files.Keys == files.Keys
      requires Do(before, call).firstWord == owned.firstWord
      requires forall fd :: fd in files ==>
        files[fd].fd == fd && Do(before, call).files[fd] == FileState(files[fd].minor, files[fd].privateData)
      modifies this`calls
      ensures Logged() && calls == old(calls) + [call]
    {
      hide Legal, Run, Do, LegalCall;
      CallsContinue(calls, call);
      calls := calls + [call];
    }

    // ----- Kernel memory

    /** An address that is not in use, or NULL; the new memory holds whatever it held before. */
    method Kmalloc(leftover: Block) returns (a: Addr)
      modifies this`heap, this`refusals
      ensures a == NULL ==> heap == old(heap) && refusals == old(refusals) + 1
      ensures a != NULL ==> a !in old(heap) && heap == old(heap)[a := leftover] && refusals == old(refusals)
    {
      a := *;
      if a in heap {
        a := NULL;
      }
      if a != NULL {
        heap := heap[a := leftover];
      } else {
        refusals := refusals + 1;
      }
    }

    /** `copy_to_user` or `copy_from_user`, as far as it concerns the kernel. */
    method CopyUser() returns (copied: bool)
      modifies this`refusals
      ensures refusals == old(refusals) + if copied then 0 else 1
    {
      copied := *;
      if !copied {
        refusals := refusals + 1;
      }
    }

    method Kfree(a: Addr)
      requires a in heap
      modifies this`heap
      ensures heap == old(heap) - {a}
    {
      heap := heap - {a};
    }

    /** Whatever a block of n bytes may have held before. */
    method Leftover(n: nat) returns (bytes: seq<Byte>)
      ensures |bytes| == n
    {
      bytes := *;
      if |bytes| != n {
        bytes := seq(n, _ => 0);
      }
    }

    // ----- Lists

    /** The place in some list where a walk along list m starts, unless it is astray at once. */
    lemma StartOfWalk(m: int) returns (n: int, i: nat, stray: bool)
      requires Layout(heap, owned, store) && m in owned.order
      ensures stray <==> FirstOf(owned, m) != NULL && !IsNode(heap, FirstOf(owned, m))
      ensures stray <==> !Sound(owned, m) && !IsNode(heap, FirstOf(owned, m))
      ensures n in owned.order && i <= |owned.order[n]| && (!stray ==> FirstOf(owned, m) == NodeAt(owned, n, i))
      ensures Sound(owned, m) ==> n == m && i == 0
    {
      hide Layout, NodeAt;
      var first := FirstOf(owned, m);
      n, i, stray := m, 0, first != NULL && !IsNode(heap, first);
      HoldsList(heap, owned, store, m);
      NodeIsThereIn(heap, owned, store, m, 0);
      if !Sound(owned, m) && IsNode(heap, first) {
        n, i := NodeHasPlace(heap, owned, store, first);
      }
    }

    /**
      `findChannelId`: the node of the channel or NULL, unless the walk goes astray. If the list has
      a node, or its first word was NULL, the walk ends where the channel is.
    */
    method FindChannelId(lst: Addr, channelId: int, ghost m: int) returns (result: Lookup, ghost steps: nat)
      requires Valid() && m in owned.order && ListOf(m) in owned.at && lst == owned.at[ListOf(m)]
      ensures Ends(heap, FirstOf(owned, m), channelId, steps, result)
      ensures Sound(owned, m) ==> result == Expected(owned, m, channelId)
      ensures result == Astray <==> !Sound(owned, m) && !IsNode(heap, FirstOf(owned, m))
    {
      hide Layout, NodeAt, FirstOf;
      HoldsList(heap, owned, store, m);
      NodeIsThereIn(heap, owned, store, m, 0);
      ghost var first := FirstOf(owned, m);
      ghost var n, i, stray := StartOfWalk(m);
      var node := heap[lst].first;
      result, steps := Absent, 0;
      while node != NULL
        invariant node == Follow(heap, first, steps)
        invariant forall j: nat | j < steps :: Passed(heap, Follow(heap, first, j), channelId)
        invariant if stray then steps == 0 else i + steps <= |owned.order[n]| && node == NodeAt(owned, n, i + steps)
        decreases |owned.order[n]| - i - steps
      {
        if !IsNode(heap, node) {
          result := Astray;
          break;
        }
        NodeIsThereIn(heap, owned, store, n, i + steps);
        if heap[node].channelId == channelId {
          result := Found(node);
          break;
        }
        node := heap[node].next;
        steps := steps + 1;
      }
      StraysExactlyIf(heap, owned, store, m, channelId);
      if Sound(owned, m) { SoundWalkIsRight(heap, owned, store, m, channelId, steps, result); }
    }

    method CreateNode(channelId: int) returns (node: Addr, ghost msg: Addr, ghost slot: Slot)
      modifies this`heap, this`refusals
      ensures node == NULL ==> heap == old(heap) && refusals > old(refusals)
      ensures node != NULL ==> refusals == old(refusals)
      ensures node != NULL ==>
        && node !in old(heap) && msg !in old(heap) && msg != NULL && msg != node
        && |slot.bytes| == 128
        && heap == old(heap)[msg := Buffer(slot.bytes)][node := NodeBlock(channelId, msg, slot.len, NULL)]
    {
      var leftover: Block := *;
      if !leftover.NodeBlock? {
        leftover := NodeBlock(0, NULL, 0, NULL);
      }
      slot, msg := Slot([], leftover.msgLength), NULL;
      node := Kmalloc(leftover);
      if node == NULL {
        return NULL, msg, slot;
      }
      var bytes := Leftover(MSG_MAX_LENGTH);
      var buffer := Kmalloc(Buffer(bytes));
      heap := heap[node := heap[node].(msg := buffer)];
      if heap[node].msg == NULL {
        Kfree(node);
        return NULL, msg, slot;
      }
      heap := heap[node := heap[node].(channelId := channelId)];
      heap := heap[node := heap[node].(next := NULL)];
      slot, msg := Slot(bytes, leftover.msgLength), buffer;
    }

    /** The new node is linked in. */
    ghost method CommitInsertion(before: Heap, x: Insertion)
      requires Insertable(before, owned, store, x) && Registered()
      requires ListOf(x.m) in owned.at && heap == Linked(before, owned, x)
      modifies this`owned, this`store
      ensures Valid() && x.m in old(store) && store == Put(old(store), x.m, x.c, x.slot)
      ensures NodeOf(x.m, x.c) in owned.at && owned.at[NodeOf(x.m, x.c)] == x.node
      ensures owned.firstWord == old(owned.firstWord)
    {
      hide Layout, Linked, Inserted, Fits, Unlinked, Before, Put;
      InsertKeepsLayout(before, owned, store, x);
      assert x.p <= |owned.order[x.m]| by { FitsInside(owned.order[x.m], x.p, x.c); }
      store := Put(store, x.m, x.c, x.slot);
      owned := WithChannel(owned, x);
    }

    /** `lst->first = newNode; lst->size++` */
    method LinkFirst(ghost before: Heap, ghost x: Insertion, lst: Addr, newNode: Addr)
      requires Insertable(before, owned, store, x) && Registered() && x.p == 0 && newNode == x.node
      requires ListOf(x.m) in owned.at && lst == owned.at[ListOf(x.m)]
      requires heap == Unlinked(before, owned, x)
      modifies this`heap, this`owned, this`store
      ensures Valid() && x.m in old(store) && store == Put(old(store), x.m, x.c, x.slot)
      ensures NodeOf(x.m, x.c) in owned.at && owned.at[NodeOf(x.m, x.c)] == x.node
      ensures owned.firstWord == old(owned.firstWord)
    {
      hide Layout;
      InsertionKeepsList(before, x);
      heap := heap[lst := heap[lst].(first := newNode)];
      heap := heap[lst := heap[lst].(size := heap[lst].size + 1)];
      assert heap == Linked(before, owned, x);
      CommitInsertion(before, x);
    }

    /** `prevNode->next = newNode; lst->size++` */
    method LinkAfter(ghost before: Heap, ghost x: Insertion, lst: Addr, prevNode: Addr, newNode: Addr)
      requires Insertable(before, owned, store, x) && Registered() && x.p > 0 && newNode == x.node
      requires ListOf(x.m) in owned.at && lst == owned.at[ListOf(x.m)] && prevNode == NodeAt(owned, x.m, x.p - 1)
      requires heap == Unlinked(before, owned, x)
      modifies this`heap, this`owned, this`store
      ensures Valid() && x.m in old(store) && store == Put(old(store), x.m, x.c, x.slot)
      ensures NodeOf(x.m, x.c) in owned.at && owned.at[NodeOf(x.m, x.c)] == x.node
      ensures owned.firstWord == old(owned.firstWord)
    {
      hide Layout;
      InsertionKeepsList(before, x);
      heap := heap[prevNode := heap[prevNode].(next := newNode)];
      heap := heap[lst := heap[lst].(size := heap[lst].size + 1)];
      assert heap == Linked(before, owned, x);
      CommitInsertion(before, x);
    }

    /** The neighbours of an insertion are what they were before it. */
    lemma InsertionKeepsList(before: Heap, x: Insertion)
      requires Insertable(before, owned, store, x) && ListOf(x.m) in owned.at
      requires heap == Unlinked(before, owned, x)
      ensures var lst := owned.at[ListOf(x.m)];
        lst in before && lst in heap && heap[lst] == before[lst] && heap[lst].ListBlock?
      ensures x.p == 0 ==> Before(owned, x) !in before
      ensures x.p > 0 ==>
        && Before(owned, x) in before && Before(owned, x) in heap
        && before[Before(owned, x)].NodeBlock? && heap[Before(owned, x)] == before[Before(owned, x)]
        && Before(owned, x) != owned.at[ListOf(x.m)]
    {
      hide Layout, NodeAt, Before, Fits;
      HoldsList(before, owned, store, x.m);
      BeforeIsNode(before, owned, store, x);
    }

    /** A channel that the list lacked has its node, or nothing has changed because memory was refused. */
    twostate predicate Created(m: int, channelId: int, node: Addr, slot: Slot)
      reads this, devices
    {
      && Valid() && m in old(store) && channelId !in old(store)[m]
      && owned.firstWord == old(owned.firstWord)
      && (node == NULL ==> heap == old(heap) && store == old(store) && refusals > old(refusals))
      && (node != NULL ==>
            && refusals == old(refusals) && |slot.bytes| == MSG_MAX_LENGTH
            && store == Put(old(store), m, channelId, slot)
            && NodeOf(m, channelId) in owned.at && node == owned.at[NodeOf(m, channelId)])
    }

    /** The list is empty. */
    method InsertOnly(lst: Addr, channelId: int, ghost m: int) returns (node: Addr, ghost slot: Slot)
      requires Valid() && m in owned.order && ListOf(m) in owned.at && lst == owned.at[ListOf(m)]
      requires owned.order[m] == []
      modifies this`heap, this`owned, this`store, this`refusals
      ensures Created(m, channelId, node, slot)
    {
      hide Layout, NodeAt, Linked, Before;
      ChannelsAreListed(heap, owned, store, m, channelId);
      HoldsList(heap, owned, store, m);
      NodeIsThereIn(heap, owned, store, m, 0);
      ghost var msg, before := NULL, heap;
      node, msg, slot := CreateNode(channelId);
      if node != NULL {
        LinkFirst(before, Insertion(m, 0, channelId, node, msg, slot), lst, node);
      }
    }

    /** `node` is the first node of the list whose channel is too large, and `prevNode` the one in front of it. */
    method InsertBefore(lst: Addr, prevNode: Addr, node: Addr, channelId: int, ghost m: int, ghost p: nat)
      returns (newNode: Addr, ghost slot: Slot)
      requires Valid() && m in owned.order && ListOf(m) in owned.at && lst == owned.at[ListOf(m)]
      requires p < |owned.order[m]| && Fits(owned.order[m], p, channelId) && node == NodeAt(owned, m, p)
      requires prevNode == if p == 0 then NULL else NodeAt(owned, m, p - 1)
      modifies this`heap, this`owned, this`store, this`refusals
      ensures Created(m, channelId, newNode, slot)
    {
      hide Layout, NodeAt, Linked, Before;
      ChannelsAreListed(heap, owned, store, m, channelId);
      AbsentIfBetween(owned.order[m], p, channelId);
      if p > 0 { NodeIsThereIn(heap, owned, store, m, p - 1); }
      ghost var msg, before := NULL, heap;
      newNode, msg, slot := CreateNode(channelId);
      if newNode == NULL {
        return;
      }
      heap := heap[newNode := heap[newNode].(next := node)];
      if prevNode == NULL {
        LinkFirst(before, Insertion(m, p, channelId, newNode, msg, slot), lst, newNode);
      } else {
        LinkAfter(before, Insertion(m, p, channelId, newNode, msg, slot), lst, prevNode, newNode);
      }
    }

    /** `prevNode` is the last node of the list, and its channel is too small. */
    method InsertLast(lst: Addr, prevNode: Addr, channelId: int, ghost m: int)
      returns (newNode: Addr, ghost slot: Slot)
      requires Valid() && m in owned.order && ListOf(m) in owned.at && lst == owned.at[ListOf(m)]
      requires owned.order[m] != [] && Fits(owned.order[m], |owned.order[m]|, channelId)
      requires prevNode == NodeAt(owned, m, |owned.order[m]| - 1)
      modifies this`heap, this`owned, this`store, this`refusals
      ensures Created(m, channelId, newNode, slot)
    {
      hide Layout, NodeAt, Linked, Before;
      ghost var n := |owned.order[m]|;
      ChannelsAreListed(heap, owned, store, m, channelId);
      AbsentIfBetween(owned.order[m], n, channelId);
      NodeIsThereIn(heap, owned, store, m, n);
      ghost var msg, before := NULL, heap;
      newNode, msg, slot := CreateNode(channelId);
      if newNode != NULL {
        LinkAfter(before, Insertion(m, n, channelId, newNode, msg, slot), lst, prevNode, newNode);
      }
    }

    /** `getOrCreateNode`. An empty list is told by its size, so that its first word does not matter. */
    method GetOrCreateNode(lst: Addr, channelId: int, ghost m: int) returns (node: Addr, ghost slot: Slot)
      requires Valid() && m in owned.order && ListOf(m) in owned.at && lst == owned.at[ListOf(m)]
      modifies this`heap, this`owned, this`store, this`refusals
      ensures Valid() && m in old(store)
      ensures channelId !in old(store)[m] ==> Created(m, channelId, node, slot)
      ensures channelId in old(store)[m] ==>
        && heap == old(heap) && owned == old(owned) && store == old(store) && refusals == old(refusals)
        && NodeOf(m, channelId) in owned.at && node == owned.at[NodeOf(m, channelId)] != NULL
    {
      hide Layout, NodeAt;
      ChannelsAreListed(heap, owned, store, m, channelId);
      HoldsList(heap, owned, store, m);
      NodeIsThereIn(heap, owned, store, m, 0);
      if heap[lst].size == 0 {
        node, slot := InsertOnly(lst, channelId, m);
        return;
      }
      slot := Slot([], 0);
      ghost var order := owned.order[m];
      var prevNode := NULL;
      node := heap[lst].first;
      ghost var i := 0;
      var more := true;
      while more
        invariant heap == old(heap) && owned == old(owned) && store == old(store) && refusals == old(refusals)
        invariant 0 <= i <= |order| && (more <==> i < |order|)
        invariant node == NodeAt(owned, m, i)
        invariant prevNode == if i == 0 then NULL else NodeAt(owned, m, i - 1)
        invariant forall j :: 0 <= j < i ==> order[j] < channelId
        decreases |order| - i
      {
        NodeIsThereIn(heap, owned, store, m, i);
        if channelId == heap[node].channelId {
          assert order[i] in order;
          return;
        } else if channelId < heap[node].channelId {
          node, slot := InsertBefore(lst, prevNode, node, channelId, m, i);
          return;
        }
        prevNode := node;
        node := heap[node].next;
        i := i + 1;
        NodeIsThereIn(heap, owned, store, m, i);
        more := node != NULL;
      }
      node, slot := InsertLast(lst, prevNode, channelId, m);
    }

    // ----- Device calls

    /**
      `device_open`. A new list has no nodes; `left` is what the first word of its memory held, and
      that stays so until the list has its first node.
    */
    method DeviceOpen(file: File, left: Addr) returns (status: int)
      requires Ready() && 0 <= file.minor < 256 && file.fd !in files && file.privateData == 0
      modifies this, devices
      ensures Ready() && calls == old(calls) + [Open(file.fd, file.minor, status == 0, left)]
      ensures forall t ::
        LastLength(calls, t) == LastLength(old(calls), t) && LastMessage(calls, t) == LastMessage(old(calls), t)
      ensures status == 0 || status == -1
      ensures file.minor in old(store) ==> status == 0 && heap == old(heap)
      ensures files == if status == 0 then old(files)[file.fd := file] else old(files)
      ensures status == -1 ==> heap == old(heap)
      ensures status == -1 <==> refusals > old(refusals)
    {
      hide Layout, Legal, Run;
      ghost var before := Run(calls);
      status := AddList(file.minor, left);
      if status == 0 {
        files := files[file.fd := file];
      }
      Log(Open(file.fd, file.minor, status == 0, left), before);
    }

    method AddList(minor: int, left: Addr) returns (status: int)
      requires Valid() && 0 <= minor < MINORS
      modifies this`heap, this`owned, this`store, this`refusals, devices
      ensures Valid()
      ensures status == -1 <==> refusals > old(refusals)
      ensures status == 0 || status == -1
      ensures minor in old(store) ==> status == 0
      ensures if minor in old(store) || status == -1 then
          store == old(store) && heap == old(heap) && owned == old(owned)
        else
          && store == old(store)[minor := map[]] && owned.firstWord == old(owned.firstWord)[minor := left]
          && devices[minor + 1] !in old(heap) && heap == old(heap)[devices[minor + 1] := ListBlock(left, 0)]
    {
      hide Layout;
      OpenedHaveLists(minor);
      status := 0;
      if devices[minor + 1] == NULL {
        ghost var before, beforeOwned := heap, owned;
        var list := Kmalloc(ListBlock(left, 1));
        devices[minor + 1] := list;
        if devices[minor + 1] == NULL {
          return -1;
        }
        heap := heap[list := heap[list].(size := 0)];
        owned := WithList(owned, minor, list, left);
        store := store[minor := map[]];
        assert heap == before[list := ListBlock(left, 0)];
        NewListKeepsLayout(before, beforeOwned, old(store), minor, list, left);
      }
    }

    lemma OpenedHaveLists(m: int)
      requires Valid()
      ensures m in store <==> ListOf(m) in owned.at
      ensures m in store <==> m in owned.order
      ensures m in store && 0 <= m < MINORS ==> devices[m + 1] != NULL
    {
    }

    /** `device_ioctl` */
    method DeviceIoctl(file: File, command: nat, param: nat) returns (status: int)
      requires Ready() && IsOpen(file)
      modifies this`calls, file
      ensures Ready() && calls == old(calls) + [Ioctl(file.fd, command, param)]
      ensures status == if command == 0x4008_F000 && param != 0 then 0 else -22
      ensures forall t ::
        LastLength(calls, t) == LastLength(old(calls), t) && LastMessage(calls, t) == LastMessage(old(calls), t)
      ensures file.privateData == if status == 0 then param else old(file.privateData)
    {
      hide Layout, Legal, Run;
      ghost var before := Run(calls);
      if MSG_SLOT_CHANNEL == command && param != 0 {
        file.privateData := param;
        status := 0;
      } else {
        status := -EINVAL;
      }
      Log(Ioctl(file.fd, command, param), before);
    }

    /**
      `device_read`. On a list that has a node, or whose first word was NULL, the reply is what the
      calls before ask for, unless memory or the copy to the user fails. On any other list the read
      leaves the live nodes exactly if the first word is not the address of one; if it is, the reply
      is that of the list which owns the node, for the channels that are not in front of it.
    */
    method DeviceRead(file: File, bufferIsNull: bool, length: nat) returns (reply: Reply)
      requires Ready() && IsOpen(file)
      modifies this`heap, this`refusals
      ensures Ready() && heap == old(heap)
      ensures file.privateData == 0 <==> reply == Error(-22)
      ensures file.minor in Run(calls).store && file.minor in Run(calls).firstWord
      ensures reply == Stray <==>
        && file.privateData != 0 && !SoundList(Run(calls), file.minor)
        && !IsNode(heap, Run(calls).firstWord[file.minor])
      ensures Settled(store)
      ensures var first := Run(calls).firstWord[file.minor];
        file.privateData != 0 && !SoundList(Run(calls), file.minor) && IsNode(heap, first) ==>
          && first in owned.role && owned.role[first].NodeOf?
          && owned.role[first].minor != file.minor && owned.role[first].minor in store
          && reply == if refusals > old(refusals) then Error(-28)
                      else if Narrow(file.privateData) < owned.role[first].channel then Error(-11)
                      else ReadReply(store, owned.role[first].minor, file.privateData, length, bufferIsNull)
      ensures SoundList(Run(calls), file.minor) ==>
        var target := (file.minor, Narrow(file.privateData));
        var lastLength := LastLength(calls, target);
        && (reply == Error(-11) <==> file.privateData != 0 && lastLength == None)
        && (reply.Message? ==>
              && lastLength == Some(|reply.bytes|) && |reply.bytes| <= length && !bufferIsNull
              && (LastMessage(calls, target).Some? && |LastMessage(calls, target).value| == |reply.bytes| ==>
                    reply.bytes == LastMessage(calls, target).value)
              && Recalls(calls, target, reply.bytes) && ShowsLastMessage(calls, target, reply.bytes))
        && (reply == Error(-28) <==>
              && file.privateData != 0 && lastLength.Some?
              && (length < lastLength.value || bufferIsNull || refusals > old(refusals)))
    {
      hide Layout, Legal, Run, LastLength, Narrow, Recalls, ShowsLastMessage, FirstOf, Ends, AnswerOf;
      FileIsRun(file);
      SoundnessIsLogged(file.minor);
      if file.privateData != 0 { ReadReturnsLastMessage(calls, file.fd, length); }
      ghost var found, steps;
      reply, found, steps := ReadChannel(file, bufferIsNull, length);
      if file.privateData != 0 {
        AnswerIsStray(heap, found, length, bufferIsNull);
        if !Sound(owned, file.minor) && IsNode(heap, FirstOf(owned, file.minor)) {
          ghost var n, d :=
            BorrowedAnswer(heap, owned, store, file.minor, file.privateData, steps, found, length, bufferIsNull);
        }
      }
    }

    lemma FileIsRun(file: File)
      requires Logged() && IsOpen(file)
      ensures file.fd in Run(calls).files && Run(calls).files[file.fd] == FileState(file.minor, file.privateData)
      ensures Settled(store) && file.minor in store && store == Run(calls).store && 0 <= file.minor < MINORS
      ensures file.minor in Run(calls).firstWord
    {
      RunRemembers(calls, (file.minor, 0));
    }

    lemma SoundnessIsLogged(m: int)
      requires Valid() && Logged() && m in store && m in Run(calls).firstWord
      ensures m in owned.order && (SoundList(Run(calls), m) <==> Sound(owned, m))
      ensures !Sound(owned, m) ==> FirstOf(owned, m) == Run(calls).firstWord[m]
    {
      hide Run, Legal, Layout;
      LayoutParts(heap, owned, store);
      hide Owns;
      forall c
        ensures c in owned.order[m] <==> c in store[m]
      {
        ChannelsAreListed(heap, owned, store, m, c);
      }
      if owned.order[m] != [] { assert owned.order[m][0] in owned.order[m]; }
    }

    /** `device_read` in terms of the heap, and for a sound list in terms of the store. */
    method ReadChannel(file: File, bufferIsNull: bool, length: nat)
      returns (reply: Reply, ghost found: Lookup, ghost steps: nat)
      requires Valid() && Settled(store) && 0 <= file.minor < MINORS
      modifies this`heap, this`refusals
      ensures Valid() && heap == old(heap) && refusals >= old(refusals)
      ensures file.privateData == 0 || file.minor !in store ==> reply == Error(-EINVAL) && refusals == old(refusals)
      ensures file.privateData != 0 && file.minor in store ==>
        && file.minor in owned.order && Readable(heap, found)
        && Ends(heap, FirstOf(owned, file.minor), Narrow(file.privateData), steps, found)
        && var answer := AnswerOf(heap, found, length, bufferIsNull);
        && reply == (if refusals > old(refusals) then Error(-ENOSPC) else answer)
        && (refusals > old(refusals) ==> answer.Message?)
        && (found == Astray <==> !Sound(owned, file.minor) && !IsNode(heap, FirstOf(owned, file.minor)))
        && (Sound(owned, file.minor) ==>
              answer == ReadReply(store, file.minor, file.privateData, length, bufferIsNull))
    {
      hide Layout, FirstOf, Ends, Expected, Narrow;
      found, steps := Absent, 0;
      if file.privateData == 0 {
        return Error(-EINVAL), found, steps;
      }
      OpenedHaveLists(file.minor);
      var lst := devices[file.minor + 1];
      if lst == NULL {
        return Error(-EINVAL), found, steps;
      }
      var result;
      result, steps := FindChannelId(lst, Narrow(file.privateData), file.minor);
      found := result;
      FoundIsReadable(heap, owned, store, file.minor, Narrow(file.privateData), steps, result);
      if Sound(owned, file.minor) {
        AnswerIsReply(heap, owned, store, file.minor, file.privateData, length, bufferIsNull);
      }
      match result {
        case Astray => reply := Stray;
        case Absent => reply := Error(-EWOULDBLOCK);
        case Found(node) => reply := CopyOut(node, bufferIsNull, length);
      }
    }

    /** The message of a node, by way of a temporary buffer. */
    method CopyOut(node: Addr, bufferIsNull: bool, length: nat) returns (reply: Reply)
      requires Readable(heap, Found(node))
      modifies this`heap, this`refusals
      ensures heap == old(heap) && refusals >= old(refusals)
      ensures var answer := AnswerOf(heap, Found(node), length, bufferIsNull);
        && reply == (if refusals > old(refusals) then Error(-ENOSPC) else answer)
        && (refusals > old(refusals) ==> answer.Message?)
    {
      ghost var before := heap;
      if length < heap[node].msgLength || bufferIsNull {
        return Error(-ENOSPC);
      }
      var leftover := Leftover(heap[node].msgLength);
      var tmpBuffer := Kmalloc(Buffer(leftover));
      if tmpBuffer == NULL {
        return Error(-ENOSPC);
      }
      heap := heap[tmpBuffer := Buffer(heap[heap[node].msg].bytes[..heap[node].msgLength])];
      var copied := CopyUser();
      if !copied {
        Kfree(tmpBuffer);
        assert heap == before;
        return Error(-ENOSPC);
      }
      var bytes := heap[tmpBuffer].bytes;
      Kfree(tmpBuffer);
      assert heap == before;
      return Message(bytes);
    }

    /** `device_write` */
    method DeviceWrite(file: File, bufferIsNull: bool, data: seq<Byte>)
      returns (status: int, ghost outcome: WriteOutcome)
      requires Ready() && IsOpen(file)
      modifies this`heap, this`owned, this`store, this`calls, this`refusals
      ensures Ready() && calls == old(calls) + [Write(file.fd, data, bufferIsNull, outcome)]
      ensures status == -90 <==> |data| == 0 || |data| > 128
      ensures status == -22 <==> 0 < |data| <= 128 && file.privateData == 0
      ensures status == -28 <==>
        0 < |data| <= 128 && file.privateData != 0 && (bufferIsNull || refusals > old(refusals))
      ensures status == |data| <==>
        0 < |data| <= 128 && file.privateData != 0 && !bufferIsNull && refusals == old(refusals)
      ensures refusals == old(refusals) && status != |data| ==> store == old(store) && heap == old(heap)
      ensures var target := (file.minor, Narrow(file.privateData));
        && (forall t :: t != target ==>
              LastLength(calls, t) == LastLength(old(calls), t) && LastMessage(calls, t) == LastMessage(old(calls), t))
        && LastMessage(calls, target) == (if status == |data| then Some(data) else LastMessage(old(calls), target))
        && (LastLength(calls, target) == Some(|data|) || LastLength(calls, target) == LastLength(old(calls), target))
        && (status == |data| ==> LastLength(calls, target) == Some(|data|))
        && (refusals == old(refusals) && status != |data| ==>
              LastLength(calls, target) == LastLength(old(calls), target))
    {
      hide Layout, Legal, Run, Narrow, Possible, AfterWrite, LastLength, LastMessage;
      FileIsRun(file);
      ghost var before := Run(calls);
      status, outcome := WriteChannel(file, bufferIsNull, data);
      WriteIsRefused(before.store, file.minor, file.privateData, |data|, bufferIsNull);
      ghost var call := Write(file.fd, data, bufferIsNull, outcome);
      Log(call, before);
      ghost var reached := Reaches(before, call);
      ghost var target := Target(before, file.fd);
      forall t
        ensures LastLength(calls, t) == if reached && t == target then Some(|data|) else LastLength(old(calls), t)
        ensures LastMessage(calls, t) ==
          if reached && t == target && outcome.Written? then Some(data) else LastMessage(old(calls), t)
      {
        CallAdvances(old(calls), call, t);
      }
    }

    /** `device_write` in terms of the store. */
    method WriteChannel(file: File, bufferIsNull: bool, data: seq<Byte>)
      returns (status: int, ghost outcome: WriteOutcome)
      requires Valid() && Settled(store) && 0 <= file.minor < MINORS
      modifies this`heap, this`owned, this`store, this`refusals
      ensures Valid() && Settled(store) && owned.firstWord == old(owned.firstWord)
      ensures var refusal := WriteCheck(old(store), file.minor, file.privateData, |data|, bufferIsNull);
        if refusal != 0 then
          status == refusal && store == old(store) && heap == old(heap) && refusals == old(refusals)
        else
          && Possible(old(store), file.minor, Narrow(file.privateData), outcome)
          && store == AfterWrite(old(store), file.minor, Narrow(file.privateData), data, outcome)
          && status == (if outcome.Written? then |data| else -28)
          && (outcome.Written? <==> refusals == old(refusals)) && refusals >= old(refusals)
      ensures status == -90 <==> |data| == 0 || |data| > 128
      ensures status == -22 <==>
        0 < |data| <= 128 && (file.privateData == 0 || (!bufferIsNull && file.minor !in old(store)))
    {
      hide Layout;
      outcome := NoNode;
      if |data| > BUF_LEN || |data| <= 0 {
        return -EMSGSIZE, outcome;
      }
      if file.privateData == 0 {
        return -EINVAL, outcome;
      }
      if bufferIsNull {
        return -ENOSPC, outcome;
      }
      OpenedHaveLists(file.minor);
      if devices[file.minor + 1] == NULL {
        return -EINVAL, outcome;
      }
      ghost var m, c := file.minor, Narrow(file.privateData);
      var node;
      ghost var slot;
      node, slot := GetOrCreateNode(devices[file.minor + 1], Narrow(file.privateData), m);
      if node == NULL {
        return -ENOSPC, outcome;
      }
      var done := Fill(node, data, m, c);
      ghost var bytes := if c in old(store)[m] then old(store)[m][c].bytes else slot.bytes;
      outcome := if done then Written(bytes) else LengthOnly(bytes);
      WriteSettles(old(store), m, c, data, outcome);
      PutTwice(old(store), m, c, slot, if c in store[m] then store[m][c] else slot);
      status := if done then |data| else -ENOSPC;
    }

    lemma PutTwice(s: Store, m: int, c: int, x: Slot, y: Slot)
      requires m in s
      ensures Put(Put(s, m, c, x), m, c, y) == Put(s, m, c, y)
    {
      assert s[m][c := x][c := y] == s[m][c := y];
    }

    /** The end of `device_write`: set the length, bring the message in, and store it. */
    method Fill(node: Addr, data: seq<Byte>, ghost m: int, ghost c: int) returns (done: bool)
      requires Valid() && m in store && c in store[m] && 0 < |data| <= BUF_LEN
      requires NodeOf(m, c) in owned.at && node == owned.at[NodeOf(m, c)]
      modifies this`heap, this`store, this`refusals
      ensures Valid()
      ensures refusals >= old(refusals) && (done <==> refusals == old(refusals))
      ensures |old(store)[m][c].bytes| == MSG_MAX_LENGTH
      ensures var bytes := old(store)[m][c].bytes;
        store == Put(old(store), m, c, Slot(if done then data + bytes[|data|..] else bytes, |data|))
    {
      hide Layout;
      ghost var before := heap;
      ghost var bytes := store[m][c].bytes;
      ChannelBlocks(heap, owned, store, m, c);
      heap := heap[node := heap[node].(msgLength := |data|)];
      ghost var lengthSet := heap;
      var leftover := Leftover(|data|);
      var tmpBuffer := Kmalloc(Buffer(leftover));
      if tmpBuffer == NULL {
        assert heap == Rewritten(before, owned, m, c, Slot(bytes, |data|));
        CommitSlot(before, m, c, Slot(bytes, |data|));
        return false;
      }
      var copied := CopyUser();
      if !copied {
        Kfree(tmpBuffer);
        assert heap == lengthSet;
        assert heap == Rewritten(before, owned, m, c, Slot(bytes, |data|));
        CommitSlot(before, m, c, Slot(bytes, |data|));
        return false;
      }
      heap := heap[tmpBuffer := Buffer(data)];
      SetMsg(node, tmpBuffer, |data|);
      Kfree(tmpBuffer);
      assert data[..|data|] == data;
      assert heap == Rewritten(before, owned, m, c, Slot(data + bytes[|data|..], |data|));
      CommitSlot(before, m, c, Slot(data + bytes[|data|..], |data|));
      return true;
    }

    /** `setMsg` */
    method SetMsg(node: Addr, source: Addr, msgLength: nat)
      requires node in heap && heap[node].NodeBlock? && heap[node].msg in heap && heap[heap[node].msg].Buffer?
      requires source in heap && heap[source].Buffer? && source != heap[node].msg && source != node
      requires msgLength <= |heap[source].bytes| && msgLength <= |heap[heap[node].msg].bytes|
      modifies this`heap
      ensures var msg := old(heap)[node].msg;
        heap == old(heap)[msg := Buffer(old(heap)[source].bytes[..msgLength] + old(heap)[msg].bytes[msgLength..])]
                         [node := old(heap)[node].(msgLength := msgLength)]
    {
      var msg := heap[node].msg;
      heap := heap[msg := Buffer(heap[source].bytes[..msgLength] + heap[msg].bytes[msgLength..])];
      heap := heap[node := heap[node].(msgLength := msgLength)];
    }

    ghost method CommitSlot(before: Heap, m: int, c: int, slot: Slot)
      requires Layout(before, owned, store) && Registered() && m in store && c in store[m]
      requires |slot.bytes| == MSG_MAX_LENGTH
      requires NodeOf(m, c) in owned.at && owned.at[NodeOf(m, c)] in before && before[owned.at[NodeOf(m, c)]].NodeBlock?
      requires heap == Rewritten(before, owned, m, c, slot)
      modifies this`store
      ensures Valid() && store == Put(old(store), m, c, slot)
    {
      hide Layout, Rewritten;
      RewriteKeepsLayout(before, owned, store, m, c, slot);
      store := Put(store, m, c, slot);
    }

    /** Between calls, the live allocations are exactly the blocks that can be reached from `devices`. */
    lemma LiveIsReachable()
      requires Valid()
      ensures forall a :: a in heap <==> Reachable(heap, devices[..], a)
    {
      hide Layout, Reachable;
      forall a
        ensures a in heap <==> Reachable(heap, devices[..], a)
      {
        if a in heap { LiveIsReached(heap, devices[..], owned, store, a); }
        if Reachable(heap, devices[..], a) { ReachedIsLive(heap, devices[..], owned, store, a); }
      }
    }

    /** Following a list from its head visits its channels in ascending order, as many as its size says. */
    lemma ListIsAscending(m: int)
      requires Valid() && 0 <= m < MINORS && m in store
      ensures devices[m + 1] in heap && heap[devices[m + 1]].ListBlock?
      ensures m in owned.order && heap[devices[m + 1]].size == |owned.order[m]| && Ascending(owned.order[m])
      ensures forall c :: c in owned.order[m] <==> c in store[m]
      ensures forall k: nat | k < |owned.order[m]| :: VisitsChannel(heap, devices[m + 1], k, owned.order[m][k])
      ensures owned.order[m] != [] ==> Follow(heap, heap[devices[m + 1]].first, |owned.order[m]|) == NULL
    {
      hide Layout, NodeAt, Follow;
      OpenedHaveLists(m);
      forall c
        ensures c in owned.order[m] <==> c in store[m]
      {
        ChannelsAreListed(heap, owned, store, m, c);
      }
      ChannelsAreListed(heap, owned, store, m, 0);
      HoldsList(heap, owned, store, m);
      NodeIsThereIn(heap, owned, store, m, 0);
      forall k: nat | k < |owned.order[m]|
        ensures VisitsChannel(heap, devices[m + 1], k, owned.order[m][k])
      {
        NodeIsThereIn(heap, owned, store, m, k);
        FollowIsNodeAt(heap, owned, store, m, 0, k);
      }
      FollowIsNodeAt(heap, owned, store, m, 0, |owned.order[m]|);
      NodeIsThereIn(heap, owned, store, m, |owned.order[m]|);
    }

    // ----- Clean-up

    method FreeNode(node: Addr)
      requires node in heap && heap[node].NodeBlock? && heap[node].msg in heap && heap[node].msg != node
      modifies this`heap
      ensures heap == old(heap) - {old(heap)[node].msg} - {node}
    {
      Kfree(heap[node].msg);
      Kfree(node);
    }

    /** Free the i-th node of a list once those in front of it are gone. */
    method FreeNodeAt(node: Addr, ghost before: Heap, ghost m: int, ghost i: nat)
      requires Layout(before, owned, store) && Left(before, heap, owned, m, i)
      requires m in owned.order && i < |owned.order[m]| && node == NodeAt(owned, m, i)
      modifies this`heap
      ensures Left(before, heap, owned, m, i + 1)
    {
      hide Layout, NodeAt;
      StillThere(before, m, i);
      FreeNode(node);
      hide Left, Gone;
      LeftAfterNode(before, old(heap), owned, store, m, i);
    }

    /** A node that is not gone yet, and its buffer, are as they were. */
    lemma StillThere(before: Heap, m: int, i: nat)
      requires Layout(before, owned, store) && Left(before, heap, owned, m, i)
      requires m in owned.order && i < |owned.order[m]|
      ensures NodeHolds(before, owned, store, m, i)
      ensures var c := owned.order[m][i];
        var node := NodeAt(owned, m, i);
        && node == owned.at[NodeOf(m, c)] && node in heap && node != NULL
        && heap[node] == before[node] && heap[node].NodeBlock?
        && heap[node].msg == owned.at[BufferOf(m, c)] && heap[node].msg in heap && heap[node].msg != node
        && heap[node].next == NodeAt(owned, m, i + 1)
    {
      var c := owned.order[m][i];
      NodeIsThereIn(before, owned, store, m, i);
      NotGoneYet(before, owned, store, m, i);
      hide Layout, Gone;
    }

    /** `freeLst` */
    method FreeLst(lst: Addr, ghost before: Heap, ghost m: int)
      requires Layout(before, owned, store) && Left(before, heap, owned, m, 0)
      requires m in owned.order && ListOf(m) in owned.at && lst == owned.at[ListOf(m)]
      modifies this`heap
      ensures Left(before, heap, owned, m + 1, 0)
    {
      hide Layout, NodeAt, Left;
      ListStillThere(before, heap, owned, store, m, 0);
      ghost var n := |owned.order[m]|;
      ghost var i := 0;
      if heap[lst].size != 0 {
        var prev := heap[lst].first;
        StillThere(before, m, 0);
        var cur := heap[prev].next;
        while cur != NULL
          invariant i < n && prev == NodeAt(owned, m, i) && cur == NodeAt(owned, m, i + 1)
          invariant Left(before, heap, owned, m, i)
          decreases n - i
        {
          NodeIsThereIn(before, owned, store, m, i + 1);
          FreeNodeAt(prev, before, m, i);
          i := i + 1;
          prev := cur;
          StillThere(before, m, i);
          cur := heap[cur].next;
        }
        NodeIsThereIn(before, owned, store, m, i + 1);
        FreeNodeAt(prev, before, m, i);
        i := i + 1;
      }
      ListStillThere(before, heap, owned, store, m, i);
      ghost var last := heap;
      Kfree(lst);
      LeftAfterList(before, last, owned, store, m);
    }

    /** `simple_cleanup`: every allocation is freed, and each only once. */
    method SimpleCleanup()
      requires Valid()
      modifies this`heap
      ensures heap == map[]
    {
      hide Layout;
      ghost var before := heap;
      NothingGone(before, owned, store);
      var tmp := 1;
      while tmp < MAX_DEVICES
        invariant 1 <= tmp <= MAX_DEVICES
        invariant Left(before, heap, owned, tmp - 1, 0)
      {
        OpenedHaveListsIn(before, tmp - 1);
        if devices[tmp] != NULL {
          FreeLst(devices[tmp], before, tmp - 1);
        } else {
          LeftAfterAbsent(before, heap, owned, store, tmp - 1);
        }
        tmp := tmp + 1;
      }
      AllGone(before, heap, owned, store);
    }

    lemma OpenedHaveListsIn(before: Heap, m: int)
      requires Layout(before, owned, store) && Registered() && 0 <= m < MINORS
      ensures m in owned.order <==> ListOf(m) in owned.at
      ensures devices[m + 1] == if ListOf(m) in owned.at then owned.at[ListOf(m)] else NULL
      ensures ListOf(m) in owned.at ==> owned.at[ListOf(m)] != NULL
    {
    }
  }

  lemma FitsInside(s: seq<int>, p: nat, c: int)
    requires Fits(s, p, c)
    ensures p <= |s|
  {
  }

  lemma AbsentIfBetween(s: seq<int>, p: nat, c: int)
    requires Fits(s, p, c)
    ensures c !in s
  {
  }

  /** The blocks that are freed when the first i nodes of list m and all lists before it are. */
  ghost predicate Gone(o: Ownership, r: Role, m: int, i: nat) {
    match r
    case ListOf(k) => k < m
    case NodeOf(k, c) => k < m || (k == m && m in o.order && i <= |o.order[m]| && c in o.order[m][..i])
    case BufferOf(k, c) => k < m || (k == m && m in o.order && i <= |o.order[m]| && c in o.order[m][..i])
  }

  /** The blocks that are not gone, as they were. */
  ghost predicate Left(before: Heap, heap: Heap, o: Ownership, m: int, i: nat) {
    && before.Keys == o.role.Keys
    && (forall a :: a in heap <==> a in before && !Gone(o, o.role[a], m, i))
    && (forall a :: a in heap ==> heap[a] == before[a])
  }

  lemma NothingGone(heap: Heap, o: Ownership, store: Store)
    requires Layout(heap, o, store)
    ensures Left(heap, heap, o, 0, 0)
  {
    hide NodeHolds, ListHolds, BufferHolds;
  }

  lemma AllGone(before: Heap, heap: Heap, o: Ownership, store: Store)
    requires Layout(before, o, store) && Left(before, heap, o, MINORS, 0)
    ensures heap == map[]
  {
    hide NodeHolds, ListHolds, BufferHolds;
    forall a | a in before
      ensures Gone(o, o.role[a], MINORS, 0)
    {
      assert o.role[a] in o.at;
    }
  }

  lemma NotGoneYet(before: Heap, o: Ownership, store: Store, m: int, i: nat)
    requires Layout(before, o, store) && m in o.order && i < |o.order[m]|
    ensures !Gone(o, NodeOf(m, o.order[m][i]), m, i) && !Gone(o, BufferOf(m, o.order[m][i]), m, i)
  {
    assert Ascending(o.order[m]);
  }

  /** Freeing the node and the buffer of the next channel. */
  lemma LeftAfterNode(before: Heap, heap: Heap, o: Ownership, store: Store, m: int, i: nat)
    requires Layout(before, o, store) && Left(before, heap, o, m, i)
    requires m in o.order && i < |o.order[m]| && NodeHolds(before, o, store, m, i)
    ensures var c := o.order[m][i];
      Left(before, heap - {o.at[BufferOf(m, c)]} - {o.at[NodeOf(m, c)]}, o, m, i + 1)
  {
    hide Layout, Gone, Owns, Complete, NodeAt;
    LayoutParts(before, o, store);
    var c := o.order[m][i];
    assert NodeOf(m, c) in o.at && BufferOf(m, c) in o.at;
    hide NodeHolds;
    forall a | a in before
      ensures Gone(o, o.role[a], m, i + 1) <==>
        Gone(o, o.role[a], m, i) || a == o.at[NodeOf(m, c)] || a == o.at[BufferOf(m, c)]
    {
      GoneNext(o, o.role[a], m, i);
      RoleIsAddress(before, o, a, NodeOf(m, c));
      RoleIsAddress(before, o, a, BufferOf(m, c));
    }
  }

  lemma RoleIsAddress(heap: Heap, o: Ownership, a: Addr, r: Role)
    requires Owns(heap, o) && a in heap && r in o.at
    ensures o.role[a] == r <==> a == o.at[r]
  {
  }

  lemma GoneNext(o: Ownership, r: Role, m: int, i: nat)
    requires m in o.order && i < |o.order[m]|
    ensures Gone(o, r, m, i + 1) <==>
      Gone(o, r, m, i) || r == NodeOf(m, o.order[m][i]) || r == BufferOf(m, o.order[m][i])
  {
    assert o.order[m][..i + 1] == o.order[m][..i] + [o.order[m][i]];
  }

  lemma ListStillThere(before: Heap, heap: Heap, o: Ownership, store: Store, m: int, i: nat)
    requires Layout(before, o, store) && Left(before, heap, o, m, i) && m in o.order
    ensures ListOf(m) in o.at && o.at[ListOf(m)] in heap
    ensures heap[o.at[ListOf(m)]] == ListBlock(FirstOf(o, m), |o.order[m]|)
  {
    assert ListHolds(before, o, m);
    assert Owns(before, o);
    hide Layout, NodeAt;
  }

  /** Freeing the list itself, when all its nodes are gone. */
  lemma LeftAfterList(before: Heap, heap: Heap, o: Ownership, store: Store, m: int)
    requires Layout(before, o, store) && m in o.order && Left(before, heap, o, m, |o.order[m]|)
    requires ListOf(m) in o.at
    ensures Left(before, heap - {o.at[ListOf(m)]}, o, m + 1, 0)
  {
    hide Layout, Gone, Owns, Complete;
    LayoutParts(before, o, store);
    forall a | a in before
      ensures Gone(o, o.role[a], m + 1, 0) <==> Gone(o, o.role[a], m, |o.order[m]|) || a == o.at[ListOf(m)]
    {
      RoleIsAddress(before, o, a, ListOf(m));
      RoleIsComplete(before, o, store, a);
      GoneList(o, store, o.role[a], m);
    }
  }

  lemma RoleIsComplete(heap: Heap, o: Ownership, store: Store, a: Addr)
    requires Owns(heap, o) && a in heap
    ensures o.role[a] in o.at
  {
  }

  lemma GoneList(o: Ownership, store: Store, r: Role, m: int)
    requires Complete(o, store) && m in o.order && r in o.at
    ensures Gone(o, r, m + 1, 0) <==> Gone(o, r, m, |o.order[m]|) || r == ListOf(m)
  {
    assert o.order[m][..|o.order[m]|] == o.order[m];
  }

  lemma LeftAfterAbsent(before: Heap, heap: Heap, o: Ownership, store: Store, m: int)
    requires Layout(before, o, store) && m !in o.order && Left(before, heap, o, m, 0)
    ensures Left(before, heap, o, m + 1, 0)
  {
    hide Layout, Gone, Owns, Complete;
    LayoutParts(before, o, store);
    forall a | a in before
      ensures Gone(o, o.role[a], m, 0) <==> Gone(o, o.role[a], m + 1, 0)
    {
      RoleIsComplete(before, o, store, a);
      GoneAbsent(o, store, o.role[a], m);
    }
  }

  lemma GoneAbsent(o: Ownership, store: Store, r: Role, m: int)
    requires Complete(o, store) && m !in o.order && r in o.at
    ensures Gone(o, r, m, 0) <==> Gone(o, r, m + 1, 0)
  {
  }

  // ----- What can be reached from the device array

  predicate VisitsChannel(heap: Heap, list: Addr, k: nat, c: int) {
    && list in heap && heap[list].ListBlock?
    && var p := Follow(heap, heap[list].first, k);
       IsNode(heap, p) && heap[p].channelId == c
  }

  /** The node itself, or its message buffer. */
  predicate OfNode(heap: Heap, p: Addr, a: Addr) {
    IsNode(heap, p) && (a == p || a == heap[p].msg)
  }

  ghost predicate OfList(heap: Heap, list: Addr, a: Addr) {
    && list in heap && heap[list].ListBlock?
    && (a == list || exists k: nat :: k < heap[list].size && OfNode(heap, Follow(heap, heap[list].first, k), a))
  }

  ghost predicate Reachable(heap: Heap, devices: seq<Addr>, a: Addr) {
    exists i :: 1 <= i < |devices| && OfList(heap, devices[i], a)
  }

  ghost predicate ListsAt(o: Ownership, devices: seq<Addr>) {
    && |devices| == MAX_DEVICES
    && forall m :: 0 <= m < MINORS ==> devices[m + 1] == if ListOf(m) in o.at then o.at[ListOf(m)] else NULL
  }

  /** Where the block with a given role is found. */
  lemma RoleIsReached(heap: Heap, o: Ownership, store: Store, r: Role)
    requires Layout(heap, o, store) && r in o.at
    ensures r.minor in o.order && 0 <= r.minor < MINORS && ListOf(r.minor) in o.at
    ensures OfList(heap, o.at[ListOf(r.minor)], o.at[r])
  {
    hide Owns, NodeAt, Layout;
    LayoutParts(heap, o, store);
    var m := r.minor;
    NodeIsThereIn(heap, o, store, m, 0);
    HoldsList(heap, o, store, m);
    if !r.ListOf? {
      assert r.channel in o.order[m];
      var k :| 0 <= k < |o.order[m]| && o.order[m][k] == r.channel;
      hide Complete;
      NodeIsThereIn(heap, o, store, m, k);
      FollowIsNodeAt(heap, o, store, m, 0, k);
      assert OfNode(heap, Follow(heap, heap[o.at[ListOf(m)]].first, k), o.at[r]);
    }
  }

  lemma LiveIsReached(heap: Heap, devices: seq<Addr>, o: Ownership, store: Store, a: Addr)
    requires Layout(heap, o, store) && ListsAt(o, devices) && a in heap
    ensures Reachable(heap, devices, a)
  {
    hide Layout, OfList, Complete;
    LayoutParts(heap, o, store);
    RoleIsComplete(heap, o, store, a);
    RoleIsAddress(heap, o, a, o.role[a]);
    hide Owns;
    RoleIsReached(heap, o, store, o.role[a]);
    assert OfList(heap, devices[o.role[a].minor + 1], a);
  }

  lemma ReachedIsLive(heap: Heap, devices: seq<Addr>, o: Ownership, store: Store, a: Addr)
    requires Layout(heap, o, store) && ListsAt(o, devices) && Reachable(heap, devices, a)
    ensures a in heap
  {
    hide Layout, Owns, Complete, NodeAt, Follow;
    LayoutParts(heap, o, store);
    OwnedIsNotNull(heap, o);
    var i :| 1 <= i < |devices| && OfList(heap, devices[i], a);
    var m := i - 1;
    assert devices[m + 1] == devices[i];
    if a != devices[i] {
      ListIsOpened(o, store, m);
      HoldsList(heap, o, store, m);
      var k: nat :| k < heap[devices[i]].size && OfNode(heap, Follow(heap, heap[devices[i]].first, k), a);
      FollowIsNodeAt(heap, o, store, m, 0, k);
      NodeIsThereIn(heap, o, store, m, k);
    }
  }

  lemma ListIsOpened(o: Ownership, store: Store, m: int)
    requires Complete(o, store)
    ensures ListOf(m) in o.at <==> m in o.order
  {
  }
}
