/**
  Short runs of calls on the message slots in which a read answers something other than what was
  written for it, or reads what is not there.
*/
module SlotExamples {
  import opened SlotLayout
  import opened SlotLookup
  import opened SlotModel
  import opened SlotAnswers

  const FD := 3
  const SET_CHANNEL := Ioctl(FD, MSG_SLOT_CHANNEL, 1)
  const CHANNEL := (0, 1)
  const START := [Open(FD, 0, true, NULL)] + [SET_CHANNEL]

  function Memory(b: Byte): (bytes: seq<Byte>)
    ensures |bytes| == MSG_MAX_LENGTH && forall i :: 0 <= i < MSG_MAX_LENGTH ==> bytes[i] == b
  {
    seq(MSG_MAX_LENGTH, _ => b)
  }

  /** A run of one more call. */
  lemma RunOn(calls: seq<Call>, call: Call)
    requires Legal(calls) && LegalCall(Run(calls), call)
    ensures Legal(calls + [call]) && Run(calls + [call]) == Do(Run(calls), call)
    ensures LastMessage(calls + [call], CHANNEL) ==
      if Reaches(Run(calls), call) && call.outcome.Written? && Target(Run(calls), call.fd) == CHANNEL
      then Some(call.data)
      else LastMessage(calls, CHANNEL)
  {
    assert (calls + [call])[..|calls|] == calls;
  }

  lemma Opened(calls: seq<Call>, left: Addr)
    requires calls == [Open(FD, 0, true, left)] + [SET_CHANNEL]
    ensures Legal(calls) && Run(calls) == World(map[FD := FileState(0, 1)], map[0 := map[]], map[0 := left])
    ensures LastMessage(calls, CHANNEL) == None
  {
    RunOn([], Open(FD, 0, true, left));
    assert [] + [Open(FD, 0, true, left)] == [Open(FD, 0, true, left)];
    RunOn([Open(FD, 0, true, left)], SET_CHANNEL);
  }

  /** After "AB" is written, and a write of one byte fails when its length is set, a read returns "A". */
  lemma FailedWriteCutsMessage(calls: seq<Call>, written: WriteOutcome, failed: WriteOutcome)
    requires written == Written(Memory(0)) && failed == LengthOnly([65, 66] + Memory(0)[2..])
    requires calls == START + [Write(FD, [65, 66], false, written)] + [Write(FD, [67], false, failed)]
    ensures Legal(calls) && Settled(Run(calls).store) && LastMessage(calls, CHANNEL) == Some([65, 66])
    ensures ReadReply(Run(calls).store, 0, 1, 128, false) == Message([65])
  {
    hide Memory, Legal, Run, LastMessage;
    Opened(START, NULL);
    RunOn(START, Write(FD, [65, 66], false, written));
    RunOn(START + [Write(FD, [65, 66], false, written)], Write(FD, [67], false, failed));
  }

  /** After the only write fails when its length is set, a read returns what the memory held. */
  lemma FailedWriteShowsMemory(calls: seq<Call>)
    requires calls == START + [Write(FD, [67, 67], false, LengthOnly(Memory(9)))]
    ensures Legal(calls) && Settled(Run(calls).store) && LastMessage(calls, CHANNEL) == None
    ensures ReadReply(Run(calls).store, 0, 1, 128, false) == Message([9, 9])
  {
    hide Memory, Legal, Run, LastMessage;
    Opened(START, NULL);
    RunOn(START, Write(FD, [67, 67], false, LengthOnly(Memory(9))));
  }

  /** A message that is written to channel 1 is read from channel 2^32 + 1. */
  lemma LowBitsAreOneChannel(set2: seq<Call>, calls: seq<Call>)
    requires set2 == START + [Open(4, 0, true, NULL)] + [Ioctl(4, MSG_SLOT_CHANNEL, 0x1_0000_0001)]
    requires calls == set2 + [Write(FD, [65], false, Written(Memory(0)))]
    ensures Legal(calls) && Settled(Run(calls).store) && 4 in Run(calls).files
    ensures Run(calls).files[4] == FileState(0, 0x1_0000_0001)
    ensures ReadReply(Run(calls).store, 0, 0x1_0000_0001, 128, false) == Message([65])
  {
    hide Memory, Legal, Run;
    Opened(START, NULL);
    RunOn(START, Open(4, 0, true, NULL));
    RunOn(START + [Open(4, 0, true, NULL)], Ioctl(4, MSG_SLOT_CHANNEL, 0x1_0000_0001));
    RunOn(set2, Write(FD, [65], false, Written(Memory(0))));
  }

  /** An empty list at address 8, with 24 in its first word. */
  lemma OneEmptyList(heap: Heap, o: Ownership)
    requires heap == map[8 := ListBlock(24, 0)]
    requires o == Ownership(map[ListOf(0) := 8], map[8 := ListOf(0)], map[0 := []], map[0 := 24])
    ensures Layout(heap, o, map[0 := map[]]) && FirstOf(o, 0) == 24
  {
    assert ListHolds(heap, o, 0);
  }

  /**
    The first open gives list 0 the memory at address 8, which holds 24 in its first word; nothing
    lives at 24. A read of channel 1 then takes 24 for the first node of the list.
  */
  lemma ReadGoesAstray(calls: seq<Call>, heap: Heap, o: Ownership)
    requires calls == [Open(FD, 0, true, 24)] + [SET_CHANNEL]
    requires heap == map[8 := ListBlock(24, 0)]
    requires o == Ownership(map[ListOf(0) := 8], map[8 := ListOf(0)], map[0 := []], map[0 := 24])
    ensures Legal(calls) && Run(calls).firstWord == o.firstWord
    ensures Run(calls).store == map[0 := map[]] && Layout(heap, o, Run(calls).store)
    ensures !SoundList(Run(calls), 0)
    ensures Run(calls).files == map[FD := FileState(0, 1)] && Ends(heap, FirstOf(o, 0), Narrow(1), 0, Astray)
  {
    hide Legal, Run, Layout, FirstOf;
    Opened(calls, 24);
    OneEmptyList(heap, o);
  }

  // ----- A first word that is the address of another list's node

  function Letter(b: Byte): (slot: Slot)
    ensures |slot.bytes| == MSG_MAX_LENGTH && slot.len == 1
  {
    Slot([b] + Memory(0)[1..], 1)
  }

  /** Nothing on minor number 0, and one letter on minor number 1. */
  function Letters(b: Byte): Store {
    map[0 := map[], 1 := map[1 := Letter(b)]]
  }

  /** List 0 is at address 8, with 24 in its first word; the node of list 1 is at 24. */
  function LettersHeap(b: Byte): Heap {
    map[8 := ListBlock(24, 0), 16 := ListBlock(24, 1), 24 := NodeBlock(1, 32, 1, NULL), 32 := Buffer(Letter(b).bytes)]
  }

  const LETTERS_OWNED := Ownership(
    map[ListOf(0) := 8, ListOf(1) := 16, NodeOf(1, 1) := 24, BufferOf(1, 1) := 32],
    map[8 := ListOf(0), 16 := ListOf(1), 24 := NodeOf(1, 1), 32 := BufferOf(1, 1)],
    map[0 := [], 1 := [1]], map[0 := 24, 1 := NULL])

  /** Both lists are opened, and nothing is written yet. */
  const OPEN_HEAP: Heap := map[8 := ListBlock(24, 0), 16 := ListBlock(NULL, 0)]
  const OPEN_OWNED := Ownership(
    map[ListOf(0) := 8, ListOf(1) := 16], map[8 := ListOf(0), 16 := ListOf(1)],
    map[0 := [], 1 := []], map[0 := 24, 1 := NULL])

  function FirstLetter(b: Byte): Insertion {
    Insertion(1, 0, 1, 24, 32, Letter(b))
  }

  lemma LetterLinked(b: Byte)
    ensures Linked(OPEN_HEAP, OPEN_OWNED, FirstLetter(b)) == LettersHeap(b)
  {
    hide Letter;
    assert Before(OPEN_OWNED, FirstLetter(b)) == NULL && NodeAt(OPEN_OWNED, 1, 0) == NULL;
    assert ListAt(OPEN_HEAP, 16) == ListBlock(NULL, 0);
  }

  lemma LetterOwned(b: Byte)
    ensures WithChannel(OPEN_OWNED, FirstLetter(b)) == LETTERS_OWNED
  {
    hide Letter;
    assert Inserted([], 0, 1) == [1];
    assert WithChannel(OPEN_OWNED, FirstLetter(b)).order == LETTERS_OWNED.order;
  }

  lemma LetterPut(b: Byte)
    ensures Put(map[0 := map[], 1 := map[]], 1, 1, Letter(b)) == Letters(b)
  {
    hide Letter;
    var none: map<int, Slot> := map[];
    assert none[1 := Letter(b)] == map[1 := Letter(b)];
  }

  lemma LettersLayout(b: Byte)
    ensures Layout(LettersHeap(b), LETTERS_OWNED, Letters(b))
  {
    hide Layout, Linked, Letter, WithChannel, Put;
    var h0: Heap, s0: Store := map[8 := ListBlock(24, 0)], map[0 := map[]];
    var o0 := Ownership(map[ListOf(0) := 8], map[8 := ListOf(0)], map[0 := []], map[0 := 24]);
    OneEmptyList(h0, o0);
    NewListKeepsLayout(h0, o0, s0, 1, 16, NULL);
    InsertKeepsLayout(OPEN_HEAP, OPEN_OWNED, s0[1 := map[]], FirstLetter(b));
    LetterLinked(b);
    LetterOwned(b);
    LetterPut(b);
  }

  /** A read of channel 1 on minor number 0, where nothing was written, answers what minor number 1 holds. */
  lemma LettersRead(b: Byte)
    ensures Layout(LettersHeap(b), LETTERS_OWNED, Letters(b)) && Settled(Letters(b))
    ensures Ends(LettersHeap(b), FirstOf(LETTERS_OWNED, 0), Narrow(1), 0, Found(24))
    ensures Readable(LettersHeap(b), Found(24))
    ensures AnswerOf(LettersHeap(b), Found(24), 128, false) == Message([b])
    ensures ReadReply(Letters(b), 0, 1, 128, false) == Error(-EWOULDBLOCK)
  {
    LettersLayout(b);
    hide Layout, Memory;
    assert Letter(b).bytes[..1] == [b];
  }

  /** A write of one letter, over another one or as the first on its minor number. */
  lemma LetterWritten(w: World, before: seq<Byte>, b: Byte)
    requires 4 in w.files && w.files[4] == FileState(1, 1)
    requires |before| == MSG_MAX_LENGTH && before[1..] == Memory(0)[1..]
    requires w.store == map[0 := map[], 1 := map[]] || w.store == map[0 := map[], 1 := map[1 := Slot(before, 1)]]
    ensures LegalCall(w, Write(4, [b], false, Written(before)))
    ensures Do(w, Write(4, [b], false, Written(before))) == w.(store := Letters(b))
  {
    hide Memory;
    assert Narrow(1) == 1;
    assert AfterWrite(w.store, 1, 1, [b], Written(before)) == Put(w.store, 1, 1, Letter(b));
    assert w.store[1][1 := Letter(b)] == map[1 := Letter(b)];
    assert w.store[1 := map[1 := Letter(b)]] == Letters(b);
  }

  lemma LettersRun(begun: seq<Call>, one: seq<Call>, two: seq<Call>)
    requires begun == [Open(FD, 0, true, 24)] + [SET_CHANNEL] + [Open(4, 1, true, NULL)]
    requires one == begun + [Ioctl(4, MSG_SLOT_CHANNEL, 1)] + [Write(4, [65], false, Written(Memory(0)))]
    requires two == one + [Write(4, [66], false, Written(Letter(65).bytes))]
    ensures var files := map[FD := FileState(0, 1), 4 := FileState(1, 1)];
      && Legal(one) && Run(one) == World(files, Letters(65), map[0 := 24, 1 := NULL])
      && Legal(two) && Run(two) == World(files, Letters(66), map[0 := 24, 1 := NULL])
  {
    hide Memory, Legal, Run, LastMessage;
    var first := [Open(FD, 0, true, 24)] + [SET_CHANNEL];
    Opened(first, 24);
    RunOn(first, Open(4, 1, true, NULL));
    RunOn(begun, Ioctl(4, MSG_SLOT_CHANNEL, 1));
    LetterWritten(Run(begun + [Ioctl(4, MSG_SLOT_CHANNEL, 1)]), Memory(0), 65);
    RunOn(begun + [Ioctl(4, MSG_SLOT_CHANNEL, 1)], Write(4, [65], false, Written(Memory(0))));
    LetterWritten(Run(one), Letter(65).bytes, 66);
    RunOn(one, Write(4, [66], false, Written(Letter(65).bytes)));
  }

  /**
    Minor number 0 is opened in memory that holds 24, and the first node of minor number 1 is then
    allocated there. After a write of "A" and one of "B", both on minor number 1, reads on minor
    number 0 answer "A" and "B", though nothing was written there.
  */
  lemma ReadBorrowsNode(begun: seq<Call>, one: seq<Call>, two: seq<Call>, b: Byte)
    requires begun == [Open(FD, 0, true, 24)] + [SET_CHANNEL] + [Open(4, 1, true, NULL)]
    requires one == begun + [Ioctl(4, MSG_SLOT_CHANNEL, 1)] + [Write(4, [65], false, Written(Memory(0)))]
    requires two == one + [Write(4, [66], false, Written(Letter(65).bytes))]
    requires b == 65 || b == 66
    ensures Legal(one) && Legal(two)
    ensures var w := Run(if b == 65 then one else two);
      && w.files == map[FD := FileState(0, 1), 4 := FileState(1, 1)] && w.firstWord == LETTERS_OWNED.firstWord
      && 0 in w.store && 0 in w.firstWord && w.store[0] == map[] && !SoundList(w, 0)
      && Layout(LettersHeap(b), LETTERS_OWNED, w.store)
      && Ends(LettersHeap(b), FirstOf(LETTERS_OWNED, 0), Narrow(1), 0, Found(24))
      && Readable(LettersHeap(b), Found(24))
      && AnswerOf(LettersHeap(b), Found(24), 128, false) == Message([b])
  {
    LettersRun(begun, one, two);
    hide Memory, Legal, Run, LastMessage, Layout, Ends, AnswerOf, FirstOf, LettersHeap;
    LettersRead(b);
  }
}
