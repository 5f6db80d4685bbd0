/**
  The message slots as seen by the callers: what the device calls do to the stored
  messages, and what reads return after whole runs of calls.
*/
module SlotModel {
  import opened SlotLayout

  const EWOULDBLOCK := 11
  const EINVAL := 22
  const ENOSPC := 28
  const EMSGSIZE := 90
  const BUF_LEN: nat := 128
  const MSG_SLOT_CHANNEL: nat := 0x4008_F000

  /** An unsigned long as the `int` that identifies a channel: its low 32 bits, signed. */
  function Narrow(channelId: nat): (c: int)
    ensures -0x8000_0000 <= c < 0x8000_0000
  {
    var low := channelId % 0x1_0000_0000;
    if low < 0x8000_0000 then low else low - 0x1_0000_0000
  }

  /** Two channel ids are one channel exactly if their low 32 bits agree. */
  lemma ChannelsDifferInLowBits(x: nat, y: nat)
    ensures Narrow(x) == Narrow(y) <==> x % 0x1_0000_0000 == y % 0x1_0000_0000
  {
  }

  /**
    How a write that passed its checks ends: no node could be allocated; the length was set but
    the message could not be brought in; or all went well. `before` is what the buffer held.
  */
  datatype WriteOutcome =
    | NoNode
    | LengthOnly(before: seq<Byte>)
    | Written(before: seq<Byte>)

  /** The error that a write is refused with, or 0. */
  function WriteCheck(store: Store, m: int, privateData: nat, length: nat, bufferIsNull: bool): int {
    if length > BUF_LEN || length == 0 then -EMSGSIZE
    else if privateData == 0 then -EINVAL
    else if bufferIsNull then -ENOSPC
    else if m !in store then -EINVAL
    else 0
  }

  predicate Possible(store: Store, m: int, c: int, outcome: WriteOutcome)
    requires m in store
  {
    match outcome
    case NoNode => c !in store[m]
    case LengthOnly(before) => |before| == MSG_MAX_LENGTH && (c in store[m] ==> before == store[m][c].bytes)
    case Written(before) => |before| == MSG_MAX_LENGTH && (c in store[m] ==> before == store[m][c].bytes)
  }

  function AfterWrite(store: Store, m: int, c: int, data: seq<Byte>, outcome: WriteOutcome): Store
    requires m in store && |data| <= BUF_LEN && Possible(store, m, c, outcome)
  {
    match outcome
    case NoNode => store
    case LengthOnly(before) => Put(store, m, c, Slot(before, |data|))
    case Written(before) => Put(store, m, c, Slot(data + before[|data|..], |data|))
  }

  /** What a read does; astray, it reads a list node where there is none. */
  datatype Reply = Message(bytes: seq<Byte>) | Error(code: int) | Stray

  /** What a read of a sound list returns when its temporary buffer is allocated and copied. */
  ghost function ReadReply(store: Store, m: int, privateData: nat, length: nat, bufferIsNull: bool): Reply
    requires Settled(store)
  {
    if privateData == 0 then Error(-EINVAL)
    else if m !in store then Error(-EINVAL)
    else if Narrow(privateData) !in store[m] then Error(-EWOULDBLOCK)
    else
      var slot := store[m][Narrow(privateData)];
      if length < slot.len || bufferIsNull then Error(-ENOSPC) else Message(slot.bytes[..slot.len])
  }

  /** Between calls every message length is a possible one. */
  predicate SettledSlot(slot: Slot) {
    |slot.bytes| == MSG_MAX_LENGTH && 0 < slot.len <= MSG_MAX_LENGTH
  }

  ghost predicate Settled(store: Store) {
    forall m, c :: m in store && c in store[m] ==> SettledSlot(store[m][c])
  }

  lemma WriteSettles(store: Store, m: int, c: int, data: seq<Byte>, outcome: WriteOutcome)
    requires Settled(store) && m in store && 0 < |data| <= BUF_LEN && Possible(store, m, c, outcome)
    ensures Settled(AfterWrite(store, m, c, data, outcome))
  {
  }

  // ----- Whole runs of calls on any number of open files

  datatype FileState = FileState(minor: int, privateData: nat)

  /**
    Calls by file descriptor; the flags and outcomes are what the kernel decided, and `left` is
    the first word of the memory that it gave.
  */
  datatype Call =
    | Open(fd: int, minor: int, gotMemory: bool, left: Addr)
    | Ioctl(fd: int, command: nat, param: nat)
    | Write(fd: int, data: seq<Byte>, bufferIsNull: bool, outcome: WriteOutcome)

  /** The open files, the channels, and the first word that each list was allocated with. */
  datatype World = World(files: map<int, FileState>, store: Store, firstWord: map<int, Addr>)

  predicate Passes(w: World, fd: int, data: seq<Byte>, bufferIsNull: bool)
    requires fd in w.files
  {
    WriteCheck(w.store, w.files[fd].minor, w.files[fd].privateData, |data|, bufferIsNull) == 0
  }

  /** A write that gets as far as setting the length of its channel. */
  predicate Reaches(w: World, call: Call) {
    && call.Write? && call.fd in w.files
    && Passes(w, call.fd, call.data, call.bufferIsNull)
    && !call.outcome.NoNode?
  }

  /** The minor number and channel that a descriptor stands for. */
  function Target(w: World, fd: int): (int, int)
    requires fd in w.files
  {
    (w.files[fd].minor, Narrow(w.files[fd].privateData))
  }

  predicate LegalCall(w: World, call: Call) {
    match call
    case Open(fd, minor, _, _) => fd !in w.files && 0 <= minor < MINORS
    case Ioctl(fd, _, _) => fd in w.files
    case Write(fd, data, isNull, outcome) =>
      && fd in w.files
      && (Passes(w, fd, data, isNull) ==>
            Possible(w.store, Target(w, fd).0, Target(w, fd).1, outcome))
  }

  function Do(w: World, call: Call): World
    requires LegalCall(w, call)
  {
    match call
    case Open(fd, minor, gotMemory, left) =>
      if minor in w.store then w.(files := w.files[fd := FileState(minor, 0)])
      else if gotMemory then
        World(w.files[fd := FileState(minor, 0)], w.store[minor := map[]], w.firstWord[minor := left])
      else w
    case Ioctl(fd, command, param) =>
      if command == MSG_SLOT_CHANNEL && param != 0 then w.(files := w.files[fd := w.files[fd].(privateData := param)])
      else w
    case Write(fd, data, isNull, outcome) =>
      if !Passes(w, fd, data, isNull) then w
      else w.(store := AfterWrite(w.store, Target(w, fd).0, Target(w, fd).1, data, outcome))
  }

  predicate Legal(calls: seq<Call>)
    decreases |calls|, 0
  {
    calls == [] || (Legal(calls[..|calls| - 1]) && LegalCall(Run(calls[..|calls| - 1]), calls[|calls| - 1]))
  }

  function Run(calls: seq<Call>): World
    requires Legal(calls)
    decreases |calls|, 1
  {
    if calls == [] then World(map[], map[], map[]) else Do(Run(calls[..|calls| - 1]), calls[|calls| - 1])
  }

  lemma CallsContinue(calls: seq<Call>, call: Call)
    requires Legal(calls) && LegalCall(Run(calls), call)
    ensures Legal(calls + [call]) && Run(calls + [call]) == Do(Run(calls), call)
  {
    assert (calls + [call])[..|calls|] == calls;
  }

  datatype Option<+T> = None | Some(value: T)

  /** The length of the last write to a channel that got as far as setting the length. */
  function LastLength(calls: seq<Call>, target: (int, int)): Option<nat>
    requires Legal(calls)
  {
    if calls == [] then None
    else
      var before, call := calls[..|calls| - 1], calls[|calls| - 1];
      if Reaches(Run(before), call) && Target(Run(before), call.fd) == target then Some(|call.data|)
      else LastLength(before, target)
  }

  /** The data of the last successful write to a channel. */
  function LastMessage(calls: seq<Call>, target: (int, int)): Option<seq<Byte>>
    requires Legal(calls)
  {
    if calls == [] then None
    else
      var before, call := calls[..|calls| - 1], calls[|calls| - 1];
      if Reaches(Run(before), call) && call.outcome.Written? && Target(Run(before), call.fd) == target
      then Some(call.data)
      else LastMessage(before, target)
  }

  /** What the buffer of a channel held when it was allocated. */
  function FirstMemory(calls: seq<Call>, target: (int, int)): Option<seq<Byte>>
    requires Legal(calls)
  {
    if calls == [] then None
    else
      var before, call := calls[..|calls| - 1], calls[|calls| - 1];
      if FirstMemory(before, target).None? && Reaches(Run(before), call) && Target(Run(before), call.fd) == target
      then Some(call.outcome.before)
      else FirstMemory(before, target)
  }

  /** The byte at place j of the last successful write that was long enough to have one. */
  function LastByte(calls: seq<Call>, target: (int, int), j: nat): Option<Byte>
    requires Legal(calls)
  {
    if calls == [] then None
    else
      var before, call := calls[..|calls| - 1], calls[|calls| - 1];
      if Reaches(Run(before), call) && call.outcome.Written? && Target(Run(before), call.fd) == target &&
         j < |call.data|
      then Some(call.data[j])
      else LastByte(before, target, j)
  }

  ghost predicate HasNode(w: World, m: int)
    requires m in w.store
  {
    exists c :: c in w.store[m]
  }

  /** A list that has a node, or was allocated in memory whose first word was NULL. */
  ghost predicate SoundList(w: World, m: int)
    requires m in w.store && m in w.firstWord
  {
    HasNode(w, m) || w.firstWord[m] == NULL
  }

  /** What the store holds for a channel, in terms of the calls made. */
  ghost predicate Remembers(store: Store, target: (int, int), length: Option<nat>, message: Option<seq<Byte>>,
                            memory: Option<seq<Byte>>) {
    && (length.Some? <==> target.0 in store && target.1 in store[target.0])
    && (memory.Some? <==> length.Some?)
    && (message.Some? ==> length.Some?)
    && (length.Some? ==>
          && var slot := store[target.0][target.1];
          && slot.len == length.value
          && |memory.value| == MSG_MAX_LENGTH
          && if message.Some? then message.value <= slot.bytes else slot.bytes == memory.value)
  }

  /** The byte that the store holds at place j of a channel. */
  ghost predicate Overlaid(store: Store, target: (int, int), j: nat, byte: Option<Byte>, memory: Option<seq<Byte>>) {
    && (byte.Some? ==> memory.Some?)
    && (target.0 in store && target.1 in store[target.0] && memory.Some? ==>
      && |store[target.0][target.1].bytes| == |memory.value| == MSG_MAX_LENGTH
      && (byte.Some? ==> j < MSG_MAX_LENGTH)
      && (j < MSG_MAX_LENGTH ==>
            store[target.0][target.1].bytes[j] == if byte.Some? then byte.value else memory.value[j]))
  }

  lemma {:induction false} RunRemembers(calls: seq<Call>, target: (int, int))
    requires Legal(calls)
    ensures Settled(Run(calls).store)
    ensures Remembers(Run(calls).store, target, LastLength(calls, target), LastMessage(calls, target),
                      FirstMemory(calls, target))
    ensures forall fd :: fd in Run(calls).files ==> Run(calls).files[fd].minor in Run(calls).store
    ensures forall m :: m in Run(calls).store ==> 0 <= m < MINORS
    ensures Run(calls).firstWord.Keys == Run(calls).store.Keys
  {
    hide Remembers;
    if calls == [] {
      NothingRemembered(target);
    } else {
      var before, call := calls[..|calls| - 1], calls[|calls| - 1];
      RunRemembers(before, target);
      var w := Run(before);
      var length, message := LastLength(before, target), LastMessage(before, target);
      var memory := FirstMemory(before, target);
      if call.Write? && Passes(w, call.fd, call.data, call.bufferIsNull) {
        WriteSettles(w.store, Target(w, call.fd).0, Target(w, call.fd).1, call.data, call.outcome);
        WriteRemembers(w, call, target, length, message, memory);
      } else {
        OthersRemember(w, call, target, length, message, memory);
      }
    }
  }

  /** A list has a node exactly if a write to its minor number got one. */
  lemma HasNodeIffWritten(calls: seq<Call>, m: int)
    requires Legal(calls) && m in Run(calls).store
    ensures HasNode(Run(calls), m) <==> exists c :: LastLength(calls, (m, c)).Some?
  {
    hide Run, Legal, LastLength;
    forall c
      ensures LastLength(calls, (m, c)).Some? <==> c in Run(calls).store[m]
    {
      RunRemembers(calls, (m, c));
    }
    if HasNode(Run(calls), m) {
      var c :| c in Run(calls).store[m];
      assert LastLength(calls, (m, c)).Some?;
    }
  }

  lemma NothingRemembered(target: (int, int))
    ensures Remembers(map[], target, None, None, None)
  {
  }

  lemma WriteRemembers(w: World, call: Call, target: (int, int), length: Option<nat>, message: Option<seq<Byte>>,
                       memory: Option<seq<Byte>>)
    requires call.Write? && LegalCall(w, call) && Settled(w.store)
    requires Remembers(w.store, target, length, message, memory)
    requires Passes(w, call.fd, call.data, call.bufferIsNull)
    ensures var hit := Target(w, call.fd) == target && !call.outcome.NoNode?;
      Remembers(Do(w, call).store, target, if hit then Some(|call.data|) else length,
                if hit && call.outcome.Written? then Some(call.data) else message,
                if hit && memory.None? then Some(call.outcome.before) else memory)
  {
  }

  lemma OthersRemember(w: World, call: Call, target: (int, int), length: Option<nat>, message: Option<seq<Byte>>,
                       memory: Option<seq<Byte>>)
    requires LegalCall(w, call) && Remembers(w.store, target, length, message, memory)
    requires !(call.Write? && Passes(w, call.fd, call.data, call.bufferIsNull))
    ensures Remembers(Do(w, call).store, target, length, message, memory)
  {
  }

  lemma {:induction false} RunOverlays(calls: seq<Call>, target: (int, int), j: nat)
    requires Legal(calls)
    ensures Overlaid(Run(calls).store, target, j, LastByte(calls, target, j), FirstMemory(calls, target))
  {
    hide Overlaid;
    if calls == [] {
      NothingOverlaid(target, j);
    } else {
      var before, call := calls[..|calls| - 1], calls[|calls| - 1];
      RunOverlays(before, target, j);
      RunRemembers(before, target);
      CallOverlays(Run(before), call, target, j, LastByte(before, target, j), FirstMemory(before, target));
    }
  }

  lemma NothingOverlaid(target: (int, int), j: nat)
    ensures Overlaid(map[], target, j, None, None)
  {
  }

  lemma CallOverlays(w: World, call: Call, target: (int, int), j: nat, byte: Option<Byte>, memory: Option<seq<Byte>>)
    requires LegalCall(w, call) && Settled(w.store) && Overlaid(w.store, target, j, byte, memory)
    requires memory.Some? <==> target.0 in w.store && target.1 in w.store[target.0]
    ensures var hit := Reaches(w, call) && Target(w, call.fd) == target;
      Overlaid(Do(w, call).store, target, j,
               if hit && call.outcome.Written? && j < |call.data| then Some(call.data[j]) else byte,
               if hit && memory.None? then Some(call.outcome.before) else memory)
  {
  }

  /**
    What a read of the channel has to return: as many bytes as the last length that was set, each
    from the last successful write with a byte at its place, or else from the memory that the
    buffer was allocated in.
  */
  ghost predicate Recalls(calls: seq<Call>, target: (int, int), bytes: seq<Byte>)
    requires Legal(calls)
  {
    && LastLength(calls, target) == Some(|bytes|)
    && FirstMemory(calls, target).Some? && |bytes| <= |FirstMemory(calls, target).value|
    && forall j: nat :: j < |bytes| ==> RecallsByte(calls, target, j, bytes[j])
  }

  predicate RecallsByte(calls: seq<Call>, target: (int, int), j: nat, b: Byte)
    requires Legal(calls)
    requires FirstMemory(calls, target).Some? && j < |FirstMemory(calls, target).value|
  {
    b == match LastByte(calls, target, j) case Some(byte) => byte case None => FirstMemory(calls, target).value[j]
  }

  /**
    How that compares with the last successful message: a failed write of a smaller length cuts it
    off, and one of a larger length lets older bytes follow it. If no write has succeeded, the bytes
    are those of the allocated memory.
  */
  ghost predicate ShowsLastMessage(calls: seq<Call>, target: (int, int), bytes: seq<Byte>)
    requires Legal(calls)
  {
    match LastMessage(calls, target)
    case Some(message) =>
      && (if |bytes| <= |message| then bytes == message[..|bytes|] else message < bytes)
      && (bytes == message <==> |message| == |bytes|)
    case None => FirstMemory(calls, target).Some? && bytes <= FirstMemory(calls, target).value
  }

  lemma SettledHolds(store: Store, m: int, c: int)
    requires Settled(store) && m in store && c in store[m]
    ensures SettledSlot(store[m][c])
  {
  }

  lemma ReadRecalls(calls: seq<Call>, target: (int, int))
    requires Legal(calls) && LastLength(calls, target).Some?
    ensures Settled(Run(calls).store)
    ensures target.0 in Run(calls).store && target.1 in Run(calls).store[target.0]
    ensures var slot := Run(calls).store[target.0][target.1];
      && |slot.bytes| == MSG_MAX_LENGTH && slot.len == LastLength(calls, target).value <= MSG_MAX_LENGTH
      && Recalls(calls, target, slot.bytes[..slot.len]) && ShowsLastMessage(calls, target, slot.bytes[..slot.len])
  {
    hide Run, Legal, LastLength, LastByte, LastMessage, FirstMemory;
    RunRemembers(calls, target);
    var slot := Run(calls).store[target.0][target.1];
    SettledHolds(Run(calls).store, target.0, target.1);
    forall j: nat | j < slot.len
      ensures RecallsByte(calls, target, j, slot.bytes[..slot.len][j])
    {
      RunOverlays(calls, target, j);
    }
  }

  /**
    A read through a descriptor with a channel, on a sound list: a channel that no write reached
    would block; a buffer that is too small is refused; and otherwise the reply has the last length
    that was set, and is the last successful message exactly if that was its length.
  */
  lemma ReadReturnsLastMessage(calls: seq<Call>, fd: int, length: nat)
    requires Legal(calls) && fd in Run(calls).files && Run(calls).files[fd].privateData != 0
    ensures Settled(Run(calls).store) && IsOnList(Run(calls), fd)
    ensures SoundList(Run(calls), Run(calls).files[fd].minor) ==>
      var w := Run(calls);
      var target := Target(w, fd);
      var reply := ReadReply(w.store, w.files[fd].minor, w.files[fd].privateData, length, false);
      match LastLength(calls, target)
      case None => reply == Error(-11) && LastMessage(calls, target) == None
      case Some(n) =>
        if length < n then reply == Error(-28)
        else
          && reply.Message? && |reply.bytes| == n
          && Recalls(calls, target, reply.bytes) && ShowsLastMessage(calls, target, reply.bytes)
  {
    var target := Target(Run(calls), fd);
    RunRemembers(calls, target);
    if LastLength(calls, target).Some? { ReadRecalls(calls, target); }
  }

  predicate IsOnList(w: World, fd: int) {
    fd in w.files && w.files[fd].minor in w.store && w.files[fd].minor in w.firstWord
  }

  /**
    A successful write is what a read answers through every descriptor of the same minor number
    whose channel id has the same low 32 bits; every other descriptor on a list that was sound
    answers as before. The lists that are sound are those that were, and the writer's.
  */
  lemma WriteShowsExactlyAtItsChannel(calls: seq<Call>, call: Call, fd: int, length: nat, bufferIsNull: bool)
    requires Legal(calls + [call]) && Legal(calls)
    requires Reaches(Run(calls), call) && call.outcome.Written?
    requires fd in Run(calls).files && Run(calls).files[fd].privateData != 0
    ensures Settled(Run(calls).store) && Settled(Run(calls + [call]).store)
    ensures IsOnList(Run(calls), fd) && IsOnList(Run(calls + [call]), fd)
    ensures Run(calls + [call]).files == Run(calls).files
    ensures var w, w' := Run(calls), Run(calls + [call]);
      var reader, writer := w.files[fd], w.files[call.fd];
      var reply := ReadReply(w'.store, reader.minor, reader.privateData, length, bufferIsNull);
      && (SoundList(w', reader.minor) <==> reader.minor == writer.minor || SoundList(w, reader.minor))
      && if reader.minor == writer.minor &&
            reader.privateData % 0x1_0000_0000 == writer.privateData % 0x1_0000_0000
         then reply == if length < |call.data| || bufferIsNull then Error(-28) else Message(call.data)
         else SoundList(w, reader.minor) ==>
           reply == ReadReply(w.store, reader.minor, reader.privateData, length, bufferIsNull)
  {
    hide Narrow, Run, Legal;
    var w, w' := Run(calls), Run(calls + [call]);
    RunRemembers(calls, (0, 0));
    RunRemembers(calls + [call], (0, 0));
    LastCall(calls, call);
    ChannelsDifferInLowBits(w.files[fd].privateData, w.files[call.fd].privateData);
    assert Target(w, call.fd).1 in w'.store[w.files[call.fd].minor];
    var bytes := call.data + call.outcome.before[|call.data|..];
    assert bytes[..|call.data|] == call.data;
  }

  lemma LastCall(calls: seq<Call>, call: Call)
    requires Legal(calls + [call])
    ensures Legal(calls) && LegalCall(Run(calls), call) && Run(calls + [call]) == Do(Run(calls), call)
  {
    assert (calls + [call])[..|calls|] == calls;
  }

  /** What one more call makes of the last length and the last message of a channel. */
  lemma CallAdvances(calls: seq<Call>, call: Call, target: (int, int))
    requires Legal(calls) && Legal(calls + [call])
    ensures var hit := Reaches(Run(calls), call) && Target(Run(calls), call.fd) == target;
      && LastLength(calls + [call], target) == (if hit then Some(|call.data|) else LastLength(calls, target))
      && LastMessage(calls + [call], target) ==
           (if hit && call.outcome.Written? then Some(call.data) else LastMessage(calls, target))
  {
    assert (calls + [call])[..|calls|] == calls;
  }

  /** The refusals of a write, in order: its length, no channel, no buffer, no list. */
  lemma WriteIsRefused(store: Store, m: int, privateData: nat, length: nat, bufferIsNull: bool)
    ensures var refusal := WriteCheck(store, m, privateData, length, bufferIsNull);
      && (refusal == -90 <==> length == 0 || length > 128)
      && (refusal == -22 <==> 0 < length <= 128 && (privateData == 0 || (!bufferIsNull && m !in store)))
      && (refusal == -28 <==> 0 < length <= 128 && privateData != 0 && bufferIsNull)
      && (refusal == 0 <==> 0 < length <= 128 && privateData != 0 && !bufferIsNull && m in store)
  {
  }
}
