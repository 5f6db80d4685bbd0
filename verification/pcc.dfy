/**
  The two ends of the printable-character service, with connections that split the byte
  stream as they like.
*/
module Pcc {
  import opened PccModel

  const EXIT_FAILURE := 1

  /** The receiving end: the bytes that arrive until the peer closes, and the reply that went back. */
  class Connection {
    const incoming: seq<Byte>
    var position: nat
    var reply: seq<Byte>
    /** Whether a call on the connection has failed. */
    ghost var failed: bool

    constructor (incoming: seq<Byte>)
      ensures this.incoming == incoming && position == 0 && reply == [] && !failed
    {
      this.incoming := incoming;
      position := 0;
      reply := [];
      failed := false;
    }

    predicate Open()
      reads this
    {
      position <= |incoming|
    }

    /** `recv` of a header: it comes whole, or the call fails, or the peer has closed before. */
    method RecvHeader() returns (n: int, header: seq<Byte>)
      requires Open()
      modifies this`position, this`failed
      ensures Open() && n <= 4
      ensures n > 0 ==>
        && old(position) + 4 == position && header == incoming[old(position)..position] && |header| == 4
      ensures n <= 0 ==> position == old(position)
      ensures failed <==> old(failed) || n < 0
      ensures n == 0 ==> |incoming| - position < 4
    {
      header := [];
      var fails: bool := *;
      if fails {
        failed := true;
        return -1, header;
      }
      if |incoming| - position < 4 {
        return 0, header;
      }
      header := incoming[position..position + 4];
      position := position + 4;
      n := 4;
    }

    /** `recv`: some of the next bytes, at least one unless there is an error or the peer has closed. */
    method Recv(buffer: array<Byte>, max: nat) returns (n: int)
      requires Open() && 0 < max <= buffer.Length
      modifies this`position, this`failed, buffer
      ensures Open() && n <= max
      ensures failed <==> old(failed) || n < 0
      ensures n > 0 ==> position == old(position) + n && buffer[..n] == incoming[old(position)..position]
      ensures n <= 0 ==> position == old(position)
      ensures n == 0 ==> position == |incoming|
    {
      n := *;
      if n < 0 {
        failed := true;
        return;
      }
      if position == |incoming| {
        return 0;
      }
      if n == 0 || n > max || n > |incoming| - position {
        n := if max < |incoming| - position then max else |incoming| - position;
      }
      forall i | 0 <= i < n {
        buffer[i] := incoming[position + i];
      }
      position := position + n;
    }

    /** `send` of a reply: it goes whole, or not at all. */
    method Send(bytes: seq<Byte>) returns (ok: bool)
      modifies this`reply, this`failed
      ensures reply == if ok then bytes else old(reply)
      ensures failed <==> old(failed) || !ok
    {
      ok := *;
      if ok {
        reply := bytes;
      } else {
        failed := true;
      }
    }
  }

  class Server {
    const pccTotal: array<Uint32>
    /** The bodies of the sessions that succeeded. */
    ghost var served: seq<seq<Byte>>

    ghost predicate Valid()
      reads this, pccTotal
    {
      TotalsOf(pccTotal[..], served)
    }

    constructor ()
      ensures Valid() && served == [] && fresh(pccTotal)
    {
      pccTotal := new Uint32[NUM_PRINTABLE_CHARS](_ => 0);
      served := [];
    }

    /** `count_printable_characters` */
    method CountPrintableCharacters(client: Connection) returns (ok: bool)
      requires Valid() && client.position == 0 && !client.failed
      modifies this`served, pccTotal, client
      ensures Valid()
      ensures ok <==> !client.failed && HasBody(client.incoming)
      ensures !ok ==> served == old(served) && pccTotal[..] == old(pccTotal[..]) && client.reply == old(client.reply)
      ensures ok ==>
        served == old(served) + [BodyOf(client.incoming)] && client.reply == ToNetwork(Count(BodyOf(client.incoming)))
      ensures pccTotal.Length == 95
      ensures |client.incoming| < 4 ==> !ok
      ensures |client.incoming| >= 4 ==>
        var h: seq<int> := client.incoming;
        var size := h[0] * 0x100_0000 + h[1] * 0x1_0000 + h[2] * 0x100 + h[3];
        && (ok <==> !client.failed && |client.incoming| >= 4 + size)
        && (ok ==>
              var body, r: seq<int> := client.incoming[4..4 + size], client.reply;
              && served == old(served) + [body]
              && |r| == 4
              && r[0] * 0x100_0000 + r[1] * 0x1_0000 + r[2] * 0x100 + r[3] ==
                   |set i | 0 <= i < |body| && 32 <= body[i] <= 126|
              && forall c {:trigger pccTotal[c - 32]} :: 32 <= c <= 126 ==>
                   pccTotal[c - 32] ==
                   (old(pccTotal[c - 32]) + |set i | 0 <= i < |body| && body[i] == c|) % 0x1_0000_0000)
    {
      hide Count, Occurrences, OccurrencesInAll, ToNetwork, FromNetwork, Tallied;
      if |client.incoming| >= 4 { HeaderInNumbers(client.incoming); }
      var received, netFileSize := client.RecvHeader();
      if received <= 0 {
        return false;
      }
      assert netFileSize == client.incoming[..4];
      var fileSize: Uint32 := FromNetwork(netFileSize);
      ghost var size := fileSize;
      var printableCount: Uint32 := 0;
      var buffer := new Byte[BUFFER_SIZE](_ => 0);
      var printableCharsLocal := new Uint32[NUM_PRINTABLE_CHARS](_ => 0);
      ghost var body: seq<Byte> := [];
      assert client.incoming[4..client.position] == body;
      NothingTallied(printableCharsLocal[..]);
      while fileSize > 0
        invariant client.Open() && 4 <= client.position && client.position - 4 + fileSize == size
        invariant body == client.incoming[4..client.position]
        invariant Tallied(printableCharsLocal[..], printableCount, body)
        invariant client.reply == old(client.reply) && pccTotal[..] == old(pccTotal[..]) && served == old(served)
        invariant !client.failed
      {
        var toRead := if fileSize < BUFFER_SIZE then fileSize else BUFFER_SIZE;
        ghost var before := client.position;
        var bytesRead := client.Recv(buffer, toRead);
        if bytesRead <= 0 {
          return false;
        }
        printableCount := Tally(buffer, bytesRead, printableCharsLocal, printableCount, body);
        SliceContinues(client.incoming, 4, before, client.position);
        body := client.incoming[4..client.position];
        fileSize := fileSize - bytesRead;
      }
      TalliedIsExact(printableCharsLocal[..], printableCount, body);
      var sent := client.Send(ToNetwork(printableCount));
      if !sent {
        return false;
      }
      Commit(printableCharsLocal, body);
      ReplyInNumbers(body);
      return true;
    }

    /** The inner loop: the bytes of one chunk, added to the counts so far. */
    method Tally(buffer: array<Byte>, bytesRead: nat, local: array<Uint32>, countSoFar: Uint32, ghost body: seq<Byte>)
      returns (count: Uint32)
      requires bytesRead <= buffer.Length && local.Length == NUM_PRINTABLE_CHARS
      requires Tallied(local[..], countSoFar, body) && |body| + bytesRead < TWO32
      modifies local
      ensures Tallied(local[..], count, body + buffer[..bytesRead])
    {
      count := countSoFar;
      assert body + buffer[..0] == body;
      for i := 0 to bytesRead
        invariant Tallied(local[..], count, body + buffer[..i])
      {
        ghost var soFar := body + buffer[..i];
        CountSnoc(soFar, buffer[i]);
        assert body + buffer[..i + 1] == soFar + [buffer[i]];
        if buffer[i] >= PRINTABLE_CHAR_MIN && buffer[i] <= PRINTABLE_CHAR_MAX {
          var j := buffer[i] - PRINTABLE_CHAR_MIN;
          local[j] := (local[j] + 1) % TWO32;
          count := (count + 1) % TWO32;
        }
      }
    }

    /** The last loop: the counts of a successful session, added to the totals. */
    method Commit(local: array<Uint32>, ghost body: seq<Byte>)
      requires Valid() && local.Length == NUM_PRINTABLE_CHARS && local != pccTotal
      requires forall i :: 0 <= i < NUM_PRINTABLE_CHARS ==> local[i] == Occurrences(body, i + PRINTABLE_CHAR_MIN)
      modifies this`served, pccTotal
      ensures Valid() && served == old(served) + [body]
      ensures forall c {:trigger pccTotal[c - 32]} :: 32 <= c <= 126 ==>
        pccTotal[c - 32] == (old(pccTotal[c - 32]) + |set i | 0 <= i < |body| && body[i] == c|) % 0x1_0000_0000
    {
      for i := 0 to NUM_PRINTABLE_CHARS
        invariant pccTotal.Length == NUM_PRINTABLE_CHARS && served == old(served)
        invariant forall j :: 0 <= j < i ==> pccTotal[j] == (old(pccTotal[j]) + local[j]) % TWO32
        invariant forall j :: i <= j < NUM_PRINTABLE_CHARS ==> pccTotal[j] == old(pccTotal[j])
      {
        pccTotal[i] := (pccTotal[i] + local[i]) % TWO32;
      }
      served := served + [body];
      hide OccurrencesInAll, Occurrences;
      forall i | 0 <= i < NUM_PRINTABLE_CHARS
        ensures pccTotal[i] == OccurrencesInAll(served, i + PRINTABLE_CHAR_MIN) % TWO32
      {
        OccurrencesInAllSnoc(old(served), body, i + PRINTABLE_CHAR_MIN);
        var c := i + PRINTABLE_CHAR_MIN;
        AddedRemainder(OccurrencesInAll(old(served), c), Occurrences(body, c));
      }
      forall c {:trigger pccTotal[c - 32]} | 32 <= c <= 126
        ensures pccTotal[c - 32] == (old(pccTotal[c - 32]) + |set i | 0 <= i < |body| && body[i] == c|) % 0x1_0000_0000
      {
        OccurrencesArePlaces(body, c);
        assert local[c - 32] == Occurrences(body, c - 32 + PRINTABLE_CHAR_MIN);
      }
    }
  }

  lemma SliceContinues<T>(s: seq<T>, a: nat, b: nat, c: nat)
    requires a <= b <= c <= |s|
    ensures s[a..c] == s[a..b] + s[b..c]
  {
  }

  /** A header, and as many bytes as it says. */
  predicate HasBody(incoming: seq<Byte>) {
    |incoming| >= 4 && |incoming| >= 4 + FromNetwork(incoming[..4])
  }

  function BodyOf(incoming: seq<Byte>): seq<Byte>
    requires HasBody(incoming)
  {
    incoming[4..4 + FromNetwork(incoming[..4])]
  }

  lemma NothingTallied(local: seq<Uint32>)
    requires |local| == NUM_PRINTABLE_CHARS && forall i :: 0 <= i < |local| ==> local[i] == 0
    ensures Tallied(local, 0, [])
  {
  }

  lemma TalliedIsExact(local: seq<Uint32>, count: Uint32, body: seq<Byte>)
    requires Tallied(local, count, body)
    ensures count == Count(body) && |local| == NUM_PRINTABLE_CHARS
    ensures forall i :: 0 <= i < NUM_PRINTABLE_CHARS ==> local[i] == Occurrences(body, i + PRINTABLE_CHAR_MIN)
  {
  }

  lemma HeaderInNumbers(incoming: seq<Byte>)
    requires |incoming| >= 4
    ensures var h: seq<int> := incoming;
      var size := h[0] * 0x100_0000 + h[1] * 0x1_0000 + h[2] * 0x100 + h[3];
      && (HasBody(incoming) <==> |incoming| >= 4 + size)
      && (HasBody(incoming) ==> BodyOf(incoming) == incoming[4..4 + size])
  {
  }

  lemma ReplyInNumbers(body: seq<Byte>)
    requires |body| < TWO32
    ensures var r: seq<int> := ToNetwork(Count(body));
      r[0] * 0x100_0000 + r[1] * 0x1_0000 + r[2] * 0x100 + r[3] == |set i | 0 <= i < |body| && 32 <= body[i] <= 126|
  {
    hide Count, ToNetwork;
    CountIsPlaces(body);
    NetworkWeights(Count(body), ToNetwork(Count(body)));
  }

  /** The local counts are exact for the bytes seen so far: none has wrapped round. */
  ghost predicate Tallied(local: seq<Uint32>, count: Uint32, body: seq<Byte>) {
    && |local| == NUM_PRINTABLE_CHARS
    && count == Count(body)
    && forall i :: 0 <= i < NUM_PRINTABLE_CHARS ==> local[i] == Occurrences(body, i + PRINTABLE_CHAR_MIN)
  }

  /** The sending end, and the file that is read. */
  class Client {
    const file: seq<Byte>
    var offset: nat
    var wire: seq<Byte>
    /** Whether a call on the file or the connection has failed. */
    ghost var failed: bool

    constructor (file: seq<Byte>)
      ensures this.file == file && offset == 0 && wire == [] && !failed
    {
      this.file := file;
      offset := 0;
      wire := [];
      failed := false;
    }

    predicate Open()
      reads this
    {
      offset <= |file|
    }

    /** `read`: some of the next bytes, at least one unless there is an error or the file has ended. */
    method Read(buffer: array<Byte>) returns (n: int)
      requires Open() && buffer.Length == BUFFER_SIZE
      modifies this`offset, this`failed, buffer
      ensures Open() && n <= BUFFER_SIZE
      ensures failed <==> old(failed) || n < 0
      ensures n > 0 ==> offset == old(offset) + n && buffer[..n] == file[old(offset)..offset]
      ensures n <= 0 ==> offset == old(offset)
      ensures n == 0 ==> offset == |file|
    {
      n := *;
      if n < 0 {
        failed := true;
        return;
      }
      if offset == |file| {
        return 0;
      }
      if n == 0 || n > BUFFER_SIZE || n > |file| - offset {
        n := if BUFFER_SIZE < |file| - offset then BUFFER_SIZE else |file| - offset;
      }
      forall i | 0 <= i < n {
        buffer[i] := file[offset + i];
      }
      offset := offset + n;
    }

    /** `send`: some of the bytes from the given place, at least one, or an error. */
    method Send(bytes: seq<Byte>) returns (n: int)
      requires bytes != []
      modifies this`wire, this`failed
      ensures n < 0 || 0 < n <= |bytes|
      ensures failed <==> old(failed) || n < 0
      ensures wire == old(wire) + if n < 0 then [] else bytes[..n]
    {
      n := *;
      if n == 0 || n > |bytes| {
        n := |bytes|;
      }
      if n > 0 {
        wire := wire + bytes[..n];
      } else {
        failed := true;
      }
    }

    /** `send` of the header: it goes whole, or not at all. */
    method SendHeader(header: seq<Byte>) returns (ok: bool)
      modifies this`wire, this`failed
      ensures wire == old(wire) + if ok then header else []
      ensures failed <==> old(failed) || !ok
    {
      ok := *;
      if ok {
        wire := wire + header;
      } else {
        failed := true;
      }
    }

    /** The sending half of the client's `main`. */
    method SendFile() returns (ok: bool)
      requires offset == 0 && wire == [] && !failed
      modifies this
      ensures ok <==> !failed
      ensures ok ==> wire == Sent(file)
      ensures ok ==>
        var w: seq<int> := wire;
        && |w| == 4 + |file| && wire[4..] == file
        && w[0] * 0x100_0000 + w[1] * 0x1_0000 + w[2] * 0x100 + w[3] == |file| % 0x1_0000_0000
      ensures ok && |file| < 256 ==> wire == [0, 0, 0, |file|] + file
      ensures wire <= Sent(file)
    {
      SentInNumbers(file);
      ok := SendHeader(ToNetwork(Low32(|file|)));
      if !ok {
        return;
      }
      var buffer := new Byte[BUFFER_SIZE](_ => 0);
      var bytesRead := Read(buffer);
      ghost var header := ToNetwork(Low32(|file|));
      while bytesRead > 0
        invariant Open() && bytesRead <= BUFFER_SIZE
        invariant 0 <= bytesRead ==> bytesRead <= offset
        invariant bytesRead > 0 ==> buffer[..bytesRead] == file[offset - bytesRead..offset]
        invariant wire == header + file[..if bytesRead > 0 then offset - bytesRead else offset]
        invariant bytesRead == 0 ==> offset == |file|
        invariant failed <==> bytesRead < 0
        decreases |file| - offset, bytesRead
      {
        var sent := SendChunk(buffer, bytesRead, header);
        if !sent {
          return false;
        }
        bytesRead := Read(buffer);
      }
      ok := bytesRead >= 0;
    }

    /** The inner loop: one chunk, in as many sends as it takes. */
    method SendChunk(buffer: array<Byte>, bytesRead: nat, ghost header: seq<Byte>) returns (ok: bool)
      requires Open() && 0 < bytesRead <= buffer.Length && bytesRead <= offset
      requires buffer[..bytesRead] == file[offset - bytesRead..offset]
      requires wire == header + file[..offset - bytesRead]
      requires !failed
      modifies this`wire, this`failed
      ensures ok <==> !failed
      ensures ok ==> wire == header + file[..offset]
      ensures wire <= header + file
    {
      var bytesSent := 0;
      while bytesSent < bytesRead
        invariant 0 <= bytesSent <= bytesRead
        invariant wire == header + file[..offset - bytesRead + bytesSent] && !failed
      {
        var result := Send(buffer[bytesSent..bytesRead]);
        if result < 0 {
          return false;
        }
        assert buffer[bytesSent..bytesRead][..result] == buffer[..bytesRead][bytesSent..bytesSent + result];
        bytesSent := bytesSent + result;
      }
      return true;
    }

    /** `recv` of the reply: it comes whole, or the call fails, or the server has closed without a reply. */
    method RecvReply(connection: Connection) returns (n: int, bytes: seq<Byte>)
      requires connection.reply == [] || |connection.reply| == 4
      modifies this`failed
      ensures n < 0 || n == |connection.reply|
      ensures n > 0 ==> bytes == connection.reply
      ensures failed <==> old(failed) || n < 0
    {
      bytes := connection.reply;
      var fails: bool := *;
      if fails {
        failed := true;
        return -1, bytes;
      }
      n := |bytes|;
    }

    /**
      The end of the client's `main`: only an error is told from a reply. `uninitialised` is what the
      variable for the reply held before the call.
    */
    method ReceiveCount(connection: Connection, uninitialised: seq<Byte>) returns (ok: bool, printableCount: Uint32)
      requires (connection.reply == [] || |connection.reply| == 4) && |uninitialised| == 4 && !failed
      modifies this`failed
      ensures ok <==> !failed
      ensures ok ==>
        var r: seq<int> := if connection.reply == [] then uninitialised else connection.reply;
        printableCount == r[0] * 0x100_0000 + r[1] * 0x1_0000 + r[2] * 0x100 + r[3]
      ensures ok ==> printableCount == FromNetwork(Converted(connection.reply, uninitialised))
    {
      var netPrintableCount := uninitialised;
      var received, bytes := RecvReply(connection);
      if received < 0 {
        return false, 0;
      }
      if received > 0 {
        netPrintableCount := bytes;
      }
      return true, FromNetwork(netPrintableCount);
    }
  }

  /**
    A whole session. Whatever the splits on both sides, and wherever an end stops, the server counts
    nothing or the part of the file that a 32-bit length can announce, and it replies exactly if it
    counts. A client that exits normally prints the count for that part if the server replied; if
    the server closed without a reply, it prints what its variable held before. The count for the
    part is the count for the file exactly if nothing printable comes after it, and always for files
    below 2^32 bytes.
  */
  method Session(server: Server, file: seq<Byte>, uninitialised: seq<Byte>)
    returns (status: int, printed: Uint32, ghost replied: bool, ghost clientFailed: bool, ghost serverFailed: bool)
    requires server.Valid() && |uninitialised| == 4
    modifies server`served, server.pccTotal
    ensures server.Valid()
    ensures server.served == old(server.served) + if replied then [Announced(file)] else []
    ensures status == if clientFailed then 1 else 0
    ensures replied ==> !serverFailed
    ensures status == 0 ==> (replied <==> !serverFailed)
    ensures status == 0 ==> printed == if replied then Count(Announced(file)) else FromNetwork(uninitialised)
    ensures status == 0 && replied ==>
      && (printed == Count(file) <==> Count(file[Low32(|file|)..]) == 0)
      && (|file| < 0x1_0000_0000 ==>
            printed == Count(file) == |set i | 0 <= i < |file| && 32 <= file[i] <= 126|)
  {
    hide Low32, Count, TotalsOf;
    AnnouncedCount(file);
    CountIsPlaces(file);
    var client := new Client(file);
    var ok := client.SendFile();
    var connection := new Connection(client.wire);
    var counted := server.CountPrintableCharacters(connection);
    replied, serverFailed := counted, connection.failed;
    if HasBody(client.wire) {
      AnnouncedArrives(file, client.wire);
    }
    if ok {
      AllArrives(file);
      ok, printed := client.ReceiveCount(connection, uninitialised);
    }
    clientFailed := client.failed;
    if !ok {
      return EXIT_FAILURE, 0, replied, clientFailed, serverFailed;
    }
    NetworkRoundTrip(Count(Announced(file)));
    status := 0;
  }

  lemma SentInNumbers(file: seq<Byte>)
    ensures var w: seq<int> := Sent(file);
      && |w| == 4 + |file| && Sent(file)[4..] == file
      && w[0] * 0x100_0000 + w[1] * 0x1_0000 + w[2] * 0x100 + w[3] == |file| % 0x1_0000_0000
    ensures |file| < 256 ==> Sent(file) == [0, 0, 0, |file|] + file
  {
    var n: Uint32 := Low32(|file|);
    NetworkWeights(n, ToNetwork(n));
    if |file| < 256 {
      NetworkWeights(n, [0, 0, 0, |file|]);
    }
  }

  /** A whole body that arrives is the announced part of the file. */
  lemma AnnouncedArrives(file: seq<Byte>, wire: seq<Byte>)
    requires wire <= Sent(file) && HasBody(wire)
    ensures BodyOf(wire) == Announced(file)
  {
    hide Low32;
    NetworkRoundTrip(Low32(|file|));
    assert wire[..4] == Sent(file)[..4] == ToNetwork(Low32(|file|));
    assert wire == Sent(file)[..|wire|];
    assert Sent(file)[4..4 + Low32(|file|)] == Announced(file);
  }

  lemma AllArrives(file: seq<Byte>)
    ensures HasBody(Sent(file))
  {
    hide Low32;
    NetworkRoundTrip(Low32(|file|));
    assert Sent(file)[..4] == ToNetwork(Low32(|file|));
  }
}
