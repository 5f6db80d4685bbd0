/**
  The printable-character service: counting, the byte order of its messages, and the
  connection between client and server.
*/
module PccModel {
  const PRINTABLE_CHAR_MIN: int := 32
  const PRINTABLE_CHAR_MAX: int := 126
  const NUM_PRINTABLE_CHARS: nat := 95
  const BUFFER_SIZE: nat := 1024
  const TWO32: nat := 0x1_0000_0000

  type Byte = b: int | 0 <= b < 256
  type Uint32 = n: int | 0 <= n < TWO32

  predicate Printable(b: Byte) {
    PRINTABLE_CHAR_MIN <= b <= PRINTABLE_CHAR_MAX
  }

  /** How many bytes are printable. */
  function Count(s: seq<Byte>): (n: nat)
    ensures n <= |s|
  {
    if s == [] then 0 else Count(s[..|s| - 1]) + if Printable(s[|s| - 1]) then 1 else 0
  }

  /** How many bytes are equal to c. */
  function Occurrences(s: seq<Byte>, c: int): (n: nat)
    ensures n <= |s|
  {
    if s == [] then 0 else Occurrences(s[..|s| - 1], c) + if s[|s| - 1] == c then 1 else 0
  }

  lemma CountSnoc(s: seq<Byte>, b: Byte)
    ensures Count(s + [b]) == Count(s) + if Printable(b) then 1 else 0
    ensures forall c :: Occurrences(s + [b], c) == Occurrences(s, c) + if b == c then 1 else 0
  {
    assert (s + [b])[..|s|] == s;
  }

  lemma {:induction false} CountSplits(s: seq<Byte>, t: seq<Byte>)
    ensures Count(s + t) == Count(s) + Count(t)
  {
    if t == [] {
      assert s + t == s;
    } else {
      var n := |t| - 1;
      CountSplits(s, t[..n]);
      assert (s + t)[..|s + t| - 1] == s + t[..n];
    }
  }

  /** The sum of a histogram. */
  function Sum(h: seq<nat>): nat {
    if h == [] then 0 else Sum(h[..|h| - 1]) + h[|h| - 1]
  }

  /** The occurrences of the first k printable characters. */
  function Histogram(s: seq<Byte>, k: nat): (h: seq<nat>)
    ensures |h| == k
    ensures forall i :: 0 <= i < k ==> h[i] == Occurrences(s, i + PRINTABLE_CHAR_MIN)
  {
    if k == 0 then [] else Histogram(s, k - 1) + [Occurrences(s, k - 1 + PRINTABLE_CHAR_MIN)]
  }

  /** How many bytes are among the first k printable characters. */
  function CountBelow(s: seq<Byte>, k: nat): nat {
    if s == [] then 0
    else CountBelow(s[..|s| - 1], k) + if PRINTABLE_CHAR_MIN <= s[|s| - 1] < PRINTABLE_CHAR_MIN + k then 1 else 0
  }

  lemma {:induction false} CountBelowNext(s: seq<Byte>, k: nat)
    ensures CountBelow(s, k + 1) == CountBelow(s, k) + Occurrences(s, k + PRINTABLE_CHAR_MIN)
  {
    if s != [] { CountBelowNext(s[..|s| - 1], k); }
  }

  lemma {:induction false} CountBelowNone(s: seq<Byte>)
    ensures CountBelow(s, 0) == 0
  {
    if s != [] { CountBelowNone(s[..|s| - 1]); }
  }

  lemma {:induction false} HistogramSum(s: seq<Byte>, k: nat)
    ensures Sum(Histogram(s, k)) == CountBelow(s, k)
  {
    if k == 0 {
      CountBelowNone(s);
    } else {
      HistogramSum(s, k - 1);
      CountBelowNext(s, k - 1);
      assert Histogram(s, k)[..k - 1] == Histogram(s, k - 1);
    }
  }

  lemma {:induction false} CountIsBelow(s: seq<Byte>)
    ensures CountBelow(s, NUM_PRINTABLE_CHARS) == Count(s)
  {
    if s != [] { CountIsBelow(s[..|s| - 1]); }
  }

  /** The characters of a histogram add up to the number of printable bytes. */
  lemma HistogramAddsUp(s: seq<Byte>)
    ensures Sum(Histogram(s, NUM_PRINTABLE_CHARS)) == Count(s)
  {
    HistogramSum(s, NUM_PRINTABLE_CHARS);
    CountIsBelow(s);
  }

  // ----- The counts in numbers

  /** How many places of s hold a byte from 32 to 126. */
  lemma {:induction false} CountIsPlaces(s: seq<Byte>)
    ensures Count(s) == |set i | 0 <= i < |s| && 32 <= s[i] <= 126|
  {
    var places := set i | 0 <= i < |s| && 32 <= s[i] <= 126;
    if s == [] {
      assert places == {};
    } else {
      var n := |s| - 1;
      CountIsPlaces(s[..n]);
      var before := set i | 0 <= i < |s[..n]| && 32 <= s[..n][i] <= 126;
      assert places == before + if 32 <= s[n] <= 126 then {n} else {};
    }
  }

  /** How many places of s hold the byte c. */
  lemma {:induction false} OccurrencesArePlaces(s: seq<Byte>, c: int)
    ensures Occurrences(s, c) == |set i | 0 <= i < |s| && s[i] == c|
  {
    var places := set i | 0 <= i < |s| && s[i] == c;
    if s == [] {
      assert places == {};
    } else {
      var n := |s| - 1;
      OccurrencesArePlaces(s[..n], c);
      var before := set i | 0 <= i < |s[..n]| && s[..n][i] == c;
      assert places == before + if s[n] == c then {n} else {};
    }
  }

  // ----- Many sessions

  /** The occurrences of c in all bodies together. */
  function OccurrencesInAll(bodies: seq<seq<Byte>>, c: int): nat {
    if bodies == [] then 0
    else OccurrencesInAll(bodies[..|bodies| - 1], c) + Occurrences(bodies[|bodies| - 1], c)
  }

  /** The replies to all sessions, added up. */
  function Replies(bodies: seq<seq<Byte>>): nat {
    if bodies == [] then 0 else Replies(bodies[..|bodies| - 1]) + Count(bodies[|bodies| - 1])
  }

  /** What the totals are after the given sessions succeeded: 32-bit counters that wrap round. */
  ghost predicate TotalsOf(totals: seq<Uint32>, bodies: seq<seq<Byte>>) {
    && |totals| == NUM_PRINTABLE_CHARS
    && forall i :: 0 <= i < NUM_PRINTABLE_CHARS ==>
         totals[i] == OccurrencesInAll(bodies, i + PRINTABLE_CHAR_MIN) % TWO32
  }

  lemma OccurrencesInAllSnoc(bodies: seq<seq<Byte>>, body: seq<Byte>, c: int)
    ensures OccurrencesInAll(bodies + [body], c) == OccurrencesInAll(bodies, c) + Occurrences(body, c)
  {
    assert (bodies + [body])[..|bodies|] == bodies;
  }

  lemma Member<T>(s: set<T>) returns (x: T)
    requires s != {}
    ensures x in s
  {
    x :| x in s;
  }

  lemma {:induction false} PairsAreAsMany(n: int, s: set<int>)
    ensures |set i | i in s :: (n, i)| == |s|
  {
    if s != {} {
      var x := Member(s);
      PairsAreAsMany(n, s - {x});
      assert (set i | i in s :: (n, i)) == (set i | i in s - {x} :: (n, i)) + {(n, x)};
    }
  }

  /** The places of c in all bodies. */
  ghost function PlacesInAll(bodies: seq<seq<Byte>>, c: int): set<(int, int)> {
    set k, i | 0 <= k < |bodies| && 0 <= i < |bodies[k]| && bodies[k][i] == c :: (k, i)
  }

  lemma PlacesInLast(bodies: seq<seq<Byte>>, c: int)
    requires bodies != []
    ensures var n := |bodies| - 1;
      |PlacesInAll(bodies, c)| == |PlacesInAll(bodies[..n], c)| + |set i | 0 <= i < |bodies[n]| && bodies[n][i] == c|
  {
    var n := |bodies| - 1;
    var here := set i | 0 <= i < |bodies[n]| && bodies[n][i] == c;
    var last := set i | i in here :: (n, i);
    PairsAreAsMany(n, here);
    assert PlacesInAll(bodies, c) == PlacesInAll(bodies[..n], c) + last;
    assert PlacesInAll(bodies[..n], c) !! last;
  }

  lemma {:induction false} OccurrencesInAllArePlaces(bodies: seq<seq<Byte>>, c: int)
    ensures OccurrencesInAll(bodies, c) == |PlacesInAll(bodies, c)|
  {
    if bodies == [] {
      assert PlacesInAll(bodies, c) == {};
    } else {
      var n := |bodies| - 1;
      OccurrencesInAllArePlaces(bodies[..n], c);
      OccurrencesArePlaces(bodies[n], c);
      PlacesInLast(bodies, c);
    }
  }

  /** There is a counter for each byte from 32 to 126, and it is the number of its places modulo 2^32. */
  lemma TotalsInNumbers(totals: seq<Uint32>, bodies: seq<seq<Byte>>)
    requires TotalsOf(totals, bodies)
    ensures |totals| == 95
    ensures forall c {:trigger totals[c - 32]} :: 32 <= c <= 126 ==>
      totals[c - 32] ==
      |set k, i | 0 <= k < |bodies| && 0 <= i < |bodies[k]| && bodies[k][i] == c :: (k, i)| % 0x1_0000_0000
  {
    hide OccurrencesInAll;
    forall c | 32 <= c <= 126
      ensures totals[c - 32] == OccurrencesInAll(bodies, c) % 0x1_0000_0000
      ensures OccurrencesInAll(bodies, c) ==
        |set k, i | 0 <= k < |bodies| && 0 <= i < |bodies[k]| && bodies[k][i] == c :: (k, i)|
    {
      OccurrencesInAllArePlaces(bodies, c);
    }
  }

  function AllHistogram(bodies: seq<seq<Byte>>, k: nat): (h: seq<nat>)
    ensures |h| == k
    ensures forall i :: 0 <= i < k ==> h[i] == OccurrencesInAll(bodies, i + PRINTABLE_CHAR_MIN)
  {
    if k == 0 then [] else AllHistogram(bodies, k - 1) + [OccurrencesInAll(bodies, k - 1 + PRINTABLE_CHAR_MIN)]
  }

  lemma {:induction false} AllHistogramSum(bodies: seq<seq<Byte>>, k: nat)
    requires bodies != []
    ensures Sum(AllHistogram(bodies, k)) ==
      Sum(AllHistogram(bodies[..|bodies| - 1], k)) + Sum(Histogram(bodies[|bodies| - 1], k))
  {
    if k > 0 {
      AllHistogramSum(bodies, k - 1);
      assert AllHistogram(bodies, k)[..k - 1] == AllHistogram(bodies, k - 1);
      assert AllHistogram(bodies[..|bodies| - 1], k)[..k - 1] == AllHistogram(bodies[..|bodies| - 1], k - 1);
      assert Histogram(bodies[|bodies| - 1], k)[..k - 1] == Histogram(bodies[|bodies| - 1], k - 1);
    }
  }

  lemma {:induction false} ZeroSum(h: seq<nat>)
    requires forall i :: 0 <= i < |h| ==> h[i] == 0
    ensures Sum(h) == 0
  {
    if h != [] { ZeroSum(h[..|h| - 1]); }
  }

  lemma {:induction false} AllHistogramsAddUp(bodies: seq<seq<Byte>>)
    ensures Sum(AllHistogram(bodies, NUM_PRINTABLE_CHARS)) == Replies(bodies)
  {
    if bodies == [] {
      ZeroSum(AllHistogram(bodies, NUM_PRINTABLE_CHARS));
    } else {
      AllHistogramsAddUp(bodies[..|bodies| - 1]);
      AllHistogramSum(bodies, NUM_PRINTABLE_CHARS);
      HistogramAddsUp(bodies[|bodies| - 1]);
    }
  }

  lemma SameRemainder(x: nat, y: nat, k: int)
    requires x == y + TWO32 * k
    ensures x % TWO32 == y % TWO32
  {
  }

  lemma AddedRemainder(x: nat, y: nat)
    ensures (x % TWO32 + y) % TWO32 == (x + y) % TWO32
  {
    SameRemainder(x + y, x % TWO32 + y, x / TWO32);
  }

  lemma {:induction false} SumModulo(h: seq<nat>, t: seq<nat>)
    requires |h| == |t| && forall i :: 0 <= i < |h| ==> t[i] == h[i] % TWO32
    ensures Sum(t) % TWO32 == Sum(h) % TWO32
  {
    if h != [] {
      var n := |h| - 1;
      SumModulo(h[..n], t[..n]);
      var a, b := Sum(h[..n]), Sum(t[..n]);
      SameRemainder(a + h[n], b + t[n], a / TWO32 - b / TWO32 + h[n] / TWO32);
    }
  }

  /** Nothing is lost or counted twice: the totals and the replies add up to the same, modulo 2^32. */
  lemma TotalsMatchReplies(totals: seq<Uint32>, bodies: seq<seq<Byte>>)
    requires TotalsOf(totals, bodies)
    ensures Sum(totals) % TWO32 == Replies(bodies) % TWO32
  {
    AllHistogramsAddUp(bodies);
    SumModulo(AllHistogram(bodies, NUM_PRINTABLE_CHARS), totals);
  }

  // ----- Byte order

  /** `htonl`: the four bytes of a word, most significant first. */
  function ToNetwork(n: Uint32): (bytes: seq<Byte>)
    ensures |bytes| == 4
  {
    [n / 0x100_0000, n / 0x1_0000 % 0x100, n / 0x100 % 0x100, n % 0x100]
  }

  /** `ntohl` */
  function FromNetwork(bytes: seq<Byte>): Uint32
    requires |bytes| == 4
  {
    var b3: int, b2: int, b1: int, b0: int := bytes[0], bytes[1], bytes[2], bytes[3];
    b3 * 0x100_0000 + b2 * 0x1_0000 + b1 * 0x100 + b0
  }

  lemma NetworkRoundTrip(n: Uint32)
    ensures FromNetwork(ToNetwork(n)) == n
  {
    assert n / 0x1_0000 == n / 0x100 / 0x100;
    assert n / 0x100_0000 == n / 0x100 / 0x100 / 0x100;
  }

  lemma LastDigit(q: nat, b: Byte)
    ensures (q * 0x100 + b) / 0x100 == q && (q * 0x100 + b) % 0x100 == b
  {
  }

  /** The first byte weighs most: the bytes of a word are the only four that weigh as much. */
  lemma NetworkWeights(n: Uint32, bytes: seq<Byte>)
    requires |bytes| == 4
    ensures var b: seq<int> := bytes;
      ToNetwork(n) == bytes <==> n == b[0] * 0x100_0000 + b[1] * 0x1_0000 + b[2] * 0x100 + b[3]
  {
    NetworkRoundTrip(n);
    var b: seq<int> := bytes;
    var q2 := b[0] * 0x100 + b[1];
    var q1 := q2 * 0x100 + b[2];
    LastDigit(b[0], bytes[1]);
    LastDigit(q2, bytes[2]);
    LastDigit(q1, bytes[3]);
    if n == q1 * 0x100 + b[3] {
      assert n / 0x1_0000 == n / 0x100 / 0x100;
      assert n / 0x100_0000 == n / 0x100 / 0x100 / 0x100;
      assert ToNetwork(n)[0] == bytes[0] && ToNetwork(n)[1] == bytes[1];
      assert ToNetwork(n)[2] == bytes[2] && ToNetwork(n)[3] == bytes[3];
    }
  }

  /** Where two byte sequences differ first, the one with the smaller byte is before the other. */
  predicate Before(x: seq<Byte>, y: seq<Byte>) {
    x != [] && y != [] && (x[0] < y[0] || (x[0] == y[0] && Before(x[1..], y[1..])))
  }

  /** Network order is the order of the words, compared from the first byte on. */
  lemma NetworkOrder(a: Uint32, b: Uint32)
    ensures a < b <==> Before(ToNetwork(a), ToNetwork(b))
  {
    NetworkWeights(a, ToNetwork(a));
    NetworkWeights(b, ToNetwork(b));
    FourBytesBefore(ToNetwork(a), ToNetwork(b));
    hide ToNetwork, Before;
  }

  lemma FourBytesBefore(x: seq<Byte>, y: seq<Byte>)
    requires |x| == |y| == 4
    ensures Before(x, y) <==>
      || x[0] < y[0]
      || (x[0] == y[0] && x[1] < y[1])
      || (x[0] == y[0] && x[1] == y[1] && x[2] < y[2])
      || (x[0] == y[0] && x[1] == y[1] && x[2] == y[2] && x[3] < y[3])
  {
    assert x[1..][1..] == x[2..] && x[2..][1..] == x[3..] && x[3..][1..] == [];
    assert y[1..][1..] == y[2..] && y[2..][1..] == y[3..] && y[3..][1..] == [];
    assert Before(x, y) <==> x[0] < y[0] || (x[0] == y[0] && Before(x[1..], y[1..]));
    assert Before(x[1..], y[1..]) <==> x[1] < y[1] || (x[1] == y[1] && Before(x[2..], y[2..]));
    assert Before(x[2..], y[2..]) <==> x[2] < y[2] || (x[2] == y[2] && Before(x[3..], y[3..]));
    assert Before(x[3..], y[3..]) <==> x[3] < y[3];
  }

  // ----- What a client puts on the wire

  /** `(uint32_t) n` */
  function Low32(n: nat): (r: Uint32)
    ensures r <= n && (n < TWO32 ==> r == n)
  {
    n % TWO32
  }

  /** The length of a file as 32 bits, and then the file. */
  function Sent(file: seq<Byte>): seq<Byte> {
    ToNetwork(Low32(|file|)) + file
  }

  /** The part of a file that its 32-bit length speaks for. */
  function Announced(file: seq<Byte>): seq<Byte> {
    file[..Low32(|file|)]
  }

  lemma CountOfPrefix(s: seq<Byte>, n: nat)
    requires n <= |s|
    ensures Count(s[..n]) == Count(s) <==> Count(s[n..]) == 0
  {
    CountSplits(s[..n], s[n..]);
    assert s == s[..n] + s[n..];
  }

  /** The count for the announced part is the count for the file exactly if nothing printable comes after it. */
  lemma AnnouncedCount(file: seq<Byte>)
    ensures Count(Announced(file)) == Count(file) <==> Count(file[Low32(|file|)..]) == 0
    ensures |file| < TWO32 ==> Announced(file) == file
  {
    hide Count, Low32;
    CountOfPrefix(file, Low32(|file|));
  }

  /** A file of 2^32 bytes is announced as empty, so that the letter at its end is not counted. */
  lemma LongFileIsCutOff(file: seq<Byte>)
    requires |file| == 0x1_0000_0000 && file[|file| - 1] == 65
    ensures Count(Announced(file)) == 0 && Count(file) >= 1
  {
    assert Low32(|file|) == 0;
    assert file[..0] == [];
  }

  // ----- What the client prints

  /** The four bytes that the client converts: the reply, or what its variable held if none came. */
  function Converted(reply: seq<Byte>, uninitialised: seq<Byte>): (bytes: seq<Byte>)
    requires |uninitialised| == 4 && (reply == [] || |reply| == 4)
    ensures |bytes| == 4
  {
    if reply == [] then uninitialised else reply
  }

  /** A client that does not fail prints the count, whatever its variable held before, exactly if the server replied. */
  lemma PrintsCountExactlyIfReplied(body: seq<Byte>, reply: seq<Byte>)
    requires |body| < TWO32 && (reply == [] || reply == ToNetwork(Count(body)))
    ensures (forall u: seq<Byte> :: |u| == 4 ==> FromNetwork(Converted(reply, u)) == Count(body)) <==> reply != []
  {
    hide Count, ToNetwork, FromNetwork;
    NetworkRoundTrip(Count(body));
    var other: Uint32 := if Count(body) == 0 then 1 else 0;
    NetworkRoundTrip(other);
    assert |ToNetwork(other)| == 4;
    assert reply == [] ==> Converted(reply, ToNetwork(other)) == ToNetwork(other);
  }

  /** A file of one letter, and a server that closes before it replies: the client may print 0. */
  lemma UnansweredClientPrintsZero(file: seq<Byte>, uninitialised: seq<Byte>)
    requires file == [65] && uninitialised == [0, 0, 0, 0]
    ensures FromNetwork(Converted([], uninitialised)) == 0 && Count(file) == 1
  {
    assert file[..0] == [];
    assert Count([]) == 0;
  }
}
