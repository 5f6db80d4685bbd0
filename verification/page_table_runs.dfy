/**
  Whole runs of the page-table code: any interleaving of root allocations and updates,
  up to the point where memory runs out.
*/
module PageTableRuns {
  import opened Words
  import opened Entries
  import opened PageTable

  datatype Op =
    | AllocRoot
    | Assign(pt: Word, vpn: Word, ppn: Word)

  datatype Run = Live(frames: seq<Frame>, roots: set<nat>) | Ended | Crashed

  /** The frame that the walk for pt starts from. */
  function RootFrame(pt: Word): nat {
    FrameIndex(RootAddress(pt))
  }

  /** `page_table_update` as a whole. */
  function UpdatePage(m: seq<Frame>, pt: Word, vpn: Word, ppn: Word, limit: nat): Outcome
    requires limit <= NPAGES
  {
    Update(m, RootFrame(pt), vpn, ppn, 4, limit)
  }

  /** `page_table_query` as a whole. */
  function QueryPage(m: seq<Frame>, pt: Word, vpn: Word): Answer {
    Query(m, RootFrame(pt), vpn, 4)
  }

  function Step(run: Run, op: Op, limit: nat): Run
    requires limit <= NPAGES
  {
    match run
    case Ended => Ended
    case Crashed => Crashed
    case Live(m, roots) =>
      match op
      case AllocRoot =>
        if |m| >= limit then Ended else Live(m + [ZeroFrame()], roots + {|m|})
      case Assign(pt, vpn, ppn) =>
        match UpdatePage(m, pt, vpn, ppn, limit)
        case Running(m') => Live(m', roots)
        case Exited => Ended
        case BadPointer => Crashed
  }

  function Exec(ops: seq<Op>, limit: nat): Run
    requires limit <= NPAGES
  {
    if ops == [] then Live([], {})
    else Step(Exec(ops[..|ops| - 1], limit), ops[|ops| - 1], limit)
  }

  /** Updates name page tables that were allocated as roots before. */
  predicate Legal(ops: seq<Op>, limit: nat)
    requires limit <= NPAGES
  {
    ops == [] ||
    (Legal(ops[..|ops| - 1], limit) && LegalNext(Exec(ops[..|ops| - 1], limit), ops[|ops| - 1]))
  }

  predicate LegalNext(run: Run, op: Op) {
    run.Live? && op.Assign? ==> RootFrame(op.pt) in run.roots
  }

  /** What the stored form of a page number reads back as. */
  function ReadBack(ppn: Word): Word {
    if ppn == NO_MAPPING then NO_MAPPING else ppn % 0x10_0000_0000_0000
  }

  /** What the latest update says about a page: the reference that queries are compared with. */
  function LastWrite(ops: seq<Op>, root: nat, vpn: Word): Word {
    if ops == [] then NO_MAPPING
    else
      var op := ops[|ops| - 1];
      if op.Assign? && RootFrame(op.pt) == root && Key(op.vpn) == Key(vpn) then ReadBack(op.ppn)
      else LastWrite(ops[..|ops| - 1], root, vpn)
  }

  /** The tables below the roots that the mappings made so far have needed. */
  function Tables(ops: seq<Op>): set<Place> {
    if ops == [] then {}
    else
      var op := ops[|ops| - 1];
      Tables(ops[..|ops| - 1]) + if op.Assign? then Demanded(RootFrame(op.pt), op.vpn, op.ppn) else {}
  }

  function RootPlaces(roots: set<nat>): set<Place> {
    set r | r in roots :: Place(r, [])
  }

  /** The frames hold exactly what the operations so far ask for. */
  ghost predicate Faithful(ops: seq<Op>, m: seq<Frame>, roots: set<nat>, at: map<Place, nat>) {
    && Forest(m, at)
    && at.Keys == RootPlaces(roots) + Tables(ops)
    && forall r: nat, v: Word :: LeafMatches(ops, m, at, r, v)
  }

  ghost predicate LeafMatches(ops: seq<Op>, m: seq<Frame>, at: map<Place, nat>, r: nat, v: Word) {
    Leaf(m, at, Visited(r, v, 4), GetIndex(v, 0)) == LeafWord(LastWrite(ops, r, v))
  }

  lemma SameLeafIffSameKey(r: nat, u: Word, s: nat, v: Word)
    ensures Visited(r, u, 4) == Visited(s, v, 4) && GetIndex(u, 0) == GetIndex(v, 0)
            <==> r == s && Key(u) == Key(v)
  {
    SamePathIffSameKey(u, v);
    assert Path(u) == Path(u)[..4] + [Path(u)[4]];
    assert Path(v) == Path(v)[..4] + [Path(v)[4]];
  }

  lemma LeafWordOfLowBits(ppn: Word)
    requires ppn != NO_MAPPING
    ensures LeafWord(ppn % 0x10_0000_0000_0000) == Entry(ppn)
  {
  }

  /** A new root has a frame and a place of its own. */
  lemma NewRootStandsAlone(m: seq<Frame>, at: map<Place, nat>)
    requires Forest(m, at) && |m| < NPAGES
    ensures var root := Place(|m|, []);
      var at' := at[root := |m|];
      && root !in at && |at'| == |m| + 1
      && (forall t :: t in at' ==> at'[t] <= |m| && |t.path| <= 4)
      && (forall t :: t in at' && t.path == [] ==> at'[t] == t.root)
      && (forall t, u :: t in at' && u in at' && at'[t] == at'[u] ==> t == u)
  {
    hide Entry, FrameNumber, LinkTo;
    var root := Place(|m|, []);
    assert at[root := |m|].Keys == at.Keys + {root};
  }

  lemma NewRootKeepsParents(m: seq<Frame>, at: map<Place, nat>, t: Place)
    requires Forest(m, at) && t in at[Place(|m|, []) := |m|] && t.path != []
    ensures Parent(t) in at[Place(|m|, []) := |m|]
  {
    hide Entry, FrameNumber, LinkTo;
  }

  lemma NewRootKeepsLink(m: seq<Frame>, at: map<Place, nat>, u: Place, i: nat)
    requires Forest(m, at) && |m| < NPAGES && Place(|m|, []) !in at
    requires (u in at || u == Place(|m|, [])) && |u.path| < 4 && i < 512
    ensures var at' := at[Place(|m|, []) := |m|];
      (m + [ZeroFrame()])[at'[u]][i] == LinkTo(at', Child(u, i))
  {
    hide Entry, FrameNumber;
    assert Parent(Child(u, i)) == u;
    if u in at {
      assert m[at[u]][i] == LinkTo(at, Child(u, i));
    } else {
      assert Child(u, i) !in at;
    }
  }

  lemma NewRootKeepsForest(m: seq<Frame>, at: map<Place, nat>)
    requires Forest(m, at) && |m| < NPAGES
    ensures Place(|m|, []) !in at
    ensures Forest(m + [ZeroFrame()], at[Place(|m|, []) := |m|])
  {
    var root := Place(|m|, []);
    var at' := at[root := |m|];
    NewRootStandsAlone(m, at);
    forall t | t in at' && t.path != []
      ensures Parent(t) in at'
    {
      NewRootKeepsParents(m, at, t);
    }
    forall u, i: nat | u in at' && |u.path| < 4 && i < 512
      ensures (m + [ZeroFrame()])[at'[u]][i] == LinkTo(at', Child(u, i))
    {
      NewRootKeepsLink(m, at, u, i);
    }
    hide Parent, LinkTo, Child;
  }

  lemma AllocStep(ops: seq<Op>, m: seq<Frame>, roots: set<nat>, at: map<Place, nat>)
    requires Faithful(ops, m, roots, at) && |m| < NPAGES
    ensures Faithful(ops + [AllocRoot], m + [ZeroFrame()], roots + {|m|}, at[Place(|m|, []) := |m|])
  {
    NewRootKeepsForest(m, at);
    var ops' := ops + [AllocRoot];
    var at' := at[Place(|m|, []) := |m|];
    AllocTables(ops, roots, |m|);
    assert at'.Keys == at.Keys + {Place(|m|, [])};
    forall r: nat, v: Word
      ensures LeafMatches(ops', m + [ZeroFrame()], at', r, v)
    {
      assert LeafMatches(ops, m, at, r, v);
      AllocLeaf(ops, m, at, r, v);
    }
  }

  lemma AllocTables(ops: seq<Op>, roots: set<nat>, n: nat)
    ensures RootPlaces(roots + {n}) + Tables(ops + [AllocRoot]) == RootPlaces(roots) + Tables(ops) + {Place(n, [])}
  {
    assert (ops + [AllocRoot])[..|ops|] == ops;
    assert RootPlaces(roots + {n}) == RootPlaces(roots) + {Place(n, [])};
  }

  lemma AllocLeaf(ops: seq<Op>, m: seq<Frame>, at: map<Place, nat>, r: nat, v: Word)
    requires (forall t :: t in at ==> at[t] < |m|) && LeafMatches(ops, m, at, r, v)
    ensures LeafMatches(ops + [AllocRoot], m + [ZeroFrame()], at[Place(|m|, []) := |m|], r, v)
  {
    assert |Visited(r, v, 4).path| == 4;
    assert (ops + [AllocRoot])[..|ops|] == ops;
  }

  lemma LastWriteAfter(ops: seq<Op>, op: Op, r: nat, v: Word)
    requires op.Assign?
    ensures LeafWord(LastWrite(ops + [op], r, v)) ==
      if r == RootFrame(op.pt) && Key(v) == Key(op.vpn) then LeafWord(op.ppn)
      else LeafWord(LastWrite(ops, r, v))
  {
    assert (ops + [op])[..|ops|] == ops;
    if op.ppn != NO_MAPPING { LeafWordOfLowBits(op.ppn); }
  }

  lemma AssignStep(ops: seq<Op>, m: seq<Frame>, roots: set<nat>, at: map<Place, nat>,
                   op: Op, m': seq<Frame>, at': map<Place, nat>, limit: nat)
    requires Faithful(ops, m, roots, at) && op.Assign?
    requires Updated(m, at, Running(m'), at', RootFrame(op.pt), op.vpn, op.ppn, limit)
    ensures Faithful(ops + [op], m', roots, at')
  {
    var ops' := ops + [op];
    assert ops'[..|ops'| - 1] == ops;
    assert at'.Keys == RootPlaces(roots) + Tables(ops');
    forall r: nat, v: Word
      ensures LeafMatches(ops', m', at', r, v)
    {
      AssignLeaf(ops, m, at, op, m', at', r, v);
    }
  }

  lemma AssignLeaf(ops: seq<Op>, m: seq<Frame>, at: map<Place, nat>,
                   op: Op, m': seq<Frame>, at': map<Place, nat>, r: nat, v: Word)
    requires op.Assign? && LeafMatches(ops, m, at, r, v)
    requires OneLeafChanged(m, at, m', at', RootFrame(op.pt), op.vpn, LeafWord(op.ppn))
    ensures LeafMatches(ops + [op], m', at', r, v)
  {
    assert |Visited(r, v, 4).path| == 4;
    SameLeafIffSameKey(r, v, RootFrame(op.pt), op.vpn);
    LastWriteAfter(ops, op, r, v);
  }

  /** One operation more; an update ends the process exactly when the tables it needs do not all fit. */
  lemma StepIsFaithful(ops: seq<Op>, m: seq<Frame>, roots: set<nat>, at: map<Place, nat>, op: Op, limit: nat)
    returns (at': map<Place, nat>)
    requires limit <= NPAGES && |m| <= limit
    requires Faithful(ops, m, roots, at) && LegalNext(Live(m, roots), op)
    ensures var run := Step(Live(m, roots), op, limit);
      && !run.Crashed?
      && (run.Live? ==> |run.frames| <= limit && Faithful(ops + [op], run.frames, run.roots, at'))
      && (op.Assign? ==>
            (run.Ended? <==> |at.Keys + Demanded(RootFrame(op.pt), op.vpn, op.ppn)| > limit))
  {
    hide Update, RootFrame, OneLeafChanged, Demanded, LeafMatches, Tables;
    match op
    case AllocRoot =>
      at' := at;
      if |m| < limit {
        AllocStep(ops, m, roots, at);
        at' := at[Place(|m|, []) := |m|];
      }
    case Assign(pt, vpn, ppn) =>
      at' := UpdatePageIsFaithful(m, roots, at, pt, vpn, ppn, limit);
      var o := UpdatePage(m, pt, vpn, ppn, limit);
      if o.Running? {
        AssignStep(ops, m, roots, at, op, o.frames, at', limit);
      }
  }

  lemma UpdatePageIsFaithful(m: seq<Frame>, roots: set<nat>, at: map<Place, nat>, pt: Word, vpn: Word, ppn: Word,
                             limit: nat)
    returns (at': map<Place, nat>)
    requires limit <= NPAGES && |m| <= limit && Forest(m, at)
    requires RootFrame(pt) in roots && RootPlaces(roots) <= at.Keys
    ensures Updated(m, at, UpdatePage(m, pt, vpn, ppn, limit), at', RootFrame(pt), vpn, ppn, limit)
  {
    var root := RootFrame(pt);
    hide Update, Updated, RootFrame, Path;
    assert Visited(root, vpn, 0) == Place(root, []);
    assert Place(root, []) in RootPlaces(roots);
    at' := UpdateWalk(m, at, root, vpn, ppn, 4, limit);
  }

  lemma EmptyRun()
    ensures Faithful([], [], {}, map[])
  {
  }

  /** Every legal run is faithful and never follows a bad pointer. */
  lemma {:induction false} RunIsFaithful(ops: seq<Op>, limit: nat) returns (at: map<Place, nat>)
    requires limit <= NPAGES && Legal(ops, limit)
    ensures var run := Exec(ops, limit);
      !run.Crashed? && (run.Live? ==> |run.frames| <= limit && Faithful(ops, run.frames, run.roots, at))
  {
    hide Step, Faithful, LegalNext;
    EmptyRun();
    at := map[];
    if ops != [] {
      var before, op := ops[..|ops| - 1], ops[|ops| - 1];
      assert ops == before + [op];
      at := RunIsFaithful(before, limit);
      var run := Exec(before, limit);
      if run.Live? {
        at := StepIsFaithful(before, run.frames, run.roots, at, op, limit);
      } else {
        assert Step(run, op, limit) == run by { EndedStays(op, limit); }
      }
    }
  }

  lemma EndedStays(op: Op, limit: nat)
    requires limit <= NPAGES
    ensures Step(Ended, op, limit) == Ended
  {
  }

  lemma NextStep(ops: seq<Op>, op: Op, limit: nat)
    requires limit <= NPAGES && Legal(ops, limit) && LegalNext(Exec(ops, limit), op)
    ensures Legal(ops + [op], limit)
    ensures Exec(ops + [op], limit) == Step(Exec(ops, limit), op, limit)
    ensures !Exec(ops + [op], limit).Crashed?
  {
    hide Update;
    assert (ops + [op])[..|ops|] == ops;
    var at := RunIsFaithful(ops + [op], limit);
  }

  lemma RootFrameOf(n: nat)
    requires n < NPAGES
    ensures RootFrame(FrameNumber(n)) == n
  {
    FollowRoot(n);
  }

  lemma {:induction false} LastWriteRange(ops: seq<Op>, root: nat, vpn: Word)
    ensures LastWrite(ops, root, vpn) < 0x10_0000_0000_0000 || LastWrite(ops, root, vpn) == NO_MAPPING
  {
    if ops != [] { LastWriteRange(ops[..|ops| - 1], root, vpn); }
  }

  lemma LeafWordIsReadBack(x: Word)
    requires x < 0x10_0000_0000_0000 || x == NO_MAPPING
    ensures (if Present(LeafWord(x)) then PageNumber(LeafWord(x)) else NO_MAPPING) == x
  {
    if x != NO_MAPPING { EntryRoundTrip(x); }
  }

  /** The page table is a map per root: a query returns what was last written for the page. */
  lemma QueryReturnsLastWrite(ops: seq<Op>, limit: nat, pt: Word, vpn: Word)
    requires limit <= NPAGES && Legal(ops, limit) && Exec(ops, limit).Live?
    requires RootFrame(pt) in Exec(ops, limit).roots
    ensures QueryPage(Exec(ops, limit).frames, pt, vpn) == Answer(LastWrite(ops, RootFrame(pt), vpn))
  {
    var run := Exec(ops, limit);
    var root := RootFrame(pt);
    var at := RunIsFaithful(ops, limit);
    assert Visited(root, vpn, 0) == Place(root, []);
    QueryReadsLeaf(run.frames, at, root, vpn, 4);
    assert LeafMatches(ops, run.frames, at, root, vpn);
    LastWriteRange(ops, root, vpn);
    LeafWordIsReadBack(LastWrite(ops, root, vpn));
  }

  /** Arguments are the same page table exactly if they agree in 52 bits. */
  lemma SameRootIff(a: Word, b: Word)
    ensures RootFrame(a) == RootFrame(b) <==> a % 0x10_0000_0000_0000 == b % 0x10_0000_0000_0000
  {
  }

  /** An update of the page itself, or of one that shares its entries. */
  predicate Concerns(op: Op, pt: Word, vpn: Word) {
    && op.Assign?
    && op.pt % 0x10_0000_0000_0000 == pt % 0x10_0000_0000_0000
    && op.vpn / 0x1000 % 0x2000_0000_0000 == vpn / 0x1000 % 0x2000_0000_0000
  }

  lemma {:induction false} LastWriteAt(ops: seq<Op>, pt: Word, vpn: Word, i: nat)
    requires i < |ops| && Concerns(ops[i], pt, vpn)
    requires forall j :: i < j < |ops| ==> !Concerns(ops[j], pt, vpn)
    ensures LastWrite(ops, RootFrame(pt), vpn) == ReadBack(ops[i].ppn)
  {
    var last := |ops| - 1;
    hide RootFrame;
    if ops[last].Assign? { SameRootIff(ops[last].pt, pt); }
    if i < last { LastWriteAt(ops[..last], pt, vpn, i); }
  }

  lemma {:induction false} NeverWritten(ops: seq<Op>, pt: Word, vpn: Word)
    requires forall j :: 0 <= j < |ops| ==> !Concerns(ops[j], pt, vpn)
    ensures LastWrite(ops, RootFrame(pt), vpn) == NO_MAPPING
  {
    hide RootFrame;
    if ops != [] {
      var last := |ops| - 1;
      if ops[last].Assign? { SameRootIff(ops[last].pt, pt); }
      NeverWritten(ops[..last], pt, vpn);
    }
  }

  predicate LastConcerns(ops: seq<Op>, pt: Word, vpn: Word, i: int) {
    0 <= i < |ops| && Concerns(ops[i], pt, vpn) && forall j :: i < j < |ops| ==> !Concerns(ops[j], pt, vpn)
  }

  /** What a query answers, in numbers: by the last update that concerns the page, or all ones if there is none. */
  lemma QueryAnswersLastUpdate(ops: seq<Op>, limit: nat, pt: Word, vpn: Word)
    requires limit <= NPAGES && Legal(ops, limit) && Exec(ops, limit).Live?
    requires RootFrame(pt) in Exec(ops, limit).roots
    ensures (forall j :: 0 <= j < |ops| ==> !Concerns(ops[j], pt, vpn)) ==>
      QueryPage(Exec(ops, limit).frames, pt, vpn) == Answer(0xffff_ffff_ffff_ffff)
    ensures forall i :: LastConcerns(ops, pt, vpn, i) ==>
      QueryPage(Exec(ops, limit).frames, pt, vpn) ==
      Answer(if ops[i].ppn == 0xffff_ffff_ffff_ffff then ops[i].ppn else ops[i].ppn % 0x10_0000_0000_0000)
  {
    hide Exec, Legal, QueryPage, RootFrame;
    QueryReturnsLastWrite(ops, limit, pt, vpn);
    if forall j :: 0 <= j < |ops| ==> !Concerns(ops[j], pt, vpn) {
      NeverWritten(ops, pt, vpn);
    }
    forall i | LastConcerns(ops, pt, vpn, i)
      ensures LastWrite(ops, RootFrame(pt), vpn) == ReadBack(ops[i].ppn)
    {
      LastWriteAt(ops, pt, vpn, i);
    }
  }

  lemma LastWriteIsReadBack(ops: seq<Op>, op: Op, r: nat, v: Word)
    requires op.Assign?
    ensures LastWrite(ops + [op], r, v) ==
      if r == RootFrame(op.pt) && Key(v) == Key(op.vpn) then ReadBack(op.ppn) else LastWrite(ops, r, v)
  {
    assert (ops + [op])[..|ops|] == ops;
  }

  /**
    An update shows at the pages with the same bits 12..56 under the same root, as what its page
    number reads back as; every other page and every other root answers as before.
  */
  lemma UpdateShowsExactlyAtItsKey(ops: seq<Op>, op: Op, limit: nat, pt: Word, v: Word)
    requires limit <= NPAGES && Legal(ops + [op], limit) && op.Assign?
    requires Exec(ops, limit).Live? && Exec(ops + [op], limit).Live? && RootFrame(pt) in Exec(ops, limit).roots
    ensures QueryPage(Exec(ops + [op], limit).frames, pt, v) ==
      if pt % 0x10_0000_0000_0000 == op.pt % 0x10_0000_0000_0000
         && v / 0x1000 % 0x2000_0000_0000 == op.vpn / 0x1000 % 0x2000_0000_0000
      then Answer(if op.ppn == 0xffff_ffff_ffff_ffff then op.ppn else op.ppn % 0x10_0000_0000_0000)
      else QueryPage(Exec(ops, limit).frames, pt, v)
  {
    SameRootIff(pt, op.pt);
    assert (ops + [op])[..|ops|] == ops;
    QueryReturnsLastWrite(ops, limit, pt, v);
    QueryReturnsLastWrite(ops + [op], limit, pt, v);
    LastWriteIsReadBack(ops, op, RootFrame(pt), v);
  }

  /** A page number comes back unchanged exactly if it fits in 52 bits or is NO_MAPPING. */
  lemma RoundTripExactlyOn52Bits(ops: seq<Op>, op: Op, limit: nat)
    requires limit <= NPAGES && Legal(ops + [op], limit) && op.Assign?
    requires Exec(ops, limit).Live? && Exec(ops + [op], limit).Live?
    ensures QueryPage(Exec(ops + [op], limit).frames, op.pt, op.vpn) == Answer(op.ppn)
            <==> op.ppn < 0x10_0000_0000_0000 || op.ppn == NO_MAPPING
  {
    hide QueryPage, UpdatePage, Exec, RootFrame;
    SameKeyAliases(ops, op, op.vpn, limit);
  }

  /** A page answers with what any page of the same key was mapped to. */
  lemma SameKeyAliases(ops: seq<Op>, op: Op, v: Word, limit: nat)
    requires limit <= NPAGES && Legal(ops + [op], limit) && op.Assign? && Key(v) == Key(op.vpn)
    requires Exec(ops, limit).Live? && Exec(ops + [op], limit).Live?
    ensures QueryPage(Exec(ops + [op], limit).frames, op.pt, v) == Answer(ReadBack(op.ppn))
  {
    assert (ops + [op])[..|ops|] == ops;
    UpdateShowsExactlyAtItsKey(ops, op, limit, op.pt, v);
  }

  /**
    So neighbouring page numbers overwrite each other, against what disabled checks of the driver
    ask for: mapping 0xcaff to 0xaaaa changes the answer for 0xcafe.
  */
  lemma NeighboursAlias(ops: seq<Op>, op: Op, v: Word, limit: nat)
    requires limit <= NPAGES && Legal(ops + [op], limit)
    requires op.Assign? && op.vpn == 0xcaff && op.ppn == 0xaaaa && v == 0xcafe
    requires Exec(ops, limit).Live? && Exec(ops + [op], limit).Live?
    ensures QueryPage(Exec(ops + [op], limit).frames, op.pt, v) == Answer(0xaaaa)
  {
    hide QueryPage, UpdatePage, Exec, Legal, RootFrame;
    NeighbourKeys(op.vpn, v);
    SameKeyAliases(ops, op, v, limit);
  }

  lemma NeighbourKeys(u: Word, v: Word)
    requires u / 0x1000 == v / 0x1000
    ensures Key(u) == Key(v)
  {
  }

  lemma {:induction false} TablesBelowRoots(ops: seq<Op>)
    ensures forall t :: t in Tables(ops) ==> 1 <= |t.path| <= 4
  {
    if ops != [] { TablesBelowRoots(ops[..|ops| - 1]); }
  }

  lemma {:induction false} RootPlacesSize(roots: set<nat>)
    ensures |RootPlaces(roots)| == |roots|
  {
    if roots != {} {
      var r :| r in roots;
      RootPlacesSize(roots - {r});
      assert RootPlaces(roots) == RootPlaces(roots - {r}) + {Place(r, [])};
    }
  }

  lemma CountPlaces(roots: set<nat>, ops: seq<Op>)
    ensures |RootPlaces(roots) + Tables(ops)| == |roots| + |Tables(ops)|
  {
    TablesBelowRoots(ops);
    RootPlacesSize(roots);
    hide Tables;
    assert RootPlaces(roots) !! Tables(ops);
  }

  predicate IsMapping(op: Op) {
    op.Assign? && op.ppn != 0xffff_ffff_ffff_ffff
  }

  function Beginning(op: Op, k: nat): Place
    requires op.Assign? && k <= 4
  {
    Place(RootFrame(op.pt), Path(op.vpn)[..k])
  }

  /** The proper beginnings of the paths that were mapped, below their roots. */
  ghost function Beginnings(ops: seq<Op>): set<Place> {
    set j, k | 0 <= j < |ops| && IsMapping(ops[j]) && 1 <= k <= 4 :: Beginning(ops[j], k)
  }

  lemma BeginningsGrow(ops: seq<Op>, op: Op)
    ensures Beginnings(ops + [op]) ==
      Beginnings(ops) + if IsMapping(op) then Needed(RootFrame(op.pt), op.vpn) else {}
  {
    hide RootFrame, Path;
    var after := ops + [op];
    forall t | t in Beginnings(ops)
      ensures t in Beginnings(after)
    {
      var j, k :| 0 <= j < |ops| && IsMapping(ops[j]) && 1 <= k <= 4 && t == Beginning(ops[j], k);
      assert after[j] == ops[j];
    }
    if IsMapping(op) {
      forall k | 1 <= k <= 4
        ensures Visited(RootFrame(op.pt), op.vpn, k) in Beginnings(after)
      {
        assert after[|ops|] == op && Beginning(after[|ops|], k) == Visited(RootFrame(op.pt), op.vpn, k);
      }
    }
    forall t | t in Beginnings(after)
      ensures t in Beginnings(ops) || (IsMapping(op) && t in Needed(RootFrame(op.pt), op.vpn))
    {
      var j, k :| 0 <= j < |after| && IsMapping(after[j]) && 1 <= k <= 4 && t == Beginning(after[j], k);
      if j < |ops| {
        assert after[j] == ops[j];
      } else {
        assert t == Visited(RootFrame(op.pt), op.vpn, k);
      }
    }
  }

  lemma {:induction false} TablesAreBeginnings(ops: seq<Op>)
    ensures Tables(ops) == Beginnings(ops)
  {
    if ops != [] {
      var before, op := ops[..|ops| - 1], ops[|ops| - 1];
      TablesAreBeginnings(before);
      BeginningsGrow(before, op);
      assert ops == before + [op];
    }
  }

  /** Every frame in use is a root, or one of the tables that mappings have needed; none is lost or used twice. */
  lemma FramesAccountedFor(ops: seq<Op>, limit: nat)
    requires limit <= NPAGES && Legal(ops, limit) && Exec(ops, limit).Live?
    ensures |Exec(ops, limit).frames| == |Exec(ops, limit).roots| + |Tables(ops)| <= limit
  {
    hide Exec, Legal, Tables, LeafMatches;
    var at := RunIsFaithful(ops, limit);
    assert |at.Keys| == |at|;
    CountPlaces(Exec(ops, limit).roots, ops);
  }

  /** The process ends exactly when an operation asks for more frames than there are. */
  lemma EndsExactlyWhenFull(ops: seq<Op>, op: Op, limit: nat)
    requires limit <= NPAGES && Legal(ops + [op], limit) && Exec(ops, limit).Live?
    ensures var roots := |Exec(ops, limit).roots| + if op.AllocRoot? then 1 else 0;
      Exec(ops + [op], limit).Ended? <==> roots + |Tables(ops + [op])| > limit
  {
    hide UpdatePage, Demanded, RootFrame, LeafMatches, RootPlaces;
    var ops' := ops + [op];
    assert ops'[..|ops'| - 1] == ops;
    var at := RunIsFaithful(ops, limit);
    var run := Exec(ops, limit);
    var at' := StepIsFaithful(ops, run.frames, run.roots, at, op, limit);
    CountPlaces(run.roots, ops');
    if op.Assign? {
      assert at.Keys + Demanded(RootFrame(op.pt), op.vpn, op.ppn) == RootPlaces(run.roots) + Tables(ops');
    } else {
      FramesAccountedFor(ops, limit);
    }
  }

  /** An update allocates a frame for each table that it is the first to need: at most four, and none to unmap. */
  lemma UpdateAllocatesMissingTables(ops: seq<Op>, op: Op, limit: nat)
    requires limit <= NPAGES && Legal(ops + [op], limit) && op.Assign?
    requires Exec(ops, limit).Live? && Exec(ops + [op], limit).Live?
    ensures var missing := Demanded(RootFrame(op.pt), op.vpn, op.ppn) - Tables(ops);
      |Exec(ops + [op], limit).frames| == |Exec(ops, limit).frames| + |missing| && |missing| <= 4
    ensures op.ppn == 0xffff_ffff_ffff_ffff ==> |Exec(ops + [op], limit).frames| == |Exec(ops, limit).frames|
    ensures (exists j :: 0 <= j < |ops| && IsMapping(ops[j]) && Concerns(ops[j], op.pt, op.vpn)) ==>
      |Exec(ops + [op], limit).frames| == |Exec(ops, limit).frames|
  {
    hide UpdatePage, RootFrame, Needed;
    var ops' := ops + [op];
    assert ops'[..|ops'| - 1] == ops;
    FramesAccountedFor(ops, limit);
    FramesAccountedFor(ops', limit);
    var need := Demanded(RootFrame(op.pt), op.vpn, op.ppn);
    assert Tables(ops') == Tables(ops) + (need - Tables(ops));
    AtMostFourNeeded(RootFrame(op.pt), op.vpn);
    SubsetSize(need - Tables(ops), Needed(RootFrame(op.pt), op.vpn));
    if j :| 0 <= j < |ops| && IsMapping(ops[j]) && Concerns(ops[j], op.pt, op.vpn) {
      AgainNeeded(ops, op, j);
      assert need - Tables(ops) == {};
    }
  }

  /** A page that was mapped before has its tables. */
  lemma AgainNeeded(ops: seq<Op>, op: Op, j: nat)
    requires op.Assign? && j < |ops| && IsMapping(ops[j]) && Concerns(ops[j], op.pt, op.vpn)
    ensures Needed(RootFrame(op.pt), op.vpn) <= Tables(ops)
  {
    hide RootFrame;
    TablesAreBeginnings(ops);
    SameRootIff(ops[j].pt, op.pt);
    SamePathIffSameKey(ops[j].vpn, op.vpn);
    forall k | 1 <= k <= 4
      ensures Visited(RootFrame(op.pt), op.vpn, k) in Tables(ops)
    {
      assert Beginning(ops[j], k) == Visited(RootFrame(op.pt), op.vpn, k);
    }
  }

  lemma AtMostFourNeeded(root: nat, vpn: Word)
    ensures |Needed(root, vpn)| <= 4
  {
    assert Needed(root, vpn)
        == {Visited(root, vpn, 1)} + {Visited(root, vpn, 2)} + {Visited(root, vpn, 3)} + {Visited(root, vpn, 4)};
  }

  /** The frame that a walk stands on after k steps, or None if an absent entry stops it before. */
  datatype Position = On(frame: nat) | Stopped

  function Reach(m: seq<Frame>, root: nat, vpn: Word, k: nat): Position
    requires k <= 4
  {
    if k == 0 then On(root)
    else
      var previous := Reach(m, root, vpn, k - 1);
      if previous.On? && previous.frame < |m| && Present(m[previous.frame][GetIndex(vpn, 5 - k)])
      then On(FrameIndex(Target(m[previous.frame][GetIndex(vpn, 5 - k)])))
      else Stopped
  }

  lemma {:induction false} ReachIsPlace(m: seq<Frame>, at: map<Place, nat>, root: nat, vpn: Word, k: nat)
    requires Forest(m, at) && k <= 4 && Place(root, []) in at
    ensures Reach(m, root, vpn, k) ==
      if Visited(root, vpn, k) in at then On(at[Visited(root, vpn, k)]) else Stopped
  {
    assert Visited(root, vpn, 0) == Place(root, []);
    if k > 0 {
      ReachIsPlace(m, at, root, vpn, k - 1);
      if Visited(root, vpn, k - 1) in at {
        FollowInner(m, at, root, vpn, k - 1);
      } else if Visited(root, vpn, k) in at {
        AncestorsStand(m, at, root, vpn, k - 1, k);
      }
    }
  }

  /**
    No frame is shared: two walks stand on the same frame only if they started at the same root,
    made the same number of steps and chose the same entries. So no entry leads to a root, a
    table has one level, and what a leaf holds is never taken for a table.
  */
  lemma WalksMeetOnlyOnSharedPath(ops: seq<Op>, limit: nat, r: nat, u: Word, j: nat, s: nat, v: Word, k: nat)
    requires limit <= NPAGES && Legal(ops, limit) && Exec(ops, limit).Live?
    requires r in Exec(ops, limit).roots && s in Exec(ops, limit).roots && j <= 4 && k <= 4
    requires Reach(Exec(ops, limit).frames, r, u, j).On?
    ensures Reach(Exec(ops, limit).frames, r, u, j).frame < |Exec(ops, limit).frames|
    ensures Reach(Exec(ops, limit).frames, r, u, j) == Reach(Exec(ops, limit).frames, s, v, k)
            <==> r == s && j == k && Path(u)[..j] == Path(v)[..k]
  {
    hide Exec, Legal, Reach, LeafMatches, Tables, Path;
    var at := RunIsFaithful(ops, limit);
    var m := Exec(ops, limit).frames;
    ReachIsPlace(m, at, r, u, j);
    ReachIsPlace(m, at, s, v, k);
  }
}
