/**
  The simulated physical memory and the page-table calls that work on it in place.
*/
module Os {
  import opened Words
  import opened Entries
  import opened PageTable
  import opened PageTableRuns

  /** How one turn of the update loop ends. */
  datatype Turn = Down | Return | Exit

  class Machine {
    /** How many calls of mmap succeed before the first one that fails. */
    const granted: nat
    var nalloc: nat
    const pages: array<array?<Word>>

    /** The allocated frames, in order. */
    ghost var frames: seq<array<Word>>
    /** The calls made so far. */
    ghost var log: seq<Op>

    ghost function Limit(): (limit: nat)
      ensures limit <= NPAGES
    {
      if granted < NPAGES then granted else NPAGES
    }

    ghost predicate Allocated()
      reads this, pages
    {
      && pages.Length == NPAGES
      && nalloc == |frames| <= Limit()
      && (forall i :: 0 <= i < nalloc ==> pages[i] == frames[i])
      && (forall i :: nalloc <= i < NPAGES ==> pages[i] == null)
      && (forall i :: 0 <= i < nalloc ==> frames[i].Length == 512)
      && (forall i, j :: 0 <= i < j < nalloc ==> frames[i] != frames[j])
    }

    ghost predicate Holds(m: seq<Frame>)
      reads this, pages, frames
    {
      && Allocated()
      && |m| == nalloc
      && (forall i :: 0 <= i < nalloc ==> frames[i][..] == m[i])
    }

    ghost function State(): Run
      reads this
    {
      Exec(log, Limit())
    }

    ghost predicate Valid()
      reads this, pages, frames
    {
      && Legal(log, Limit())
      && State().Live?
      && Holds(State().frames)
    }

    constructor (granted: nat)
      ensures Valid() && log == [] && fresh(pages) && this.granted == granted
    {
      this.granted := granted;
      nalloc := 0;
      pages := new array?<Word>[NPAGES](_ => null);
      frames := [];
      log := [];
    }

    /** `alloc_page_frame`, where `exited` says that the process ended. */
    method AllocPageFrame(ghost m: seq<Frame>) returns (exited: bool, ppn: Word)
      requires Holds(m)
      modifies this`nalloc, this`frames, pages
      ensures exited <==> old(nalloc) == 0x10_0000 || old(nalloc) >= granted
      ensures |m| == old(nalloc) <= Limit() && (exited <==> |m| == Limit())
      ensures !exited ==>
        && |m| < NPAGES && ppn == FrameNumber(|m|) == old(nalloc) + 0xbaaa_aaad && nalloc == old(nalloc) + 1
        && Holds(m + [ZeroFrame()])
        && |frames| == |m| + 1 && frames[..|m|] == old(frames) && fresh(frames[|m|])
    {
      if nalloc == NPAGES {
        return true, 0;
      }
      ppn := nalloc;
      nalloc := nalloc + 1;
      if ppn >= granted {
        return true, 0;
      }
      var va := new Word[512](_ => 0);
      pages[ppn] := va;
      frames := frames + [va];
      assert va[..] == ZeroFrame();
      return false, ppn + FRAME_BASE;
    }

    /** `phys_to_virt`: the frame that the address lies in and the offset in bytes. */
    method PhysToVirt(ghost m: seq<Frame>, address: Word) returns (va: array?<Word>, offset: nat)
      requires Holds(m)
      ensures |frames| == |m| <= Limit()
      ensures va == if FrameIndex(address) < |m| then frames[FrameIndex(address)] else null
      ensures va != null ==> offset == Offset(address)
    {
      FrameIndexBits(address);
      OffsetBits(address);
      var ppn := Sub(Shr(address, 12), FRAME_BASE);
      offset := And(address, 0xfff);
      va := null;
      if ppn < NPAGES {
        va := pages[ppn];
      }
    }

    /** The frames since an earlier state: the same ones, and new ones after them. */
    twostate predicate Grew(before: seq<array<Word>>)
      reads this
    {
      before <= frames && forall i :: |before| <= i < |frames| ==> fresh(frames[i])
    }

    /** A caller allocates the root of a new page table. */
    method NewPageTable() returns (exited: bool, pt: Word)
      requires Valid()
      modifies this`nalloc, this`frames, this`log, pages
      ensures exited <==> old(nalloc) == 0x10_0000 || old(nalloc) >= granted
      ensures exited <==> Step(old(State()), AllocRoot, Limit()).Ended?
      ensures !exited ==> Valid() && log == old(log) + [AllocRoot]
      ensures !exited ==> pt == old(nalloc) + 0xbaaa_aaad
      ensures !exited ==> nalloc == old(nalloc) + 1 == |State().roots| + |Tables(log)|
      ensures !exited ==> RootFrame(pt) in State().roots && RootFrame(pt) !in old(State().roots)
      ensures !exited ==> Grew(old(frames))
    {
      hide UpdatePage, Legal, Exec, RootFrame, Holds, Allocated, Tables;
      RootsAreFrames(log, Limit());
      NextStep(log, AllocRoot, Limit());
      ghost var m := State().frames;
      exited, pt := AllocPageFrame(m);
      if !exited {
        Commit(m + [ZeroFrame()], AllocRoot);
        RootFrameOf(|m|);
        FramesAreCounted();
      }
    }

    /** `get_index` */
    method IndexOf(vpn: Word, level: nat) returns (index: nat)
      requires level <= 4
      ensures index == GetIndex(vpn, level)
    {
      GetIndexBits(vpn, level);
      index := And(Shr(vpn, 12 + 9 * level), 0x1FF);
    }

    /** `current[index]`, read */
    method LoadWord(ghost m: seq<Frame>, ghost f: nat, current: array<Word>, index: nat) returns (word: Word)
      requires Holds(m) && f < |m| == |frames| && current == frames[f] && index < 512
      ensures word == m[f][index]
    {
      assert current[..] == m[f];
      word := current[index];
    }

    /** `current[index] = word` */
    method StoreWord(ghost m: seq<Frame>, ghost f: nat, current: array<Word>, index: nat, word: Word)
      requires Holds(m) && f < |m| == |frames| && current == frames[f] && index < 512
      modifies current
      ensures Holds(Store(m, f, index, word))
    {
      current[index] := word;
    }

    method PageTableQuery(pt: Word, vpn: Word) returns (ppn: Word)
      requires Valid() && RootFrame(pt) in State().roots
      ensures ppn == LastWrite(log, RootFrame(pt), vpn)
      ensures (forall j :: 0 <= j < |log| ==> !Concerns(log[j], pt, vpn)) ==> ppn == 0xffff_ffff_ffff_ffff
      ensures forall i :: LastConcerns(log, pt, vpn, i) ==>
        ppn == if log[i].ppn == 0xffff_ffff_ffff_ffff then log[i].ppn else log[i].ppn % 0x10_0000_0000_0000
    {
      QueryAnswersLastUpdate(log, Limit(), pt, vpn);
      QueryReturnsLastWrite(log, Limit(), pt, vpn);
      RootsAreFrames(log, Limit());
      ppn := WalkToLeaf(State().frames, QueryPage(State().frames, pt, vpn), pt, vpn);
    }

    /** The loop of `page_table_query`, on memory that holds m. */
    method WalkToLeaf(ghost m: seq<Frame>, ghost answer: Answer, pt: Word, vpn: Word) returns (ppn: Word)
      requires Holds(m) && RootFrame(pt) < |m|
      requires answer == QueryPage(m, pt, vpn) && answer.Answer?
      ensures answer == Answer(ppn)
    {
      hide Query, Present, Target, GetIndex, FrameIndex, RootAddress, And, Shl, Shr, Offset, Holds, Allocated;
      ghost var f: nat := RootFrame(pt);
      RootAddressBits(pt);
      var current, offset := PhysToVirt(m, Shl(pt, 12));
      var level := 4;
      while level > 0
        invariant 0 <= level <= 4
        invariant f < |m| == |frames| && current == frames[f] && offset == 0
        invariant Query(m, f, vpn, level) == answer
      {
        QueryTurn(m, f, vpn, level);
        var index := IndexOf(vpn, level);
        var entry := LoadWord(m, f, current, index);
        PresentBits(entry);
        if And(entry, 1) == 0 {
          return NO_MAPPING;
        }
        TargetBits(entry);
        f := FrameIndex(Target(entry));
        current, offset := PhysToVirt(m, And(entry, NOT_OFFSET));
        level := level - 1;
      }
      QueryTurn(m, f, vpn, 0);
      var index := IndexOf(vpn, 0);
      var entry := LoadWord(m, f, current, index);
      PresentBits(entry);
      if And(entry, 1) == 0 {
        return NO_MAPPING;
      }
      Shr12(entry);
      return Shr(entry, 12);
    }

    /** `page_table_update`, where `exited` says that the process ran out of memory and ended. */
    method PageTableUpdate(pt: Word, vpn: Word, ppn: Word) returns (exited: bool)
      requires Valid() && RootFrame(pt) in State().roots
      modifies this`nalloc, this`frames, this`log, pages, frames
      ensures exited <==>
        |old(State().roots)| + |Tables(old(log) + [Assign(pt, vpn, ppn)])| >
        if granted < 0x10_0000 then granted else 0x10_0000
      ensures exited <==> Step(old(State()), Assign(pt, vpn, ppn), Limit()).Ended?
      ensures !exited ==> Valid() && log == old(log) + [Assign(pt, vpn, ppn)]
      ensures !exited ==> State().roots == old(State().roots) && nalloc == |State().roots| + |Tables(log)|
      ensures !exited ==> Grew(old(frames))
    {
      ghost var op := Assign(pt, vpn, ppn);
      RootsAreFrames(log, Limit());
      NextStep(log, op, Limit());
      EndsExactlyWhenFull(log, op, Limit());
      exited := Walk(State().frames, UpdatePage(State().frames, pt, vpn, ppn, Limit()), pt, vpn, ppn);
      if !exited {
        Commit(Exec(log + [op], Limit()).frames, op);
        FramesAreCounted();
      }
    }

    /** The number of frames handed out. */
    lemma FramesAreCounted()
      requires Valid()
      ensures nalloc == |State().roots| + |Tables(log)|
    {
      FramesAccountedFor(log, Limit());
    }

    /** The call is over and joins the log. */
    ghost method Commit(m: seq<Frame>, op: Op)
      requires Legal(log + [op], Limit()) && Exec(log + [op], Limit()).Live?
      requires m == Exec(log + [op], Limit()).frames && Holds(m)
      modifies this`log
      ensures log == old(log) + [op] && Valid()
    {
      hide Legal, Exec;
      log := log + [op];
    }

    /** The loop of `page_table_update`, on memory that holds m0. */
    method Walk(ghost m0: seq<Frame>, ghost outcome: Outcome, pt: Word, vpn: Word, ppn: Word) returns (exited: bool)
      requires Holds(m0) && RootFrame(pt) < |m0|
      requires outcome == UpdatePage(m0, pt, vpn, ppn, Limit()) != BadPointer
      modifies this`nalloc, this`frames, pages, frames
      ensures exited <==> outcome.Exited?
      ensures !exited ==> Holds(outcome.frames) && Grew(old(frames))
    {
      hide Update, Entry, GetIndex, FrameIndex, RootAddress, Shl, Or, Offset, Store, Holds, Allocated;
      ghost var m := m0;
      ghost var f: nat := RootFrame(pt);
      RootAddressBits(pt);
      var current, offset := PhysToVirt(m, Shl(pt, 12));
      var level := 4;
      while level > 0
        invariant 0 <= level <= 4
        invariant Holds(m) && f < |m| == |frames| && |m| <= Limit() && current == frames[f] && offset == 0
        invariant Update(m, f, vpn, ppn, level, Limit()) == outcome
        invariant Grew(old(frames))
      {
        var turn;
        turn, current, offset, m, f := OneLevel(m, f, current, vpn, ppn, level);
        match turn {
          case Return => return false;
          case Exit => return true;
          case Down => level := level - 1;
        }
      }
      UpdateTurn(m, f, vpn, ppn, 0, Limit());
      var index := IndexOf(vpn, 0);
      EntryBits(ppn);
      StoreWord(m, f, current, index, if ppn == NO_MAPPING then 0 else Or(Shl(ppn, 12), 1));
      return false;
    }

    /** One turn of the loop: how it leaves the loop, or the table it goes down to. */
    method OneLevel(ghost m: seq<Frame>, ghost f: nat, current: array<Word>, vpn: Word, ppn: Word, level: nat)
      returns (turn: Turn, next: array<Word>, offset: nat, ghost m': seq<Frame>, ghost f': nat)
      requires Holds(m) && f < |m| == |frames| && |m| <= Limit() && current == frames[f] && 0 < level <= 4
      requires Update(m, f, vpn, ppn, level, Limit()) != BadPointer
      modifies this`nalloc, this`frames, pages, current
      ensures turn.Return? ==> Update(m, f, vpn, ppn, level, Limit()) == Running(m) && Holds(m) && Grew(old(frames))
      ensures turn.Exit? ==> Update(m, f, vpn, ppn, level, Limit()).Exited?
      ensures turn.Down? ==>
        && Update(m', f', vpn, ppn, level - 1, Limit()) == Update(m, f, vpn, ppn, level, Limit())
        && Holds(m') && f' < |m'| == |frames| && |m'| <= Limit() && next == frames[f'] && offset == 0
        && Grew(old(frames))
    {
      hide Update, Entry, Target, Present, GetIndex, FrameIndex, And, Offset, Store, WithNewTable, Holds, Allocated;
      next, offset, m', f' := current, 0, m, f;
      UpdateTurn(m, f, vpn, ppn, level, Limit());
      var index := IndexOf(vpn, level);
      var entry := LoadWord(m, f, current, index);
      PresentBits(entry);
      if And(entry, 1) == 0 {
        if ppn == NO_MAPPING {
          return Return, next, offset, m', f';
        }
        var full := AddTable(m, f, current, index);
        if full {
          return Exit, next, offset, m', f';
        }
        m' := WithNewTable(m, f, index);
        entry := LoadWord(m', f, current, index);
      }
      TargetBits(entry);
      f' := FrameIndex(Target(entry));
      next, offset := PhysToVirt(m', And(entry, NOT_OFFSET));
      turn := Down;
    }

    /** `current[index] = (alloc_page_frame() << 12) | 1` */
    method AddTable(ghost m: seq<Frame>, ghost f: nat, current: array<Word>, index: nat) returns (full: bool)
      requires Holds(m) && f < |m| == |frames| && current == frames[f] && index < 512
      modifies this`nalloc, this`frames, pages, current
      ensures full <==> |m| == Limit()
      ensures !full ==> |m| < NPAGES && Holds(WithNewTable(m, f, index))
      ensures !full ==> |frames| == |m| + 1 && frames[..|m|] == old(frames) && fresh(frames[|m|])
    {
      hide Holds, Allocated, Or, Shl, Entry;
      var frame;
      full, frame := AllocPageFrame(m);
      if !full {
        EntryBits(frame);
        StoreWord(m + [ZeroFrame()], f, current, index, Or(Shl(frame, 12), 1));
        assert Store(m + [ZeroFrame()], f, index, Entry(frame)) == WithNewTable(m, f, index);
      }
    }
  }

  /** One turn of the loop of `page_table_query`. */
  lemma QueryTurn(m: seq<Frame>, f: nat, vpn: Word, level: nat)
    requires level <= 4 && f < |m|
    requires Query(m, f, vpn, level).Answer?
    ensures var entry := m[f][GetIndex(vpn, level)];
      Query(m, f, vpn, level) ==
      if !Present(entry) then Answer(NO_MAPPING)
      else if level == 0 then Answer(PageNumber(entry))
      else Query(m, FrameIndex(Target(entry)), vpn, level - 1)
    ensures Present(m[f][GetIndex(vpn, level)]) && level > 0 ==>
      FrameIndex(Target(m[f][GetIndex(vpn, level)])) < |m|
  {
  }

  /** One turn of the loop of `page_table_update`. */
  lemma UpdateTurn(m: seq<Frame>, f: nat, vpn: Word, ppn: Word, level: nat, limit: nat)
    requires level <= 4 && limit <= NPAGES && f < |m| <= limit
    requires Update(m, f, vpn, ppn, level, limit) != BadPointer
    ensures var index := GetIndex(vpn, level);
      var o := Update(m, f, vpn, ppn, level, limit);
      if level == 0 then o == Running(Store(m, f, index, LeafWord(ppn)))
      else if Present(m[f][index]) then
        var next := FrameIndex(Target(m[f][index]));
        next < |m| && o == Update(m, next, vpn, ppn, level - 1, limit)
      else if ppn == NO_MAPPING then o == Running(m)
      else if |m| == limit then o == Exited
      else
        var next := FrameIndex(Target(Entry(FrameNumber(|m|))));
        next < |m| + 1 && o == Update(WithNewTable(m, f, index), next, vpn, ppn, level - 1, limit)
  {
  }

  lemma RootsAreFrames(ops: seq<Op>, limit: nat)
    requires limit <= NPAGES && Legal(ops, limit) && Exec(ops, limit).Live?
    ensures forall r :: r in Exec(ops, limit).roots ==> r < |Exec(ops, limit).frames|
  {
    var at := RunIsFaithful(ops, limit);
    forall r | r in Exec(ops, limit).roots
      ensures r < |Exec(ops, limit).frames|
    {
      assert Place(r, []) in at;
    }
  }
}
