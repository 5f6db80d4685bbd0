/**
  Short runs of the page-table code in which a query answers something other than what was
  mapped for it.
*/
module PageTableExamples {
  import opened Words
  import opened Entries
  import opened PageTable
  import opened PageTableRuns

  /** All mappings so far are of pages with the key of vpn, in the first page table. */
  ghost predicate OnlyMaps(ops: seq<Op>, vpn: Word, limit: nat)
    requires limit <= NPAGES
  {
    && Legal(ops, limit) && Exec(ops, limit).Live? && Exec(ops, limit).roots == {0}
    && Tables(ops) <= Needed(0, vpn)
  }

  lemma OneRoot(vpn: Word, limit: nat)
    requires 1 <= limit <= NPAGES
    ensures OnlyMaps([AllocRoot], vpn, limit)
  {
    hide Update;
    assert [AllocRoot][..0] == [];
    assert Exec([], limit) == Live([], {});
    NextStep([], AllocRoot, limit);
    assert [] + [AllocRoot] == [AllocRoot];
  }

  lemma SameTables(ops: seq<Op>, vpn: Word, op: Op)
    requires Tables(ops) <= Needed(0, vpn)
    requires op.Assign? && RootFrame(op.pt) == 0 && Key(op.vpn) == Key(vpn)
    ensures Tables(ops + [op]) <= Needed(0, vpn) && |Tables(ops + [op])| <= 4
  {
    hide RootFrame, Key;
    SamePathIffSameKey(op.vpn, vpn);
    hide Path;
    assert forall k | 0 <= k <= 4 :: Visited(0, op.vpn, k) == Visited(0, vpn, k);
    assert (ops + [op])[..|ops|] == ops;
    AtMostFourNeeded(0, vpn);
    SubsetSize(Tables(ops + [op]), Needed(0, vpn));
  }

  lemma OneMapping(ops: seq<Op>, vpn: Word, op: Op, limit: nat)
    requires 5 <= limit <= NPAGES && OnlyMaps(ops, vpn, limit)
    requires op.Assign? && op.pt == FrameNumber(0) && Key(op.vpn) == Key(vpn)
    ensures RootFrame(op.pt) == 0 && OnlyMaps(ops + [op], vpn, limit)
  {
    hide UpdatePage, Exec, Legal, RootFrame, Key, Needed, Tables;
    RootFrameOf(0);
    NextStep(ops, op, limit);
    SameTables(ops, vpn, op);
    EndsExactlyWhenFull(ops, op, limit);
  }

  /** Pages 0xcafe and 0xcaff are mapped one after the other: then both answer with the later mapping. */
  lemma NeighboursOverwrite(ops: seq<Op>, first: Op, second: Op, limit: nat)
    requires first == Assign(FrameNumber(0), 0xcafe, 0xacdc) && second == Assign(FrameNumber(0), 0xcaff, 0xaaaa)
    requires ops == [AllocRoot] + [first] + [second] && 5 <= limit <= NPAGES
    ensures Legal(ops, limit) && Exec(ops, limit).Live?
    ensures QueryPage(Exec(ops, limit).frames, FrameNumber(0), 0xcafe) == Answer(0xaaaa)
  {
    hide Exec, Legal, RootFrame, QueryPage;
    NeighbourKeys(0xcafe, 0xcaff);
    OneRoot(0xcafe, limit);
    OneMapping([AllocRoot], 0xcafe, first, limit);
    OneMapping([AllocRoot] + [first], 0xcafe, second, limit);
    SameKeyAliases([AllocRoot] + [first], second, 0xcafe, limit);
  }

  /** A page that is mapped to 2^52 answers 0. */
  lemma WideNumberIsCut(ops: seq<Op>, op: Op, limit: nat)
    requires op == Assign(FrameNumber(0), 0xcafe, 0x10_0000_0000_0000)
    requires ops == [AllocRoot] + [op] && 5 <= limit <= NPAGES
    ensures Legal(ops, limit) && Exec(ops, limit).Live?
    ensures QueryPage(Exec(ops, limit).frames, FrameNumber(0), 0xcafe) == Answer(0)
  {
    hide Exec, Legal, RootFrame, QueryPage;
    OneRoot(0xcafe, limit);
    OneMapping([AllocRoot], 0xcafe, op, limit);
    SameKeyAliases([AllocRoot], op, 0xcafe, limit);
  }
}
