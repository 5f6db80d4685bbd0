/**
  The five-level page table as values: the contents of the allocated frames, the walks
  of `page_table_update` and `page_table_query` over them, and the forest that the
  frames form.
*/
module PageTable {
  import opened Words
  import opened Entries

  type Frame = f: seq<Word> | |f| == 512 witness seq(512, _ => 0)

  function ZeroFrame(): (f: Frame)
    ensures forall index :: 0 <= index < 512 ==> f[index] == 0
  {
    seq(512, _ => 0)
  }

  /** The frames after a call, unless the process ended or followed a bad pointer. */
  datatype Outcome = Running(frames: seq<Frame>) | Exited | BadPointer

  datatype Answer = Answer(ppn: Word) | NoAnswer

  /** Write one entry. */
  function Store(m: seq<Frame>, f: nat, index: nat, word: Word): (m': seq<Frame>)
    requires f < |m| && index < 512
    ensures |m'| == |m| && m'[f][index] == word
  {
    m[f := m[f][index := word]]
  }

  /** Allocate the next frame, all zero, and store the entry that leads to it. */
  function WithNewTable(m: seq<Frame>, f: nat, index: nat): (m': seq<Frame>)
    requires f < |m| < NPAGES && index < 512
    ensures |m'| == |m| + 1 && m'[f][index] == Entry(FrameNumber(|m|))
  {
    Store(m, f, index, Entry(FrameNumber(|m|))) + [ZeroFrame()]
  }

  /** `page_table_update` from the given level down; `limit` frames can be allocated in all. */
  function Update(m: seq<Frame>, f: nat, vpn: Word, ppn: Word, level: nat, limit: nat): Outcome
    requires level <= 4 && limit <= NPAGES
    decreases level
  {
    var index := GetIndex(vpn, level);
    if f >= |m| then BadPointer
    else if level == 0 then
      Running(Store(m, f, index, if ppn == NO_MAPPING then 0 else Entry(ppn)))
    else if Present(m[f][index]) then
      Update(m, FrameIndex(Target(m[f][index])), vpn, ppn, level - 1, limit)
    else if ppn == NO_MAPPING then Running(m)
    else if |m| >= limit then Exited
    else
      var m' := WithNewTable(m, f, index);
      Update(m', FrameIndex(Target(m'[f][index])), vpn, ppn, level - 1, limit)
  }

  /** `page_table_query` from the given level down. */
  function Query(m: seq<Frame>, f: nat, vpn: Word, level: nat): Answer
    requires level <= 4
    decreases level
  {
    var index := GetIndex(vpn, level);
    if f >= |m| then NoAnswer
    else if !Present(m[f][index]) then Answer(NO_MAPPING)
    else if level == 0 then Answer(PageNumber(m[f][index]))
    else Query(m, FrameIndex(Target(m[f][index])), vpn, level - 1)
  }

  /** Where a table stands: its root, and the entries that lead from there to it. */
  datatype Place = Place(root: nat, path: seq<nat>)

  function Child(t: Place, index: nat): Place {
    Place(t.root, t.path + [index])
  }

  function Parent(t: Place): Place
    requires t.path != []
  {
    Place(t.root, t.path[..|t.path| - 1])
  }

  /** The table that a walk for vpn visits after k steps. */
  function Visited(root: nat, vpn: Word, k: nat): Place
    requires k <= 4
  {
    Place(root, Path(vpn)[..k])
  }

  /** The tables below the root that a mapping of vpn needs. */
  function Needed(root: nat, vpn: Word): set<Place> {
    set k | 1 <= k <= 4 :: Visited(root, vpn, k)
  }

  /** The frames form a forest: `at` gives every table its own frame and leaves none over. */
  ghost predicate Forest(m: seq<Frame>, at: map<Place, nat>) {
    && |m| == |at| && |m| <= NPAGES
    && (forall t :: t in at ==> at[t] < |m| && |t.path| <= 4)
    && (forall t :: t in at && t.path == [] ==> at[t] == t.root)
    && (forall t {:trigger Parent(t)} :: t in at && t.path != [] ==> Parent(t) in at)
    && (forall t, u :: t in at && u in at && at[t] == at[u] ==> t == u)
    && (forall t, index: nat :: t in at && |t.path| < 4 && index < 512 ==>
          m[at[t]][index] == LinkTo(at, Child(t, index)))
  }

  /** The entry that leads to a table: 0 as long as the table does not exist. */
  ghost function LinkTo(at: map<Place, nat>, t: Place): Word {
    if t in at && at[t] <= NPAGES then Entry(FrameNumber(at[t])) else 0
  }

  /** The word that a leaf table holds; a table that does not exist holds nothing. */
  ghost function Leaf(m: seq<Frame>, at: map<Place, nat>, t: Place, index: nat): Word
    requires index < 512
  {
    if t in at && at[t] < |m| then m[at[t]][index] else 0
  }

  lemma VisitedChild(root: nat, vpn: Word, k: nat)
    requires k < 4
    ensures Visited(root, vpn, k + 1) == Child(Visited(root, vpn, k), GetIndex(vpn, 4 - k))
    ensures Parent(Visited(root, vpn, k + 1)) == Visited(root, vpn, k)
    ensures |Visited(root, vpn, k).path| == k
  {
    assert Path(vpn)[..k + 1] == Path(vpn)[..k] + [Path(vpn)[k]];
  }

  /** A table stands only below tables. */
  lemma {:induction false} AncestorsStand(m: seq<Frame>, at: map<Place, nat>, root: nat, vpn: Word, j: nat, k: nat)
    requires Forest(m, at) && j <= k <= 4 && Visited(root, vpn, k) in at
    ensures Visited(root, vpn, j) in at
  {
    if j < k {
      VisitedChild(root, vpn, k - 1);
      AncestorsStand(m, at, root, vpn, j, k - 1);
    }
  }

  /** Following an inner entry: either it is absent and so is the table, or it leads to the table's frame. */
  lemma FollowInner(m: seq<Frame>, at: map<Place, nat>, root: nat, vpn: Word, k: nat)
    requires Forest(m, at) && k < 4 && Visited(root, vpn, k) in at
    ensures var entry := m[at[Visited(root, vpn, k)]][GetIndex(vpn, 4 - k)];
      var next := Visited(root, vpn, k + 1);
      if next in at then Present(entry) && FrameIndex(Target(entry)) == at[next] else !Present(entry)
  {
    VisitedChild(root, vpn, k);
    var next := Visited(root, vpn, k + 1);
    if next in at {
      FollowEntry(at[next]);
      EntryRoundTrip(FrameNumber(at[next]));
    }
  }

  /** A query reads exactly the leaf word of its path. */
  lemma {:induction false} QueryReadsLeaf(m: seq<Frame>, at: map<Place, nat>, root: nat, vpn: Word, level: nat)
    requires Forest(m, at) && level <= 4 && Visited(root, vpn, 4 - level) in at
    ensures var word := Leaf(m, at, Visited(root, vpn, 4), GetIndex(vpn, 0));
      Query(m, at[Visited(root, vpn, 4 - level)], vpn, level)
      == Answer(if Present(word) then PageNumber(word) else NO_MAPPING)
    decreases level
  {
    assert !Present(0);
    hide Path, GetIndex, Entry, Present, Target, FrameIndex, PageNumber;
    if level > 0 {
      FollowInner(m, at, root, vpn, 4 - level);
      if Visited(root, vpn, 5 - level) in at {
        QueryReadsLeaf(m, at, root, vpn, level - 1);
      } else if Visited(root, vpn, 4) in at {
        AncestorsStand(m, at, root, vpn, 5 - level, 4);
      }
    }
  }

  /** The new frame joins the forest below the table whose absent entry it fills. */
  lemma Grow(m: seq<Frame>, at: map<Place, nat>, t: Place, index: nat)
    requires Forest(m, at) && |m| < NPAGES
    requires t in at && |t.path| < 4 && index < 512 && Child(t, index) !in at
    ensures Forest(WithNewTable(m, at[t], index), at[Child(t, index) := |m|])
  {
    var added := Child(t, index);
    var m' := WithNewTable(m, at[t], index);
    var at' := at[added := |m|];
    assert at'.Keys == at.Keys + {added};
    assert Parent(added) == t;
    forall u, i: nat | u in at' && |u.path| < 4 && i < 512
      ensures m'[at'[u]][i] == LinkTo(at', Child(u, i))
    {
      GrowLink(m, at, t, index, u, i);
    }
  }

  lemma GrowLink(m: seq<Frame>, at: map<Place, nat>, t: Place, index: nat, u: Place, i: nat)
    requires Forest(m, at) && |m| < NPAGES
    requires t in at && |t.path| < 4 && index < 512 && Child(t, index) !in at
    requires (u in at || u == Child(t, index)) && |u.path| < 4 && i < 512
    ensures var at' := at[Child(t, index) := |m|];
      WithNewTable(m, at[t], index)[at'[u]][i] == LinkTo(at', Child(u, i))
  {
    var c := Child(u, i);
    assert Parent(c) == u && c.path[|c.path| - 1] == i;
    assert Parent(Child(t, index)) == t && Child(t, index).path[|t.path|] == index;
    if u in at {
      assert m[at[u]][i] == LinkTo(at, c);
      if c == Child(t, index) {
        assert u == t && i == index;
      }
    } else {
      assert c !in at;
    }
  }

  /** What a leaf entry holds for a page number that was asked for. */
  function LeafWord(ppn: Word): Word {
    if ppn == NO_MAPPING then 0 else Entry(ppn)
  }

  /** The tables that a call must find or create. */
  function Demanded(root: nat, vpn: Word, ppn: Word): set<Place> {
    if ppn == NO_MAPPING then {} else Needed(root, vpn)
  }

  /** The frames m' hold the same leaf words as m, except for the one entry of vpn below root. */
  ghost predicate OneLeafChanged(m: seq<Frame>, at: map<Place, nat>, m': seq<Frame>, at': map<Place, nat>,
                                 root: nat, vpn: Word, word: Word)
  {
    forall t: Place, i: nat :: |t.path| == 4 && i < 512 ==>
      Leaf(m', at', t, i) ==
      if t == Visited(root, vpn, 4) && i == GetIndex(vpn, 0) then word else Leaf(m, at, t, i)
  }

  /** Every outcome of an update, given the forest before it. */
  ghost predicate Updated(m: seq<Frame>, at: map<Place, nat>, o: Outcome, at': map<Place, nat>,
                          root: nat, vpn: Word, ppn: Word, limit: nat)
  {
    var tables := at.Keys + Demanded(root, vpn, ppn);
    match o
    case BadPointer => false
    case Exited => |tables| > limit
    case Running(m') =>
      && |tables| <= limit
      && Forest(m', at')
      && at'.Keys == tables
      && (forall t :: t in at ==> at'[t] == at[t])
      && OneLeafChanged(m, at, m', at', root, vpn, LeafWord(ppn))
  }

  lemma StoreKeepsForest(m: seq<Frame>, at: map<Place, nat>, t: Place, index: nat, word: Word)
    requires Forest(m, at) && t in at && |t.path| == 4 && index < 512
    ensures Forest(Store(m, at[t], index, word), at)
  {
    var m' := Store(m, at[t], index, word);
    forall u, i: nat | u in at && |u.path| < 4 && i < 512
      ensures m'[at[u]][i] == LinkTo(at, Child(u, i))
    {
      assert at[u] != at[t];
    }
  }

  lemma StoreChangesOneLeaf(m: seq<Frame>, at: map<Place, nat>, root: nat, vpn: Word, word: Word)
    requires Forest(m, at) && Visited(root, vpn, 4) in at
    ensures OneLeafChanged(m, at, Store(m, at[Visited(root, vpn, 4)], GetIndex(vpn, 0), word), at, root, vpn, word)
  {
    var t, index := Visited(root, vpn, 4), GetIndex(vpn, 0);
    var m' := Store(m, at[t], index, word);
    forall u: Place, i: nat | |u.path| == 4 && i < 512
      ensures Leaf(m', at, u, i) == if u == t && i == index then word else Leaf(m, at, u, i)
    {
      if u in at && u != t { assert at[u] != at[t]; }
    }
  }

  lemma NeededStand(m: seq<Frame>, at: map<Place, nat>, root: nat, vpn: Word)
    requires Forest(m, at) && Visited(root, vpn, 4) in at
    ensures at.Keys + Needed(root, vpn) == at.Keys
  {
    forall k | 1 <= k <= 4
      ensures Visited(root, vpn, k) in at
    {
      AncestorsStand(m, at, root, vpn, k, 4);
    }
  }

  lemma StoreLeaf(m: seq<Frame>, at: map<Place, nat>, root: nat, vpn: Word, ppn: Word, limit: nat)
    requires Forest(m, at) && |m| <= limit <= NPAGES && Visited(root, vpn, 4) in at
    ensures Updated(m, at, Update(m, at[Visited(root, vpn, 4)], vpn, ppn, 0, limit), at, root, vpn, ppn, limit)
  {
    hide Path, GetIndex, Entry, Store, OneLeafChanged;
    NeededStand(m, at, root, vpn);
    assert at.Keys + {} == at.Keys;
    assert |Visited(root, vpn, 4).path| == 4;
    StoreKeepsForest(m, at, Visited(root, vpn, 4), GetIndex(vpn, 0), LeafWord(ppn));
    StoreChangesOneLeaf(m, at, root, vpn, LeafWord(ppn));
  }

  lemma GrowKeepsLeaves(m: seq<Frame>, at: map<Place, nat>, t: Place, index: nat, u: Place, i: nat)
    requires Forest(m, at) && |m| < NPAGES
    requires t in at && |t.path| < 4 && index < 512 && Child(t, index) !in at
    requires |u.path| == 4 && i < 512
    ensures Leaf(WithNewTable(m, at[t], index), at[Child(t, index) := |m|], u, i) == Leaf(m, at, u, i)
  {
    if u in at {
      assert at[u] != at[t];
    }
  }

  lemma AddingElements<T>(s: set<T>, x: T, d: set<T>)
    requires x !in s && x in d
    ensures |s + d| > |s|
    ensures (s + {x}) + d == s + d
  {
    assert s + {x} <= s + d;
    SubsetSize(s + {x}, s + d);
  }

  lemma {:induction false} SubsetSize<T>(a: set<T>, b: set<T>)
    requires a <= b
    ensures |a| <= |b|
  {
    if a != {} {
      var x :| x in a;
      SubsetSize(a - {x}, b - {x});
    }
  }

  lemma NothingToRemove(m: seq<Frame>, at: map<Place, nat>, root: nat, vpn: Word, k: nat, limit: nat)
    requires Forest(m, at) && |m| <= limit && k <= 4 && Visited(root, vpn, k) !in at
    ensures Updated(m, at, Running(m), at, root, vpn, NO_MAPPING, limit)
  {
    if Visited(root, vpn, 4) in at {
      AncestorsStand(m, at, root, vpn, k, 4);
    }
    assert at.Keys + {} == at.Keys;
  }

  lemma NoRoom(m: seq<Frame>, at: map<Place, nat>, root: nat, vpn: Word, ppn: Word, k: nat, limit: nat)
    requires Forest(m, at) && |m| >= limit && ppn != NO_MAPPING && 1 <= k <= 4 && Visited(root, vpn, k) !in at
    ensures Updated(m, at, Exited, at, root, vpn, ppn, limit)
  {
    assert Visited(root, vpn, k) in Needed(root, vpn);
    AddingElements(at.Keys, Visited(root, vpn, k), Needed(root, vpn));
  }

  /** An update that continues below a freshly grown table is an update of the forest before. */
  lemma GrownThenUpdated(m: seq<Frame>, at: map<Place, nat>, root: nat, vpn: Word, ppn: Word, k: nat, limit: nat,
                         o: Outcome, at': map<Place, nat>)
    requires Forest(m, at) && |m| < NPAGES && ppn != NO_MAPPING
    requires k < 4 && Visited(root, vpn, k) in at && Visited(root, vpn, k + 1) !in at
    requires Updated(WithNewTable(m, at[Visited(root, vpn, k)], GetIndex(vpn, 4 - k)),
                     at[Visited(root, vpn, k + 1) := |m|], o, at', root, vpn, ppn, limit)
    ensures Updated(m, at, o, at', root, vpn, ppn, limit)
  {
    hide Path, GetIndex, Entry, LeafWord, Leaf, WithNewTable, OneLeafChanged, Needed;
    var next := Visited(root, vpn, k + 1);
    var at1 := at[next := |m|];
    NextIsNeeded(root, vpn, k);
    AddingElements(at.Keys, next, Needed(root, vpn));
    assert at1.Keys == at.Keys + {next};
    if o.Running? {
      forall u | u in at
        ensures at'[u] == at[u]
      {
        assert at1[u] == at[u] && u in at1;
      }
      GrownLeaves(m, at, root, vpn, LeafWord(ppn), k, o.frames, at');
    }
  }

  lemma NextIsNeeded(root: nat, vpn: Word, k: nat)
    requires k < 4
    ensures Visited(root, vpn, k + 1) in Needed(root, vpn)
  {
  }

  lemma GrownLeaves(m: seq<Frame>, at: map<Place, nat>, root: nat, vpn: Word, word: Word, k: nat,
                    m': seq<Frame>, at': map<Place, nat>)
    requires Forest(m, at) && |m| < NPAGES
    requires k < 4 && Visited(root, vpn, k) in at && Visited(root, vpn, k + 1) !in at
    requires OneLeafChanged(WithNewTable(m, at[Visited(root, vpn, k)], GetIndex(vpn, 4 - k)),
                            at[Visited(root, vpn, k + 1) := |m|], m', at', root, vpn, word)
    ensures OneLeafChanged(m, at, m', at', root, vpn, word)
  {
    var t, index, next := Visited(root, vpn, k), GetIndex(vpn, 4 - k), Visited(root, vpn, k + 1);
    VisitedChild(root, vpn, k);
    hide Path, GetIndex, Leaf, WithNewTable;
    var m1, at1 := WithNewTable(m, at[t], index), at[next := |m|];
    forall u: Place, i: nat | |u.path| == 4 && i < 512
      ensures Leaf(m1, at1, u, i) == Leaf(m, at, u, i)
    {
      GrowKeepsLeaves(m, at, t, index, u, i);
    }
  }

  /** One turn of the update loop, in terms of which tables stand. */
  lemma UpdateStep(m: seq<Frame>, at: map<Place, nat>, root: nat, vpn: Word, ppn: Word, level: nat, limit: nat)
    requires Forest(m, at) && |m| <= limit <= NPAGES
    requires 0 < level <= 4 && Visited(root, vpn, 4 - level) in at
    ensures var f := at[Visited(root, vpn, 4 - level)];
      var next := Visited(root, vpn, 5 - level);
      Update(m, f, vpn, ppn, level, limit) ==
      if next in at then Update(m, at[next], vpn, ppn, level - 1, limit)
      else if ppn == NO_MAPPING then Running(m)
      else if |m| == limit then Exited
      else Update(WithNewTable(m, f, GetIndex(vpn, level)), |m|, vpn, ppn, level - 1, limit)
  {
    FollowInner(m, at, root, vpn, 4 - level);
    if |m| < NPAGES { FollowEntry(|m|); }
  }

  /** The whole effect of an update, from any level down. */
  lemma {:induction false} UpdateWalk(m: seq<Frame>, at: map<Place, nat>, root: nat, vpn: Word, ppn: Word,
                                      level: nat, limit: nat)
    returns (at': map<Place, nat>)
    requires Forest(m, at) && |m| <= limit <= NPAGES
    requires level <= 4 && Visited(root, vpn, 4 - level) in at
    ensures Updated(m, at, Update(m, at[Visited(root, vpn, 4 - level)], vpn, ppn, level, limit), at',
                    root, vpn, ppn, limit)
    decreases level
  {
    hide Update, Path, GetIndex, Entry, WithNewTable, Store, OneLeafChanged, Forest;
    var k := 4 - level;
    at' := at;
    if level == 0 {
      StoreLeaf(m, at, root, vpn, ppn, limit);
      return;
    }
    UpdateStep(m, at, root, vpn, ppn, level, limit);
    var next := Visited(root, vpn, k + 1);
    if next in at {
      at' := UpdateWalk(m, at, root, vpn, ppn, level - 1, limit);
    } else if ppn == NO_MAPPING {
      NothingToRemove(m, at, root, vpn, k + 1, limit);
    } else if |m| >= limit {
      NoRoom(m, at, root, vpn, ppn, k + 1, limit);
    } else {
      at' := GrowAndUpdate(m, at, root, vpn, ppn, level, limit);
    }
  }

  lemma {:induction false} GrowAndUpdate(m: seq<Frame>, at: map<Place, nat>, root: nat, vpn: Word, ppn: Word,
                                         level: nat, limit: nat)
    returns (at': map<Place, nat>)
    requires Forest(m, at) && |m| < limit <= NPAGES && ppn != NO_MAPPING
    requires 0 < level <= 4 && Visited(root, vpn, 4 - level) in at && Visited(root, vpn, 5 - level) !in at
    ensures Updated(m, at, Update(WithNewTable(m, at[Visited(root, vpn, 4 - level)], GetIndex(vpn, level)), |m|,
                                  vpn, ppn, level - 1, limit), at', root, vpn, ppn, limit)
    decreases level, 0
  {
    assert at[Visited(root, vpn, 4 - level)] < |m|;
    hide Update, Path, GetIndex, Entry, WithNewTable, Updated, Forest;
    var k := 4 - level;
    VisitedChild(root, vpn, k);
    Grow(m, at, Visited(root, vpn, k), GetIndex(vpn, level));
    var m1 := WithNewTable(m, at[Visited(root, vpn, k)], GetIndex(vpn, level));
    var at1 := at[Visited(root, vpn, k + 1) := |m|];
    at' := UpdateWalk(m1, at1, root, vpn, ppn, level - 1, limit);
    GrownThenUpdated(m, at, root, vpn, ppn, k, limit, Update(m1, |m|, vpn, ppn, level - 1, limit), at');
  }
}
