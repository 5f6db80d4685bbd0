/**
  Page-table words: how a virtual page number selects an entry at each level, and how
  an entry names the frame or physical page it maps to.
*/
module Entries {
  import opened Words

  const NPAGES: nat := 1024 * 1024
  const FRAME_BASE: Word := 0xbaaaaaad
  const NO_MAPPING: Word := TWO64 - 1
  const NOT_OFFSET: Word := TWO64 - 0x1000

  /** Bits 12..56 of a virtual page number: all that the walk looks at. */
  function Key(vpn: Word): nat {
    (vpn / 0x1000) % 0x2000_0000_0000
  }

  /** The entry that a walk chooses at a level: a digit of the page number in base 512. */
  function GetIndex(vpn: Word, level: nat): (index: nat)
    requires level <= 4
    ensures index < 512
  {
    if level == 0 then vpn / 0x1000 % 512
    else if level == 1 then vpn / 0x20_0000 % 512
    else if level == 2 then vpn / 0x4000_0000 % 512
    else if level == 3 then vpn / 0x80_0000_0000 % 512
    else vpn / 0x1_0000_0000_0000 % 512
  }

  /** `(vpn >> (12 + 9 * level)) & 0x1FF` is that digit. */
  lemma GetIndexBits(vpn: Word, level: nat)
    requires level <= 4
    ensures And(Shr(vpn, 12 + 9 * level), 0x1FF) == GetIndex(vpn, level)
  {
    Powers();
    var x := Shr(vpn, 12 + 9 * level);
    AndOnes(x, 9);
    Low9(x);
  }

  /** The entries chosen from level 4 down to level 0. */
  function Path(vpn: Word): (path: seq<nat>)
    ensures |path| == 5
    ensures forall k :: 0 <= k < 5 ==> path[k] == GetIndex(vpn, 4 - k)
  {
    [GetIndex(vpn, 4), GetIndex(vpn, 3), GetIndex(vpn, 2), GetIndex(vpn, 1), GetIndex(vpn, 0)]
  }

  /** The number with the given digits in base 512, most significant first. */
  function FromDigits(digits: seq<nat>): nat {
    if digits == [] then 0
    else 512 * FromDigits(digits[..|digits| - 1]) + digits[|digits| - 1]
  }

  lemma PathIsKeyInBase512(vpn: Word)
    ensures FromDigits(Path(vpn)) == Key(vpn)
  {
    var p := Path(vpn);
    FromFiveDigits(p);
    hide FromDigits;
    var y := vpn / 0x1000;
    DivDiv(vpn);
    var y1 := y / 512; var y2 := y1 / 512; var y3 := y2 / 512; var y4 := y3 / 512;
    SumOfDigits([y, y1, y2, y3, y4, y4 / 512], [y % 512, y1 % 512, y2 % 512, y3 % 512, y4 % 512]);
  }

  lemma FromFiveDigits(p: seq<nat>)
    requires |p| == 5
    ensures FromDigits(p) == 512 * (512 * (512 * (512 * p[0] + p[1]) + p[2]) + p[3]) + p[4]
  {
    assert p[..4][..3] == p[..3] && p[..3][..2] == p[..2] && p[..2][..1] == p[..1] && p[..1][..0] == [];
    assert FromDigits(p[..1]) == p[0];
    assert FromDigits(p[..2]) == 512 * FromDigits(p[..1]) + p[1];
    assert FromDigits(p[..3]) == 512 * FromDigits(p[..2]) + p[2];
    assert FromDigits(p[..4]) == 512 * FromDigits(p[..3]) + p[3];
  }

  lemma DivDiv(x: nat)
    ensures x / 0x20_0000 == x / 0x1000 / 512
    ensures x / 0x4000_0000 == x / 0x1000 / 512 / 512
    ensures x / 0x80_0000_0000 == x / 0x1000 / 512 / 512 / 512
    ensures x / 0x1_0000_0000_0000 == x / 0x1000 / 512 / 512 / 512 / 512
  {
  }

  lemma SumOfDigits(y: seq<nat>, d: seq<nat>)
    requires |y| == 6 && |d| == 5
    requires forall k :: 0 <= k < 5 ==> y[k] == 512 * y[k + 1] + d[k] && d[k] < 512
    ensures 512 * (512 * (512 * (512 * d[4] + d[3]) + d[2]) + d[1]) + d[0] == y[0] % 0x2000_0000_0000
  {
    var s1 := 512 * d[1] + d[0];
    var s2 := 0x4_0000 * d[2] + s1;
    var s3 := 0x800_0000 * d[3] + s2;
    var s4 := 0x10_0000_0000 * d[4] + s3;
    assert y[0] == 0x4_0000 * y[2] + s1;
    assert y[0] == 0x800_0000 * y[3] + s2;
    assert y[0] == 0x10_0000_0000 * y[4] + s3;
    assert s1 < 0x4_0000 && s2 < 0x800_0000 && s3 < 0x10_0000_0000;
    DivModUnique(y[0], 0x2000_0000_0000, y[5], s4);
  }

  /** Digit sequences of the same length denote the same number only if they are equal. */
  lemma {:induction false} FromDigitsInjective(a: seq<nat>, b: seq<nat>)
    requires |a| == |b|
    requires forall k :: 0 <= k < |a| ==> a[k] < 512 && b[k] < 512
    requires FromDigits(a) == FromDigits(b)
    ensures a == b
  {
    if a != [] {
      var n := |a| - 1;
      FromDigitsInjective(a[..n], b[..n]);
      assert a == a[..n] + [a[n]] && b == b[..n] + [b[n]];
    }
  }

  /** Two virtual page numbers take the same path exactly if they agree on bits 12..56. */
  lemma SamePathIffSameKey(u: Word, v: Word)
    ensures Path(u) == Path(v) <==> Key(u) == Key(v)
  {
    PathIsKeyInBase512(u);
    PathIsKeyInBase512(v);
    if Key(u) == Key(v) {
      FromDigitsInjective(Path(u), Path(v));
    }
  }

  /** The word stored for a table frame and for a mapped page alike: a number and the valid bit. */
  function Entry(x: Word): Word {
    x % 0x10_0000_0000_0000 * 0x1000 + 1
  }

  /** `(x << 12) | 1` */
  lemma EntryBits(x: Word)
    ensures Or(Shl(x, 12), 1) == Entry(x)
  {
    Shl12(x);
    OrOne(Shl(x, 12));
  }

  predicate Present(entry: Word) {
    entry % 2 == 1
  }

  /** `entry & 1` */
  lemma PresentBits(entry: Word)
    ensures And(entry, 1) != 0 <==> Present(entry)
  {
    AndOnes(entry, 1);
    assert Low(entry, 1) == 2 * Low(entry / 2, 0) + entry % 2;
  }

  /** `entry >> 12` */
  function PageNumber(entry: Word): Word {
    entry / 0x1000
  }

  /** A stored page number survives up to its twelve highest bits, and is never NO_MAPPING. */
  lemma EntryRoundTrip(x: Word)
    ensures Present(Entry(x))
    ensures PageNumber(Entry(x)) == x % 0x10_0000_0000_0000
    ensures PageNumber(Entry(x)) != NO_MAPPING
    ensures PageNumber(Entry(x)) == x <==> x < 0x10_0000_0000_0000
  {
    var r := x % 0x10_0000_0000_0000;
    DivModUnique(Entry(x), 0x1000, r, 1);
    DivModUnique(Entry(x), 2, r * 0x800, 1);
  }

  /** The number that `alloc_page_frame` gives to the n-th frame. */
  function FrameNumber(n: nat): Word
    requires n <= NPAGES
  {
    n + FRAME_BASE
  }

  /** The position in `pages` that belongs to a physical address, wrapping round below the first frame. */
  function FrameIndex(address: Word): nat {
    var ppn := address / 0x1000;
    if ppn >= FRAME_BASE then ppn - FRAME_BASE else ppn + TWO64 - FRAME_BASE
  }

  /** `(phys_addr >> 12) - 0xbaaaaaad` */
  lemma FrameIndexBits(address: Word)
    ensures Sub(Shr(address, 12), FRAME_BASE) == FrameIndex(address)
  {
    Shr12(address);
  }

  function Offset(address: Word): nat {
    address % 0x1000
  }

  /** `phys_addr & 0xfff` */
  lemma OffsetBits(address: Word)
    ensures And(address, 0xfff) == Offset(address)
  {
    Powers();
    AndOnes(address, 12);
    Low12(address);
  }

  /** The address that an entry leads to. */
  function Target(entry: Word): Word {
    entry - entry % 0x1000
  }

  /** `entry & ~0xFFF` */
  lemma TargetBits(entry: Word)
    ensures And(entry, NOT_OFFSET) == Target(entry)
    ensures Offset(Target(entry)) == 0
  {
    Powers();
    AndOnesFrom(entry, 12, 64);
    Low12(entry);
  }

  /** The address that a walk starts from. */
  function RootAddress(pt: Word): Word {
    pt % 0x10_0000_0000_0000 * 0x1000
  }

  /** `pt << 12` */
  lemma RootAddressBits(pt: Word)
    ensures Shl(pt, 12) == RootAddress(pt)
    ensures Offset(RootAddress(pt)) == 0
  {
    Shl12(pt);
  }

  /** Following the entry stored for the n-th frame leads to the start of that frame. */
  lemma FollowEntry(n: nat)
    requires n < NPAGES
    ensures FrameIndex(Target(Entry(FrameNumber(n)))) == n
    ensures Offset(Target(Entry(FrameNumber(n)))) == 0
  {
    var f := FrameNumber(n);
    DivModUnique(Entry(f), 0x1000, f, 1);
  }

  /** The walk starts at the frame whose number it is given. */
  lemma FollowRoot(n: nat)
    requires n < NPAGES
    ensures FrameIndex(RootAddress(FrameNumber(n))) == n
    ensures Offset(RootAddress(FrameNumber(n))) == 0
  {
  }
}
