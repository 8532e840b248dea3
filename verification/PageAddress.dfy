/** Canonical virtual addresses, page numbers, and translation of whole addresses. */
module PageAddress {
  import opened Prelude
  import opened PageWalk
  import opened PageMap

  const TWO_12: nat := 0x1000
  const TWO_47: nat := 0x8000_0000_0000
  const TWO_48: nat := 0x1_0000_0000_0000
  const TWO_64: nat := 0x1_0000_0000_0000_0000

  /** Copies bit 47 into the bits above it. */
  function SignExtend(a: nat): nat {
    var low := a % TWO_48;
    if low < TWO_47 then low else low + (TWO_64 - TWO_48)
  }

  /** The test of the walks: bits 63 to 48 all equal bit 47. */
  predicate Canonical(a: nat) {
    var unused, sign := a / TWO_48, a / TWO_47 % 2;
    !((sign == 0 && unused != 0) || (sign == 1 && unused != 0xFFFF))
  }

  lemma {:induction false} CanonicalIsSignExtended(a: nat)
    requires a < TWO_64
    ensures Canonical(a) <==> SignExtend(a) == a
  {
    var unused := a / TWO_48;
    assert a == unused * TWO_48 + a % TWO_48;
    assert a / TWO_47 == 2 * unused + (if a % TWO_48 < TWO_47 then 0 else 1);
  }

  function PageNumber(a: nat): (v: nat)
    ensures v < PAGES
  {
    a % TWO_48 / TWO_12
  }

  /** The address of the first byte of a page. */
  function AddressOf(v: nat): nat {
    SignExtend(v * TWO_12)
  }

  lemma {:induction false} DropPage(x: nat, c: nat, y: nat)
    requires x == 0x1000 * c + y
    ensures x / 0x1000 == c + y / 0x1000
  {
  }

  lemma {:induction false} DropDigit(x: nat, c: nat, y: nat)
    requires x == 512 * c + y
    ensures x / 512 == c + y / 512 && x % 512 == y % 512
  {
  }

  lemma {:induction false} FieldTwo(a: nat)
    ensures a / 0x20_0000 == a / 0x1000 / 512
  {
  }

  lemma {:induction false} FieldThree(a: nat)
    ensures a / 0x4000_0000 == a / 0x20_0000 / 512
  {
  }

  lemma {:induction false} FieldFour(a: nat)
    ensures a / 0x80_0000_0000 == a / 0x4000_0000 / 512
  {
  }

  lemma {:induction false} FieldsAreDigits(q1: nat, q2: nat, q3: nat, q4: nat, h: nat, v: nat)
    requires q1 == 512 * (h * 0x800_0000) + v && q2 == q1 / 512 && q3 == q2 / 512 && q4 == q3 / 512
    ensures q1 % 512 == Digit(v, 1) && q2 % 512 == Digit(v, 2) && q3 % 512 == Digit(v, 3) && q4 % 512 == Digit(v, 4)
  {
    assert High(v, 1) == v / 512;
    assert High(v, 2) == High(v, 1) / 512;
    assert High(v, 3) == High(v, 2) / 512;
    DropDigit(q1, h * 0x800_0000, v);
    DropDigit(q2, h * 0x4_0000, High(v, 1));
    DropDigit(q3, h * 512, High(v, 2));
    DropDigit(q4, h, High(v, 3));
  }

  /** The index fields that the walks cut out of an address are the digits of its page number. */
  lemma {:induction false} AddressDigits(a: nat)
    ensures a / 0x1000 % 512 == Digit(PageNumber(a), 1)
    ensures a / 0x20_0000 % 512 == Digit(PageNumber(a), 2)
    ensures a / 0x4000_0000 % 512 == Digit(PageNumber(a), 3)
    ensures a / 0x80_0000_0000 % 512 == Digit(PageNumber(a), 4)
  {
    var h := a / TWO_48;
    DropPage(a, h * PAGES, a % TWO_48);
    FieldTwo(a);
    FieldThree(a);
    FieldFour(a);
    FieldsAreDigits(a / 0x1000, a / 0x20_0000, a / 0x4000_0000, a / 0x80_0000_0000, h, PageNumber(a));
  }

  lemma {:induction false} PageOfAddress(v: nat)
    requires v < PAGES
    ensures AddressOf(v) < TWO_64 && Canonical(AddressOf(v)) && PageNumber(AddressOf(v)) == v
            && AddressOf(v) % TWO_12 == 0
  {
    assert v * TWO_12 < TWO_48;
    CanonicalIsSignExtended(AddressOf(v));
  }

  /** A canonical address is the address of its page plus an offset. */
  lemma {:induction false} AddressOfPage(a: nat)
    requires a < TWO_64 && Canonical(a)
    ensures a == AddressOf(PageNumber(a)) + a % TWO_12
  {
    CanonicalIsSignExtended(a);
    var low := a % TWO_48;
    assert low == PageNumber(a) * TWO_12 + low % TWO_12;
    assert low % TWO_12 == a % TWO_12;
  }

  /** Within one half, the next page number is the next 4096 bytes. */
  lemma {:induction false} NextAddress(v: nat)
    requires v + 1 < PAGES && v != 0x7_FFFF_FFFF
    ensures AddressOf(v + 1) == AddressOf(v) + TWO_12
  {
    assert (v + 1) * TWO_12 < TWO_48;
  }

  // ── Rows of pages ─────────────────────────────────────────────────────────

  /** The first page above the gap in the canonical addresses. */
  const HALF: nat := 0x8_0000_0000

  lemma {:induction false} AddressClosed(v: nat)
    requires v < PAGES
    ensures AddressOf(v) == v * TWO_12 + if v < HALF then 0 else TWO_64 - TWO_48
  {
    assert v * TWO_12 < TWO_48;
  }

  /** The pages from `start` on begin 4096 bytes apart. */
  ghost predicate Consecutive(start: nat, count: nat) {
    forall w: nat :: start <= w < start + count ==> ConsecutiveAt(start, w)
  }

  predicate ConsecutiveAt(start: nat, w: nat)
    requires start <= w
  {
    AddressOf(w) == AddressOf(start) + (w - start) * TWO_12
  }

  /** They do exactly if they do not lie on both sides of the gap. */
  lemma {:induction false} ConsecutiveExact(start: nat, count: nat)
    requires start + count <= PAGES
    ensures Consecutive(start, count) <==> !(start < HALF < start + count)
  {
    if start < HALF < start + count {
      AddressClosed(start);
      AddressClosed(HALF);
      assert !ConsecutiveAt(start, HALF);
    } else {
      forall w: nat | start <= w < start + count ensures ConsecutiveAt(start, w) {
        AddressClosed(start);
        AddressClosed(w);
      }
    }
  }

  /** The pages from the one at `start` up to the one at `end`, which is not part of the range. */
  datatype PageRange = PageRange(start: nat, end: nat) {
    predicate Contains(a: nat) { start <= a < end }

    function N(): nat
      requires start <= end
    {
      (end - start) / TWO_12
    }
  }

  /**
   * A range that ends with the address of the last of `count` pages holds all of
   * them but the last, and counts one less, unless the gap lies between.
   */
  lemma {:induction false} RangeMissesLast(start: nat, count: nat, w: nat)
    requires 2 <= count && start + count <= PAGES && w < PAGES
    ensures var r := PageRange(AddressOf(start), AddressOf(start + count - 1));
            && r.start < r.end && (r.Contains(AddressOf(w)) <==> start <= w < start + count - 1)
            && (r.N() == count - 1 <==> Consecutive(start, count))
  {
    AddressClosed(start);
    AddressClosed(start + count - 1);
    AddressClosed(w);
    ConsecutiveExact(start, count);
  }

  // ── Translation ───────────────────────────────────────────────────────────

  /** The size of a page that an entry of this level maps. */
  function Span(level: nat): nat {
    if level == 1 then 0x1000 else if level == 2 then 0x20_0000 else 0x4000_0000
  }

  function Translate(m: Tables, root: Frame, a: nat): Option<nat> {
    if !Canonical(a) then None
    else
      match Resolve(m, root, 4, PageNumber(a))
      case None => None
      case Some(Leaf(base, level)) => Some(base + a % Span(level))
  }

  /** After a successful map of `page` to `frame`, exactly the addresses in the page change:
      each translates to the frame plus its offset. */
  lemma {:induction false} MapTranslates(frames: seq<Frame>, st: State, own: Owners, root: Frame, page: nat,
                                         frame: Frame, pf: PageFlags, a: nat)
    requires Inv(frames, st, own) && IsRoot(own, root)
    requires page < TWO_64 && Canonical(page) && page % TWO_12 == 0 && a < TWO_64
    ensures var s := Map(frames, st, root, PageNumber(page), frame, pf);
            Translate(s.st.tables, root, a) ==
              if s.outcome == Ok && page <= a < page + TWO_12 then Some(frame + (a - page))
              else Translate(st.tables, root, a)
  {
    if Canonical(a) {
      MapView(frames, st, own, root, PageNumber(page), frame, pf, PageNumber(a));
      InPage(page, a);
    } else {
      PageCanonical(page, a);
    }
  }

  lemma {:induction false} MapView(frames: seq<Frame>, st: State, own: Owners, root: Frame, v: nat, frame: Frame,
                                   pf: PageFlags, w: nat)
    requires Inv(frames, st, own) && IsRoot(own, root) && v < PAGES && w < PAGES
    ensures var s := Map(frames, st, root, v, frame, pf);
            At(s.st, root, w) == if s.outcome == Ok && w == v then Some(Leaf(frame, 1)) else At(st, root, w)
  {
    var own' := MapLemma(frames, st, own, root, v, frame, pf);
    RootOnWalk(st.tables, own, root, w);
    var s := Map(frames, st, root, v, frame, pf);
    if s.outcome != Ok {
      assert Resolve(s.st.tables, root, own[root].level, w) == Resolve(st.tables, root, own[root].level, w);
    }
  }

  lemma {:induction false} InPage(page: nat, a: nat)
    requires page < TWO_64 && a < TWO_64 && Canonical(page) && Canonical(a) && page % TWO_12 == 0
    ensures page <= a < page + TWO_12 <==> PageNumber(a) == PageNumber(page)
    ensures PageNumber(a) == PageNumber(page) ==> a == page + a % TWO_12
  {
    AddressOfPage(page);
    AddressOfPage(a);
    CanonicalIsSignExtended(page);
    CanonicalIsSignExtended(a);
  }

  lemma {:induction false} PageCanonical(page: nat, a: nat)
    requires page < TWO_64 && a < TWO_64 && Canonical(page) && page % TWO_12 == 0 && !Canonical(a)
    ensures !(page <= a < page + TWO_12)
  {
    CanonicalIsSignExtended(page);
    CanonicalIsSignExtended(a);
  }

  // ── Frames ────────────────────────────────────────────────────────────────

  /** A region of the boot memory map. */
  datatype Region = Region(base: nat, length: nat, usable: bool)

  /** The frames that begin in `base .. base + length`. */
  function FramesOf(base: nat, length: nat): seq<Frame>
    decreases length
  {
    if length == 0 then [] else [base] + FramesOf(base + TWO_12, if length < TWO_12 then 0 else length - TWO_12)
  }

  function RegionFrames(r: Region): seq<Frame> {
    if r.usable then FramesOf(r.base, r.length) else []
  }

  /** The order in which the allocator hands frames out. */
  function UsableFrames(regions: seq<Region>): seq<Frame> {
    if regions == [] then [] else RegionFrames(regions[0]) + UsableFrames(regions[1..])
  }

  predicate Disjoint(p: Region, q: Region) {
    p.base + p.length <= q.base || q.base + q.length <= p.base
  }

  lemma {:induction false} FramesOfRange(base: nat, length: nat, i: nat)
    requires i < |FramesOf(base, length)|
    ensures FramesOf(base, length)[i] == base + i * TWO_12 < base + length
    decreases length
  {
    if i > 0 {
      FramesOfRange(base + TWO_12, if length < TWO_12 then 0 else length - TWO_12, i - 1);
    }
  }

  lemma {:induction false} FramesOfCount(base: nat, length: nat, i: nat)
    ensures i < |FramesOf(base, length)| <==> i * TWO_12 < length
    decreases length
  {
    if length > 0 && i > 0 {
      FramesOfCount(base + TWO_12, if length < TWO_12 then 0 else length - TWO_12, i - 1);
    }
  }

  /** An address at which a frame of the region begins. */
  predicate FrameIn(r: Region, a: Frame) {
    r.usable && r.base <= a < r.base + r.length && (a - r.base) % TWO_12 == 0
  }

  lemma {:induction false} RegionFramesExact(r: Region, a: Frame)
    ensures a in RegionFrames(r) <==> FrameIn(r, a)
  {
    if a in RegionFrames(r) {
      var i :| 0 <= i < |RegionFrames(r)| && RegionFrames(r)[i] == a;
      FramesOfRange(r.base, r.length, i);
    }
    if FrameIn(r, a) {
      var i := (a - r.base) / TWO_12;
      FramesOfCount(r.base, r.length, i);
      FramesOfRange(r.base, r.length, i);
    }
  }

  /** The allocator hands out the frames of the usable regions, all of them and no others. */
  lemma {:induction false} UsableFramesExact(regions: seq<Region>, a: Frame)
    ensures a in UsableFrames(regions) <==> exists k :: 0 <= k < |regions| && FrameIn(regions[k], a)
    decreases |regions|
  {
    if regions != [] {
      RegionFramesExact(regions[0], a);
      UsableFramesExact(regions[1..], a);
      if exists k :: 0 <= k < |regions| && FrameIn(regions[k], a) {
        var k :| 0 <= k < |regions| && FrameIn(regions[k], a);
        assert k > 0 ==> FrameIn(regions[1..][k - 1], a);
      }
      if a in UsableFrames(regions[1..]) {
        var k :| 0 <= k < |regions[1..]| && FrameIn(regions[1..][k], a);
        assert FrameIn(regions[k + 1], a);
      }
    }
  }

  lemma {:induction false} UsableFrom(regions: seq<Region>, j: nat) returns (k: nat)
    requires j < |UsableFrames(regions)|
    ensures k < |regions| && Holds(regions[k], UsableFrames(regions)[j])
    decreases |regions|
  {
    var first := RegionFrames(regions[0]);
    if j < |first| {
      FramesOfRange(regions[0].base, regions[0].length, j);
      k := 0;
    } else {
      k := UsableFrom(regions[1..], j - |first|);
      k := k + 1;
    }
  }

  predicate Holds(r: Region, a: Frame) {
    r.usable && r.base <= a < r.base + r.length
  }

  lemma {:induction false} RegionFramesDistinct(r: Region, i: nat, j: nat)
    requires i < j < |RegionFrames(r)|
    ensures RegionFrames(r)[i] != RegionFrames(r)[j]
  {
    FramesOfRange(r.base, r.length, i);
    FramesOfRange(r.base, r.length, j);
  }

  /** The allocator never hands a frame out twice if the usable regions do not overlap. */
  lemma {:induction false} UsableFramesDistinct(regions: seq<Region>)
    requires forall i, j :: 0 <= i < j < |regions| && regions[i].usable && regions[j].usable ==>
               Disjoint(regions[i], regions[j])
    ensures Distinct(UsableFrames(regions))
    decreases |regions|
  {
    if regions != [] {
      UsableFramesDistinct(regions[1..]);
      var first, rest := RegionFrames(regions[0]), UsableFrames(regions[1..]);
      forall i, j | 0 <= i < |first| && 0 <= j < |rest| ensures first[i] != rest[j] {
        FramesOfRange(regions[0].base, regions[0].length, i);
        var k := UsableFrom(regions[1..], j);
        assert Disjoint(regions[0], regions[k + 1]);
      }
      forall i, j | 0 <= i < j < |first| ensures first[i] != first[j] {
        RegionFramesDistinct(regions[0], i, j);
      }
    }
  }
}
