/** Translation of addresses in pages of all three sizes. */
module PageSizes {
  import opened Prelude
  import opened Arithmetic
  import opened PageWalk
  import opened PageMap
  import opened PageAddress

  /** How many 4 KiB pages an entry of level `l` maps. */
  function Pages(l: nat): (n: nat)
    ensures 0 < n
  {
    if l <= 1 then 1 else 512 * Pages(l - 1)
  }

  /** How many bytes it maps. */
  function Size(l: nat): nat {
    0x1000 * Pages(l)
  }

  // ── Pages within a page ───────────────────────────────────────────────────

  lemma {:induction false} TwoDigits(v: nat)
    ensures v % 0x4_0000 == 0 <==> v % 512 == 0 && v / 512 % 512 == 0
    ensures v / 0x4_0000 == v / 512 / 512
  {
  }

  /** A page of level `l` begins at a multiple of its size. */
  lemma {:induction false} AlignedIsMultiple(v: nat, l: nat)
    requires 1 <= l <= 3
    ensures Aligned(v, l - 1) <==> v % Pages(l) == 0
    ensures High(v, l - 1) == v / Pages(l)
  {
    TwoDigits(v);
    assert High(v, 0) == v && High(v, 1) == v / 512 && High(v, 2) == High(v, 1) / 512;
    assert Pages(1) == 1 && Pages(2) == 512 * Pages(1) && Pages(3) == 512 * Pages(2);
    assert Aligned(v, 0) && Aligned(v, 1) == (v % 512 == 0);
    assert Aligned(v, 2) == (Digit(v, 2) == 0 && Aligned(v, 1)) && Digit(v, 2) == v / 512 % 512;
  }

  lemma {:induction false} SameQuotient(v: nat, w: nat, n: nat)
    requires 0 < n && v % n == 0
    ensures w / n == v / n <==> v <= w < v + n
  {
    DivBounds(v, n);
    DivBounds(w, n);
    if v <= w < v + n {
      QuotientUnique(w, n, v / n, w - v);
    }
  }

  lemma {:induction false} SamePageExact(v: nat, w: nat, l: nat)
    requires 1 <= l <= 3 && Aligned(v, l - 1)
    ensures SamePage(v, w, l) <==> v <= w < v + Pages(l)
  {
    AlignedIsMultiple(v, l);
    AlignedIsMultiple(w, l);
    SameQuotient(v, w, Pages(l));
  }

  /** No page lies on both sides of the gap in the canonical addresses. */
  lemma {:induction false} BesideGap(v: nat, l: nat)
    requires 1 <= l <= 3 && Aligned(v, l - 1) && v < PAGES
    ensures v + Pages(l) <= HALF || HALF <= v
    ensures v + Pages(l) <= PAGES
  {
    AlignedIsMultiple(v, l);
    assert Pages(2) == 512 && Pages(3) == 0x4_0000;
  }

  /** The addresses of a page are the canonical ones whose page number lies in it. */
  lemma {:induction false} InBlock(v: nat, l: nat, a: nat)
    requires 1 <= l <= 3 && Aligned(v, l - 1) && v < PAGES && a < TWO_64
    ensures AddressOf(v) <= a < AddressOf(v) + Size(l) <==> Canonical(a) && SamePage(v, PageNumber(a), l)
  {
    AddressClosed(v);
    BesideGap(v, l);
    SamePageExact(v, PageNumber(a), l);
    CanonicalIsSignExtended(a);
    if Canonical(a) {
      AddressOfPage(a);
      AddressClosed(PageNumber(a));
    }
  }

  lemma {:induction false} OffsetIs(v: nat, l: nat, a: nat)
    requires 1 <= l <= 3 && Aligned(v, l - 1) && v < PAGES && AddressOf(v) <= a < AddressOf(v) + Size(l)
    ensures a % Span(l) == a - AddressOf(v)
  {
    AddressClosed(v);
    AlignedIsMultiple(v, l);
    assert Pages(2) == 512 && Pages(3) == 0x4_0000;
    MultipleOffset(v, l, a - AddressOf(v));
  }

  lemma {:induction false} MultipleOffset(v: nat, l: nat, o: nat)
    requires 1 <= l <= 3 && v % Pages(l) == 0 && o < Size(l)
    ensures (v * 0x1000 + o) % Span(l) == o && (v * 0x1000 + (TWO_64 - TWO_48) + o) % Span(l) == o
  {
    assert Span(l) == Size(l);
    Scaled(v, v / Pages(l), 0, o, l);
  }

  /** The remainder of an address in either half, its page number divided with remainder. */
  lemma {:induction false} Scaled(v: nat, q: nat, r: nat, o: nat, l: nat)
    requires 1 <= l <= 3 && v == q * Pages(l) + r && r * 0x1000 + o < Size(l)
    ensures (v * 0x1000 + o) % Size(l) == r * 0x1000 + o
    ensures (v * 0x1000 + (TWO_64 - TWO_48) + o) % Size(l) == r * 0x1000 + o
  {
    assert Pages(1) == 1 && Pages(2) == 512 * Pages(1) && Pages(3) == 512 * Pages(2);
    var high := if l == 1 then 0xF_FFF0_0000_0000 else if l == 2 then 0x7FF_F800_0000 else 0x3_FFFC_0000;
    QuotientUnique(v * 0x1000 + o, Size(l), q, r * 0x1000 + o);
    QuotientUnique(v * 0x1000 + (TWO_64 - TWO_48) + o, Size(l), q + high, r * 0x1000 + o);
  }

  // ── Translation ───────────────────────────────────────────────────────────

  lemma {:induction false} ResolveByDigits(m: Tables, f: Frame, level: nat, v: nat, w: nat)
    requires Resolve(m, f, level, v).Some? && 0 < Resolve(m, f, level, v).value.level
    requires SamePage(v, w, Resolve(m, f, level, v).value.level)
    ensures Resolve(m, f, level, w) == Resolve(m, f, level, v)
    decreases level
  {
    var e, l := m[f][Digit(v, level)], Resolve(m, f, level, v).value.level;
    ResolveLevel(m, f, level, v);
    SameDigits(v, w, l - 1, level);
    if !EndsWalk(e, level) {
      ResolveByDigits(m, e.address, level - 1, v, w);
    }
  }

  lemma {:induction false} ResolveLevel(m: Tables, f: Frame, level: nat, v: nat)
    requires Resolve(m, f, level, v).Some?
    ensures 1 <= Resolve(m, f, level, v).value.level <= level
            && (level <= 4 ==> Resolve(m, f, level, v).value.level < 4)
    decreases level
  {
    var e := m[f][Digit(v, level)];
    if !EndsWalk(e, level) {
      ResolveLevel(m, e.address, level - 1, v);
    }
  }

  /** Where a page of any size is mapped, each of its addresses translates to the frame plus the offset in the page. */
  lemma {:induction false} PageTranslates(m: Tables, root: Frame, v: nat, base: Frame, l: nat, a: nat)
    requires Resolve(m, root, 4, v) == Some(Leaf(base, l)) && v < PAGES && a < TWO_64
    ensures 1 <= l <= 3
    ensures Aligned(v, l - 1) && AddressOf(v) <= a < AddressOf(v) + Size(l) ==>
              Translate(m, root, a) == Some(base + (a - AddressOf(v)))
  {
    ResolveLevel(m, root, 4, v);
    if Aligned(v, l - 1) && AddressOf(v) <= a < AddressOf(v) + Size(l) {
      InBlock(v, l, a);
      ResolveByDigits(m, root, 4, v, PageNumber(a));
      OffsetIs(v, l, a);
    }
  }

  lemma {:induction false} AlignedAddress(page: nat, l: nat)
    requires page < TWO_64 && Canonical(page) && page % TWO_12 == 0 && 1 <= l <= 3
    ensures Aligned(PageNumber(page), l - 1) <==> page % Size(l) == 0
    ensures AddressOf(PageNumber(page)) == page
  {
    AddressOfPage(page);
    var v := PageNumber(page);
    AddressClosed(v);
    AlignedIsMultiple(v, l);
    assert Pages(2) == 512 && Pages(3) == 0x4_0000;
    WholeMultiple(v, l);
  }

  lemma {:induction false} WholeMultiple(v: nat, l: nat)
    requires 1 <= l <= 3
    ensures v * 0x1000 % Size(l) == 0 <==> v % Pages(l) == 0
    ensures (v * 0x1000 + (TWO_64 - TWO_48)) % Size(l) == v * 0x1000 % Size(l)
  {
    assert Pages(1) == 1 && Pages(2) == 512 * Pages(1) && Pages(3) == 512 * Pages(2);
    Scaled(v, v / Pages(l), v % Pages(l), 0, l);
  }

  /**
   * Unmapping answers by what is mapped and where: an address that is not mapped, or not at the beginning of the page
   * that is, changes nothing; otherwise exactly the addresses of that page, of whatever size, no longer translate.
   */
  lemma {:induction false} UnmapTranslates(frames: seq<Frame>, st: State, own: Owners, root: Frame, page: nat, a: nat)
    requires Inv(frames, st, own) && IsRoot(own, root)
    requires page < TWO_64 && Canonical(page) && page % TWO_12 == 0 && a < TWO_64
    ensures var s, leaf := Unmap(st, root, 4, PageNumber(page)), At(st, root, PageNumber(page));
            if leaf.None? then s == Step(st, NonExistentMapping)
            else if page % Size(leaf.value.level) != 0 then s == Step(st, Panicked)
            else
              && s.outcome == Ok
              && Translate(s.st.tables, root, a) ==
                   if page <= a < page + Size(leaf.value.level) then None else Translate(st.tables, root, a)
  {
    var v := PageNumber(page);
    UnmapLemma(frames, st, own, root, v);
    if At(st, root, v).Some? {
      var l := At(st, root, v).value.level;
      AlignedAddress(page, l);
      if Aligned(v, l - 1) {
        ClearedTranslates(st, Unmap(st, root, 4, v).st, own, root, v, l, a);
      }
    }
  }

  lemma {:induction false} ClearedTranslates(st: State, st': State, own: Owners, root: Frame, v: nat, l: nat, a: nat)
    requires 1 <= l <= 3 && Aligned(v, l - 1) && v < PAGES && a < TWO_64 && IsRoot(own, root)
    requires Cleared(st, st', own, root, v, l)
    ensures Translate(st'.tables, root, a) ==
              if AddressOf(v) <= a < AddressOf(v) + Size(l) then None else Translate(st.tables, root, a)
  {
    InBlock(v, l, a);
    assert At(st', root, PageNumber(a)) == if SamePage(v, PageNumber(a), l) then None else At(st, root, PageNumber(a));
  }
}
