// Page directory entries of klibs/palloc.cpp: a 12-bit index of a 4 MB page
// and its flags, packed into 32 bits.
module PhysAddr {
  const PG_4MB_BASE: bv32 := 0x081
  const PG_GLOBAL: bv32 := 0x100
  const PG_WRITABLE: bv32 := 0x002
  const PG_USER: bv32 := 0x004
  const PAGES: nat := 4096

  datatype Pde = Pde(bits: bv32)

  const NO_PAGE := Pde(0)

  // The constructor from an index and flags.
  function Encode(pageIndex: bv16, flags: bv32): Pde {
    Pde(PG_4MB_BASE | (((pageIndex & 0x3ff) as bv32) << 22) | (((pageIndex & 0xc00) as bv32) << 3) | flags)
  }

  function IndexBits(p: Pde): bv16 {
    ((((p.bits & 0xffc00000) >> 22) | ((p.bits & 0x00006000) >> 3)) & 0xffff) as bv16
  }

  function FlagBits(p: Pde): bv32 {
    p.bits & 0x1fff
  }

  function PageIndex(p: Pde): (i: nat)
    ensures i < PAGES
  {
    (IndexBits(p) & 0xfff) as nat
  }

  function Present(p: Pde): bool {
    p.bits & 1 == 1
  }

  // Equality of entries, whatever the CPU did to the accessed and dirty bits.
  function SamePage(p: Pde, q: Pde): bool {
    p.bits & 0xFFFFFFBF & 0xFFFFFFDF == q.bits & 0xFFFFFFBF & 0xFFFFFFDF
  }

  function MarkGlobal(p: Pde): Pde {
    Pde(p.bits | PG_GLOBAL)
  }

  // The layout of an entry: ten bits of the page number on top, two more in bits
  // 13 and 14, and below the flags present and 4 MB.
  lemma EntryLayout(i: bv16, flags: bv32)
    ensures i < 0x400 ==> Encode(i, flags).bits == ((i as bv32) << 22) | 0x81 | flags
    ensures Encode(i, flags).bits & 0x6000 == ((((i >> 10) & 3) as bv32) << 13) | (flags & 0x6000)
  {
  }

  // Two entries are the same page exactly if setting the accessed and dirty bits
  // in both makes them equal.
  lemma SamePageIgnoresUse(p: Pde, q: Pde)
    requires SamePage(p, q)
    ensures p.bits | 0x60 == q.bits | 0x60
  {
  }

  lemma UseIgnoredIsSamePage(p: Pde, q: Pde)
    requires p.bits | 0x60 == q.bits | 0x60
    ensures SamePage(p, q)
  {
  }

  lemma GlobalIsMarked(p: Pde)
    ensures MarkGlobal(p).bits & 0x100 == 0x100 && (MarkGlobal(p).bits ^ p.bits) & !0x100 == 0
  {
  }

  // index() never sets more than twelve bits.
  lemma IndexIsTwelveBits(p: Pde)
    ensures IndexBits(p) & 0xf000 == 0
  {
  }

  // index() gives back the twelve low bits of the index the entry was made
  // with, mixed with whatever the flags put into the index field.
  lemma IndexOfEncode(i: bv16, flags: bv32)
    ensures IndexBits(Encode(i, flags)) == (i & 0xfff) | IndexBits(Pde(flags))
  {
  }

  // So an index is recovered exactly when it has at most twelve bits and the
  // flags stay out of the index field or repeat bits the index has anyway; if
  // they stay out, the flags are what flags() returns, with the two bits of a
  // present 4 MB page.
  lemma IndexIsRecovered(i: bv16, flags: bv32)
    ensures IndexBits(Encode(i, flags)) == i <==> i & 0xf000 == 0 && IndexBits(Pde(flags)) & !i == 0
    ensures i & 0xf000 == 0 && flags & 0xffffe000 == 0 ==>
              IndexBits(Encode(i, flags)) == i && FlagBits(Encode(i, flags)) == flags | PG_4MB_BASE
  {
    IndexOfEncode(i, flags);
    FlagsOfEncode(i, flags);
    FlagsOutsideIndex(flags);
    IndexIsTwelveBits(Pde(flags));
    OrIsSame(i, IndexBits(Pde(flags)));
    hide IndexBits;
    hide FlagBits;
    hide Encode;
  }

  lemma OrIsSame(i: bv16, j: bv16)
    requires j & 0xf000 == 0
    ensures (i & 0xfff) | j == i <==> i & 0xf000 == 0 && j & !i == 0
  {
  }

  lemma FlagsOutsideIndex(flags: bv32)
    ensures flags & 0xffffe000 == 0 ==> IndexBits(Pde(flags)) == 0
  {
  }

  lemma FlagsOfEncode(i: bv16, flags: bv32)
    ensures FlagBits(Encode(i, flags)) == (flags & 0x1fff) | PG_4MB_BASE
    ensures flags & 0xffffe000 == 0 ==> flags & 0x1fff == flags
    ensures Present(Encode(i, flags))
  {
  }

  // Entries that differ only in accessed and dirty bits, or in the global bit,
  // name the same page.
  lemma SamePageSameIndex(p: Pde, q: Pde)
    requires SamePage(p, q)
    ensures PageIndex(p) == PageIndex(q) && (Present(p) <==> Present(q))
  {
    SameBits(p, q);
    hide IndexBits;
    hide SamePage;
  }

  lemma SameBits(p: Pde, q: Pde)
    requires SamePage(p, q)
    ensures IndexBits(p) == IndexBits(q) && (Present(p) <==> Present(q))
  {
  }

  lemma GlobalSameIndex(p: Pde)
    ensures PageIndex(MarkGlobal(p)) == PageIndex(p) && (Present(MarkGlobal(p)) <==> Present(p))
  {
    GlobalBits(p);
    hide IndexBits;
    hide MarkGlobal;
  }

  lemma GlobalBits(p: Pde)
    ensures IndexBits(MarkGlobal(p)) == IndexBits(p) && (Present(MarkGlobal(p)) <==> Present(p))
  {
  }

  // An entry made from an allocated page names that page.
  lemma EntryNamesPage(page: bv16, flags: bv32)
    requires page & 0xf000 == 0 && flags & 0xffffe000 == 0
    ensures PageIndex(Encode(page, flags)) == page as nat && Present(Encode(page, flags))
  {
    hide IndexBits;
    hide Encode;
    hide FlagBits;
    hide Present;
    IndexIsRecovered(page, flags);
    FlagsOfEncode(page, flags);
    TwelveBits(page);
  }

  lemma TwelveBits(page: bv16)
    requires page & 0xf000 == 0
    ensures page & 0xfff == page
  {
  }

  // Different page numbers stay different when used to index a table.
  lemma IndexIsInjective(p: Pde, q: Pde)
    requires PageIndex(p) == PageIndex(q)
    ensures IndexBits(p) == IndexBits(q)
  {
    IndexIsTwelveBits(p);
    IndexIsTwelveBits(q);
    hide IndexBits;
    TwelveBits(IndexBits(p));
    TwelveBits(IndexBits(q));
    NumberIsInjective(IndexBits(p), IndexBits(q));
  }

  lemma NumberIsInjective(a: bv16, b: bv16)
    requires a as nat == b as nat
    ensures a == b
  {
    assert a as nat as bv16 == a;
  }
}
