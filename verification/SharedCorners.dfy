/**
  Concrete runs of a shared cache into the corners that the contracts of its operations delimit.
 */
module SharedCorners {
  import opened Layout
  import opened SharedState
  import opened SharedSteps
  import opened SharedSpec
  import opened SharedMarks
  import opened SharedCache

  /** A cache of basic blocks in one unit of `size` bytes, with slots aligned to `align`. */
  method NewCache(size: int, align: int) returns (c: Cache)
    requires 0 < size && size % PAGE_SIZE == 0 && align in {4, 64}
    ensures fresh(c) && c.Stable() && c.p == Params(false, true, align, false, size, PAGE_SIZE)
    ensures c.live == [PAGE_SIZE] && c.slots == map[] && c.mem.frags == map[]
    ensures c.units == map[PAGE_SIZE := Unit(PAGE_SIZE, PAGE_SIZE + size, PAGE_SIZE + size, false)]
  {
    var v := Unit(PAGE_SIZE, PAGE_SIZE + size, PAGE_SIZE + size, false);
    c := new Cache(Params(false, true, align, false, size, PAGE_SIZE), PAGE_SIZE, v);
  }

  /** The corner in which adding a fragment does lose the division into slots: an unused 64KB unit
      and a fragment of the maximum size. The rest of the unit is one byte too large for a free
      entry, so it is claimed without a header. */
  method UnitLeftBehind() returns (c: Cache)
    ensures c.Usable() && !c.Stable()
  {
    var size := 0x10000;
    c := NewCache(size, 4);
    var f := 16 * size;
    c.AllocFragment(f, MAX_FRAGMENT_SIZE);
    var g := 2 * size;
    assert SlotRequest(c.p.align, MAX_FRAGMENT_SIZE) == 65544;
    assert NewUnitSize(c.p.maxUnitSize, 65544) == 33 * PAGE_SIZE;
    c.AddFragment(f, false, g, Unit(g, g + 33 * PAGE_SIZE, g + 33 * PAGE_SIZE, false));
  }

  /** The cache has one unit, at PAGE_SIZE, of `size` bytes. */
  ghost predicate InOneUnit(c: Cache, size: int)
    reads c
  {
    && c.Stable() && c.live == [PAGE_SIZE] && c.units.Keys == {PAGE_SIZE}
    && c.units[PAGE_SIZE].reservedEndPc == PAGE_SIZE + size
  }

  /** The slots before and after a fragment was added at the end of that unit. */
  ghost predicate Grew(p: Params, o: Slots, st: State, f: int, size: int, pc: int) {
    && AppendedAt(o, st.slots, f, pc) && st.slots[pc].unit == PAGE_SIZE
    && size <= st.slots[pc].size < size + p.MinUnitEndHole()
    && PAGE_SIZE in st.units && st.units[PAGE_SIZE].curPc == End(st.slots, pc)
  }

  /** A new fragment is added to a cache that has room at its end and no free entry. */
  method Add(c: Cache, f: int, size: int, unitSize: int)
    requires InOneUnit(c, unitSize) && 0 <= size <= MAX_FRAGMENT_SIZE
    requires 0 < PAGE_SIZE + unitSize <= f && f !in c.mem.frags
    requires AllLive(c.slots)
    requires SlotRequest(c.p.align, size) <= c.Gap()
    modifies c
    ensures InOneUnit(c, unitSize) && AllLive(c.slots)
    ensures Grew(c.p, old(c.slots), c.S(), f, SlotRequest(c.p.align, size), old(c.units[PAGE_SIZE].curPc))
    ensures c.mem.frags.Keys == old(c.mem.frags).Keys + {f} && c.mem.frags[f].size == size
    ensures SizesKept(old(c.mem.frags), c.mem.frags)
  {
    hide Inv, Book, AppendClear, RoomOk, Settled, NonFree, Unmarked, FragsKept, Gains;
    hide AppendedAt, AllLive, TakesEntry, SizesKept;
    UnitFacts(c.p, c.S(), PAGE_SIZE);
    NoFit(c.slots, SlotRequest(c.p.align, size));
    c.AllocFragment(f, size);
    ghost var st := c.S();
    c.AddFragment(f, false, 0, Unit(0, 0, 0, false));
    SizesAllocated(old(c.mem.frags), f, st.mem.frags);
    Added(c.p, st, c.S(), f, SlotRequest(c.p.align, size));
  }

  ghost predicate SizesKept(o: map<int, Fragment>, n: map<int, Fragment>) {
    forall g :: g in o ==> g in n && n[g].size == o[g].size
  }

  lemma SizesAllocated(o: map<int, Fragment>, f: int, n: map<int, Fragment>)
    requires f !in o && f in n && n == o[f := n[f]]
    ensures SizesKept(o, n)
  {
  }

  lemma SizesAdded(o: map<int, Fragment>, f: int, n: map<int, Fragment>)
    requires FragsKept(o, n, f)
    ensures n.Keys == o.Keys && SizesKept(o, n)
  {
    var uo, un := Unmarked(o) - {f}, Unmarked(n) - {f};
    forall g | g != f
      ensures g in n <==> g in o
      ensures g in o ==> n[g].size == o[g].size
    {
      assert g in un <==> g in uo;
      assert g in uo ==> un[g] == uo[g];
    }
  }

  ghost predicate AllLive(s: Slots) {
    forall a :: a in s ==> s[a].kind.Live?
  }

  lemma AllNonFree(s: Slots)
    requires AllLive(s)
    ensures NonFree(s) == s
  {
    forall a ensures a in NonFree(s) <==> a in s {
    }
  }

  lemma NoFit(s: Slots, size: int)
    requires AllLive(s)
    ensures !HasFit(s, size)
  {
  }

  /** What adding at the append point of the only unit gives. */
  lemma Added(p: Params, st: State, st': State, f: int, size: int)
    requires Inv(p, st) && Inv(p, st') && st.units.Keys == st'.units.Keys == {PAGE_SIZE}
    requires Settled(st.units, st.tops) && Settled(st'.units, st'.tops) && AllLive(st.slots)
    requires AppendedAt(st.slots, st'.slots, f, st.units[PAGE_SIZE].curPc) && Gains(p, st.slots, st'.slots, f, size)
    requires FragsKept(st.mem.frags, st'.mem.frags, f)
    ensures Grew(p, st.slots, st', f, size, st.units[PAGE_SIZE].curPc) && AllLive(st'.slots)
    ensures st'.mem.frags.Keys == st.mem.frags.Keys && f in st.mem.frags
    ensures st'.mem.frags[f].size == st.mem.frags[f].size
    ensures forall o {:trigger SizesKept(o, st.mem.frags)} :: SizesKept(o, st.mem.frags) ==> SizesKept(o, st'.mem.frags)
  {
    var pc := st.units[PAGE_SIZE].curPc;
    assert Inside(st'.slots, st'.tops, pc) && Chained(st'.slots, st'.tops, pc);
    assert Inside(st.slots, st.tops, End(st'.slots, pc));
    AllNonFree(st.slots);
    AllNonFree(st'.slots);
    var a :| a in st'.slots && st'.slots[a].kind == Live(f) && size <= st'.slots[a].size < size + p.MinUnitEndHole()
      && NonFree(st'.slots) == NonFree(st.slots)[a := st'.slots[a]];
    assert SlotOk(p, st'.mem, st'.slots, a) && SlotOk(p, st'.mem, st'.slots, pc);
    SizesAdded(st.mem.frags, f, st'.mem.frags);
  }

  /** A fragment of the maximum size is deleted. Its slot is too large for a free entry and stays
      behind, with a first word that points at the freed record. */
  method OversizeDangles() returns (c: Cache)
    ensures !c.Stable()
    ensures exists a, f :: a in c.slots && c.slots[a].kind == Live(f) && f !in c.mem.frags
  {
    c := NewCache(0x20000, 4);
    var f := 0x100000;
    assert SlotRequest(c.p.align, MAX_FRAGMENT_SIZE) == 65544;
    Add(c, f, MAX_FRAGMENT_SIZE, 0x20000);
    c.DeleteFragment(f, PAGE_SIZE);
  }

  /** The surplus of a fragment of the maximum size, all of whose code is not needed. */
  lemma MaxSurplus(p: Params, st: State, f: int)
    requires Inv(p, st) && p.align == 64 && !p.padShift
    requires PAGE_SIZE in st.slots && st.slots[PAGE_SIZE].kind == Live(f)
    requires f in st.mem.frags && st.mem.frags[f].size == MAX_FRAGMENT_SIZE
    requires 65600 <= st.slots[PAGE_SIZE].size < 65664
    ensures HasSurplus(p, st.mem.frags[f], MAX_FRAGMENT_SIZE)
    ensures SurplusOf(p, st.mem.frags[f], MAX_FRAGMENT_SIZE).returnable == 65536
  {
    PlacedFacts(p, st, PAGE_SIZE, f);
  }

  /** A fragment of the maximum size in a cache of 64-byte slots gives up all its code while another
      fragment stands behind it. The tail is one byte too large for a free entry and lost. */
  method TailLost() returns (c: Cache)
    ensures !c.Stable()
  {
    hide Inv, Book, AppendClear, RoomOk, Settled, NonFree, Unmarked, SurplusOf, HasSurplus;
    c := NewCache(0x40000, 64);
    var f, g := 0x100000, 0x200000;
    assert SlotRequest(c.p.align, MAX_FRAGMENT_SIZE) == 65600 && SlotRequest(c.p.align, 100) == 128;
    Add(c, f, MAX_FRAGMENT_SIZE, 0x40000);
    Add(c, g, 100, 0x40000);
    MaxSurplus(c.p, c.S(), f);
    var given := c.ReturnExtraSpace(f, MAX_FRAGMENT_SIZE, PAGE_SIZE);
  }

  /** A freed slot before a fragment, not merged with anything, becomes an entry of its own size. */
  lemma FreedAlone(s: Slots, a: int, q: int)
    requires a in s && s[a].size != 0 && HasNext(s, a) && !s[End(s, a)].kind.Free?
    ensures FreedSlots(Retag(s, a, Limbo), a, q, false, false) == Retag(s, a, Free)
    ensures AbsorbedSize(s, a) == s[a].size
  {
  }

  /** Fragments `f`, `g` and `h` side by side. */
  ghost predicate ThreeFragments(c: Cache, size: int, f: int, g: int, h: int, b: int, d: int)
    reads c
  {
    && InOneUnit(c, size)
    && c.slots.Keys == {PAGE_SIZE, b, d}
    && c.slots[PAGE_SIZE].kind == Live(f) && c.slots[b].kind == Live(g) && c.slots[d].kind == Live(h)
    && (forall a :: a in c.slots ==> c.slots[a].unit == PAGE_SIZE)
    && End(c.slots, PAGE_SIZE) == b && End(c.slots, b) == d < End(c.slots, d) == c.units[PAGE_SIZE].curPc
    && c.mem.frags.Keys == {f, g, h}
  }

  /** The slot sizes asked for in the next run. */
  lemma Requests(p: Params)
    requires p.Valid() && p.align == 4 && !p.padShift
    ensures SlotRequest(p.align, 36000) == 36008 && SlotRequest(p.align, 40000) == 40008
    ensures SlotRequest(p.align, 39000) == 39008 && SlotRequest(p.align, 100) == 108
  {
  }

  method AddThree(size: int, f: int, g: int, h: int) returns (c: Cache, ghost b: int, ghost d: int)
    requires size == 0x40000 && PAGE_SIZE + size <= f < g < h
    ensures fresh(c) && c.p == Params(false, true, 4, false, size, PAGE_SIZE)
    ensures ThreeFragments(c, size, f, g, h, b, d)
    ensures 36008 <= c.slots[PAGE_SIZE].size < 36100 && 40008 <= c.slots[b].size < 40100
  {
    hide Inv, Book, AppendClear, RoomOk, Settled, SizesKept, NonFree, Unmarked, Gains, Cache.Usable, SlotRequest;
    c := NewCache(size, 4);
    Requests(c.p);
    Add(c, f, 36000, size);
    b := c.units[PAGE_SIZE].curPc;
    Add(c, g, 40000, size);
    d := c.units[PAGE_SIZE].curPc;
    Add(c, h, 100, size);
  }

  /** Of two free entries the second is taken if the first is too small. */
  lemma SecondTaken(o: Slots, n: Slots, a: int, b: int, f: int, size: int)
    requires a in o && o[a].kind.Free? && o[a].size < size && a < b == End(o, a)
    requires forall x :: x in o && o[x].kind.Free? ==> x == a || x == b
    requires TakesEntry(o, n, f, size)
    ensures a in n && b in o && b in n && n[a] == o[a] && n[b].kind == Live(f) && n[b].unit == o[b].unit
  {
    var x :| TakenAt(o, n, f, size, x);
    assert x == b && a in o;
  }

  /** Two free entries too large to be merged, and a fragment in the second: it follows a free entry
      without being marked, which the consistency check of the free lists rules out. */
  method UnmarkedAfterFree() returns (c: Cache)
    ensures c.Stable()
    ensures exists a :: a in c.slots && c.slots[a].kind.Free? && HasNext(c.slots, a)
                     && c.slots[End(c.slots, a)].kind.Live? && !IsMarked(c.mem.frags, c.slots[End(c.slots, a)].kind)
  {
    hide Inv, Book, AppendClear, RoomOk, Settled, NonFree, Unmarked, FreedSlots;
    hide AbsorbedSize, TakesEntry, AppendedAt, Gains, SlotRequest, MarksExact, NoFreeAt, NoFreeBefore, FirstFit;
    var size, f, g, h, i := 0x40000, 0x100000, 0x200000, 0x300000, 0x400000;
    ghost var a := PAGE_SIZE;
    ghost var b, d;
    c, b, d := AddThree(size, f, g, h);
    FreeTwo(c, size, f, g, h, b, d);
    Requests(c.p);
    c.AllocFragment(i, 39000);
    ghost var s := c.slots;
    assert HasFit(s, 39008) by { assert s[b].kind.Free?; }
    c.AddFragment(i, false, 0, Unit(0, 0, 0, false));
    SecondTaken(s, c.slots, a, b, i, 39008);
  }

  /** Fragments `f` and `g` side by side, the second at the append point. */
  ghost predicate TwoFragments(c: Cache, size: int, f: int, g: int, b: int)
    reads c
  {
    && InOneUnit(c, size)
    && c.slots.Keys == {PAGE_SIZE, b} && c.slots[PAGE_SIZE].kind == Live(f) && c.slots[b].kind == Live(g)
    && (forall a :: a in c.slots ==> c.slots[a].unit == PAGE_SIZE)
    && PAGE_SIZE < End(c.slots, PAGE_SIZE) == b < End(c.slots, b) == c.units[PAGE_SIZE].curPc
    && c.mem.frags.Keys == {f, g} && MarksExact(c.mem.frags, c.slots)
  }

  method AddTwo(size: int, f: int, g: int) returns (c: Cache, ghost b: int)
    requires size == 0x40000 && PAGE_SIZE + size <= f < g
    ensures fresh(c) && c.p == Params(false, true, 4, false, size, PAGE_SIZE)
    ensures TwoFragments(c, size, f, g, b)
    ensures 36008 <= c.slots[PAGE_SIZE].size < 36100 && 40008 <= c.slots[b].size < 40100
  {
    hide Inv, Book, AppendClear, RoomOk, Settled, SizesKept, NonFree, Unmarked, Gains, SlotRequest, MarksExact;
    c := NewCache(size, 4);
    Requests(c.p);
    Add(c, f, 36000, size);
    b := c.units[PAGE_SIZE].curPc;
    Add(c, g, 40000, size);
    MarksAre(c.p, c.S());
  }

  /** Two neighbours too large to be merged are freed, the last of the unit second: the first is a free
      entry that ends at the append point. */
  method FreeBeforeAppend(size: int, f: int, g: int) returns (c: Cache)
    requires size == 0x40000 && PAGE_SIZE + size <= f < g
    ensures fresh(c) && c.p == Params(false, true, 4, false, size, PAGE_SIZE)
    ensures InOneUnit(c, size) && c.FreeAtAppend() && MarksExact(c.mem.frags, c.slots)
    ensures c.slots.Keys == {PAGE_SIZE} && c.slots[PAGE_SIZE].size < 36100 && c.mem.frags.Keys == {f, g}
    ensures c.units[PAGE_SIZE].curPc == End(c.slots, PAGE_SIZE)
  {
    hide Inv, Book, AppendClear, RoomOk, Settled, NonFree, Unmarked, FreedSlots, AbsorbedSize, MarksExact, NoFreeAt;
    ghost var b;
    c, b := AddTwo(size, f, g);
    ghost var s, fr := c.slots, c.mem.frags;
    ghost var q := c.RemoveFragment(f, PAGE_SIZE);
    FreedAlone(s, PAGE_SIZE, q);
    UnmarkedKeys(fr, c.mem.frags);
    ghost var s1, fr1 := c.slots, c.mem.frags;
    q := c.RemoveFragment(g, b);
    FreedLast(s1, b, q);
    UnmarkedKeys(fr1, c.mem.frags);
    assert Precedes(s1, PAGE_SIZE, b);
    OnlyEnd(c.slots, PAGE_SIZE, c.units[PAGE_SIZE].curPc, PAGE_SIZE);
  }

  lemma OnlyEnd(s: Slots, u: int, pc: int, a: int)
    requires s.Keys == {a} && !NoFreeAt(s, u, pc)
    ensures End(s, a) == pc
  {
  }

  /** A freed last slot, not merged with anything. */
  lemma FreedLast(s: Slots, a: int, q: int)
    requires a in s && s[a].size != 0 && !HasNext(s, a)
    ensures FreedSlots(Retag(s, a, Limbo), a, q, false, true) == s - {a}
    ensures AbsorbedSize(s, a) == s[a].size
  {
  }

  /** A fragment appended there follows a free entry without being marked. */
  method AppendedAfterFree() returns (c: Cache)
    ensures c.Stable() && !MarksExact(c.mem.frags, c.slots)
  {
    hide Inv, Book, AppendClear, RoomOk, Settled, NonFree, Unmarked, MarksExact, NoFreeAt, Gains, SlotRequest;
    c := FreeBeforeAppend(0x40000, 0x100000, 0x200000);
    Requests(c.p);
    c.AllocFragment(0x300000, 39000);
    c.AddFragment(0x300000, false, 0, Unit(0, 0, 0, false));
  }

  method FreeTwo(c: Cache, size: int, f: int, g: int, ghost h: int, ghost b: int, ghost d: int)
    requires ThreeFragments(c, size, f, g, h, b, d)
    requires c.slots[PAGE_SIZE].size <= MAX_FREE_ENTRY_SIZE && c.slots[b].size <= MAX_FREE_ENTRY_SIZE
    requires MAX_FREE_ENTRY_SIZE < c.slots[PAGE_SIZE].size + c.slots[b].size
    modifies c
    ensures c.Stable() && c.live == [PAGE_SIZE] && SameReservations(old(c.units), c.units)
    ensures c.slots == Retag(Retag(old(c.slots), PAGE_SIZE, Free), b, Free)
    ensures c.mem.frags.Keys == {f, g, h}
  {
    hide Inv, Book, AppendClear, RoomOk, Settled, NonFree, Unmarked, FreedSlots, AbsorbedSize;
    ghost var s := c.slots;
    ghost var q := c.RemoveFragment(f, PAGE_SIZE);
    FreedAlone(s, PAGE_SIZE, q);
    assert c.slots == Retag(s, PAGE_SIZE, Free);
    ghost var s1 := c.slots;
    q := c.RemoveFragment(g, b);
    FreedAlone(s1, b, q);
    UnmarkedKeys(old(c.mem.frags), c.mem.frags);
  }
}
