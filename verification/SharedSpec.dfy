/**
  What the operations of a shared cache do to its layout, as functions of the layout, and the
  facts about them that the operations rely on.
 */
module SharedSpec {
  import opened Alignment
  import opened Layout
  import opened SharedState
  import opened SharedSteps

  /** The slots that are not on a free list. */
  ghost function NonFree(s: Slots): Slots {
    map a | a in s && !s[a].kind.Free? :: s[a]
  }

  /** The fragments with their after-free marks forgotten. */
  ghost function Unmarked(fr: map<int, Fragment>): map<int, Fragment> {
    map f | f in fr :: fr[f].(followsFree := false)
  }

  lemma UnmarkedKeys(o: map<int, Fragment>, n: map<int, Fragment>)
    requires Unmarked(n) == Unmarked(o)
    ensures n.Keys == o.Keys
  {
    assert n.Keys == Unmarked(n).Keys && o.Keys == Unmarked(o).Keys;
  }

  ghost predicate EndsAt(s: Slots, u: int, pc: int, a: int) {
    a in s && s[a].unit == u && s[a].kind.Free? && End(s, a) == pc
  }

  ghost predicate IsCurrent(live: seq<int>, u: int) {
    |live| > 0 && live[0] == u
  }

  /** Unit bookkeeping: only the most recent unit can have room at its end. */
  ghost predicate UnitBook(p: Params, us: map<int, Unit>, live: seq<int>, toFlush: seq<int>, u: int) {
    u in us ==>
      && (u in live || u in toFlush)
      && (us[u].full <==> us[u].curPc == us[u].endPc)
      && (us[u].full || IsCurrent(live, u))
      && p.maxUnitSize <= us[u].reservedEndPc - u
  }

  ghost predicate Book(p: Params, us: map<int, Unit>, live: seq<int>, toFlush: seq<int>) {
    && (forall u {:trigger UnitBook(p, us, live, toFlush, u)} :: UnitBook(p, us, live, toFlush, u))
    && (forall i :: 0 <= i < |live| ==> live[i] in us)
    && (forall i :: 0 <= i < |toFlush| ==> toFlush[i] in us)
    && (forall i, j :: 0 <= i < j < |live| ==> live[i] != live[j])
    && (forall i, j :: 0 <= i < j < |toFlush| ==> toFlush[i] != toFlush[j])
    && (forall i, j :: 0 <= i < |live| && 0 <= j < |toFlush| ==> live[i] != toFlush[j])
  }

  /** No free entry ends at the append point of the current unit, unless the unit is used up. */
  ghost predicate AppendClear(us: map<int, Unit>, live: seq<int>, s: Slots) {
    |live| > 0 && live[0] in us && Small(us, live[0]) && !UsedUp(us[live[0]]) ==>
      forall a {:trigger EndsAt(s, live[0], us[live[0]].curPc, a)} :: !EndsAt(s, live[0], us[live[0]].curPc, a)
  }

  ghost predicate UsedUp(v: Unit) {
    v.full && v.endPc == v.reservedEndPc
  }

  ghost predicate NoFreeBefore(s: Slots, a: int) {
    forall q {:trigger Precedes(s, q, a)} :: Precedes(s, q, a) ==> !s[q].kind.Free?
  }

  /** Is the slot after `a` a free entry that can be merged into it? */
  ghost predicate Absorbs(s: Slots, a: int)
    requires a in s
  {
    HasNext(s, a) && s[End(s, a)].kind.Free? && s[a].size + s[End(s, a)].size <= MAX_FREE_ENTRY_SIZE
  }

  ghost function AbsorbedNext(s: Slots, a: int): Slots
    requires a in s
  {
    if Absorbs(s, a) then Join(s, a) else s
  }

  ghost function AbsorbedSize(s: Slots, a: int): int
    requires a in s
  {
    if Absorbs(s, a) then s[a].size + s[End(s, a)].size else s[a].size
  }

  ghost function AbsorbedPrev(s: Slots, q: int): Slots
    requires q in s && End(s, q) in s
  {
    Join(Retag(s, q, Limbo), q)
  }

  lemma AbsorbNextEdges(s: Slots, t: Tops, a: int, q: int)
    requires Tiled(s, t) && a in s
    ensures Precedes(AbsorbedNext(s, a), q, a) ==> Precedes(s, q, a) && AbsorbedNext(s, a)[q] == s[q]
    ensures Precedes(s, q, a) ==> Precedes(AbsorbedNext(s, a), q, a)
  {
    assert Inside(s, t, a) && Inside(s, t, q);
    if HasNext(s, a) {
      assert Inside(s, t, End(s, a));
    }
  }

  /** The slot after the one at `s`, as memory shows it. */
  lemma NextFacts(p: Params, st: State, s: int)
    requires Inv(p, st) && s in st.slots && HasNext(st.slots, s)
    ensures var x := End(st.slots, s);
      && s < x < End(st.slots, x)
      && (st.slots[x].kind.Free? ==> x in st.mem.hdrs && st.mem.hdrs[x].size == st.slots[x].size)
      && (st.slots[x].kind.Live? ==>
           var f := st.slots[x].kind.node; f in st.mem.frags && x in st.mem.words && st.mem.words[x] == f)
      && (st.slots[x].kind.Free? && HasNext(st.slots, x) && Small(st.units, st.slots[x].unit) ==>
           var k := st.slots[End(st.slots, x)].kind; k.Limbo? || IsMarked(st.mem.frags, k))
  {
    var x := End(st.slots, s);
    assert Inside(st.slots, st.tops, s) && Inside(st.slots, st.tops, x);
    assert SlotOk(p, st.mem, st.slots, x) && EdgeOk(st.units, st.mem.frags, st.slots, x);
  }

  /** Merging with the next entry changes nothing before the slot and adds no free entry. */
  lemma AbsorbNextFacts(us: map<int, Unit>, live: seq<int>, o: Slots, t: Tops, s: int, q: int)
    requires Tiled(o, t) && s in o && !o[s].kind.Free? && AppendClear(us, live, o)
    ensures var n := AbsorbedNext(o, s);
      && AppendClear(us, live, n)
      && (NoFreeBefore(o, s) ==> NoFreeBefore(n, s))
      && (Precedes(o, q, s) ==> Precedes(n, q, s) && n[q] == o[q])
  {
    var n := AbsorbedNext(o, s);
    FewerFree(us, live, o, n);
    forall r ensures Precedes(n, r, s) ==> Precedes(o, r, s) && n[r] == o[r] {
      AbsorbNextEdges(o, t, s, r);
    }
    AbsorbNextEdges(o, t, s, q);
  }

  lemma AbsorbPrevClear(us: map<int, Unit>, live: seq<int>, o: Slots, q: int)
    requires q in o && End(o, q) in o && AppendClear(us, live, o)
    ensures AppendClear(us, live, AbsorbedPrev(o, q))
  {
    FewerFree(us, live, o, AbsorbedPrev(o, q));
  }

  /** A free entry that swallows its successor has no free entry before it. */
  lemma AbsorbPrevEdges(p: Params, st: State, q: int, a: int)
    requires Inv(p, st) && Precedes(st.slots, q, a) && st.slots[q].kind.Free? && Small(st.units, st.slots[q].unit)
    ensures NoFreeBefore(AbsorbedPrev(st.slots, q), q)
  {
    var s' := AbsorbedPrev(st.slots, q);
    forall r | Precedes(s', r, q) ensures !s'[r].kind.Free? {
      assert Inside(st.slots, st.tops, r) && Inside(st.slots, st.tops, q);
      assert EdgeOk(st.units, st.mem.frags, st.slots, r);
    }
  }

  /** A fragment about to be placed. */
  ghost predicate IsNew(f: Fragment) {
    0 <= f.size <= MAX_FRAGMENT_SIZE && !f.followsFree && !f.freeListBit
  }

  lemma PlaceNew(p: Params, st: State, s: int, f: int, frag: Fragment)
    requires Inv(p, st) && s in st.slots && st.slots[s].kind.Limbo? && MIN_FCACHE_SLOT_SIZE <= st.slots[s].size
    requires f in st.mem.frags && Unplaced(st.slots, f) && OffCache(st, f)
    requires IsNew(st.mem.frags[f]) && HEADER_SIZE <= st.slots[s].size - st.mem.frags[f].size <= 255
    requires MayPlace(st, s, st.mem.frags[f])
    requires frag == st.mem.frags[f].(startPc := s + HEADER_SIZE, extra := st.slots[s].size - st.mem.frags[f].size)
    ensures Inv(p, Placed(st, s, f, frag))
  {
    assert OnGrid(p, st.slots, s);
    NewFits(p, s, st.slots[s].size, frag);
    hide Inv;
    PlaceStep(p, st, s, f, frag);
  }

  lemma NewFits(p: Params, s: int, n: int, frag: Fragment)
    requires p.Valid() && s % p.align == 0 && frag.startPc == s + HEADER_SIZE && frag.extra == n - frag.size
    ensures HdrStart(p, frag) == s && SlotSize(p, frag) == n
  {
    if p.padShift {
      AlignedChain(s, p.align, START_PC_ALIGNMENT);
    }
  }

  /** Every slot other than the one at `s` is free or live. */
  ghost predicate OnlyLimbo(sl: Slots, s: int) {
    forall a {:trigger sl[a]} :: a in sl && a != s ==> !sl[a].kind.Limbo?
  }

  lemma LimboFromNonFree(o: Slots, n: Slots, s: int)
    requires OnlyLimbo(o, s) && s in n && NonFree(n) == NonFree(o)[s := n[s]]
    ensures OnlyLimbo(n, s)
  {
    forall a | a in n && a != s ensures !n[a].kind.Limbo? {
      if !n[a].kind.Free? {
        assert a in NonFree(n) && NonFree(n)[a] == n[a];
      }
    }
  }

  /** Every unit is divided into slots up to its append point. */
  ghost predicate Settled(us: map<int, Unit>, t: Tops) {
    forall u {:trigger us[u]} {:trigger t[u]} :: u in us && u in t ==> t[u] == us[u].curPc
  }

  ghost predicate SameReservations(o: map<int, Unit>, n: map<int, Unit>) {
    && n.Keys == o.Keys
    && forall u {:trigger n[u]} :: u in o && u in n ==>
         n[u].reservedEndPc == o[u].reservedEndPc && n[u].endPc == o[u].endPc
  }

  /** May an unmarked fragment stand at `s`? */
  ghost predicate Placeable(st: State, s: int)
    requires s in st.slots
  {
    && (Small(st.units, st.slots[s].unit) ==> NoFreeBefore(st.slots, s))
    && (HasNext(st.slots, s) ==> !IsMarked(st.mem.frags, st.slots[End(st.slots, s)].kind))
  }

  /** The tail of a split entry can be freed. */
  lemma SplitForFree(p: Params, st: State, s: int, size: int)
    requires Inv(p, st) && OnlyLimbo(st.slots, s) && s in st.slots && !st.slots[s].kind.Free?
    requires 0 < size < st.slots[s].size
    ensures var s1 := Split(st.slots, s, size);
      && NoFreeBefore(s1, s + size)
      && (HasNext(s1, s + size) ==> !s1[End(s1, s + size)].kind.Limbo?)
  {
    var s1 := Split(st.slots, s, size);
    SplitTiled(st.slots, st.tops, s, size);
    assert Inside(st.slots, st.tops, s);
    forall q | Precedes(s1, q, s + size) ensures !s1[q].kind.Free? {
      OnePredecessor(s1, st.tops, q, s, s + size);
    }
  }

  /** The layout after a split whose tail is freed. */
  lemma SplitFreed(o: Slots, t: Tops, s: int, size: int, last: bool)
    requires Tiled(o, t) && s in o && !o[s].kind.Free? && 0 < size < o[s].size
    ensures var r := FreedSlots(Split(o, s, size), s + size, 0, false, last);
      && s in r && r[s] == o[s].(size := size)
      && NonFree(r) == NonFree(o)[s := o[s].(size := size)]
      && (NoFreeBefore(o, s) ==> NoFreeBefore(r, s))
      && (HasNext(r, s) ==> r[End(r, s)].kind.Free?)
  {
    var s1 := Split(o, s, size);
    SplitTiled(o, t, s, size);
    assert Inside(o, t, s);
    FreedNonFree(s1, t, s + size, 0, false, last);
    FreedAfter(s1, t, s, s + size, last);
    assert NonFree(s1) - {s + size} == NonFree(o)[s := o[s].(size := size)];
    forall q | Precedes(s1, q, s) ensures Precedes(o, q, s) && s1[q].kind == o[q].kind {
      assert Inside(o, t, q) && Apart(o, s, q);
    }
  }

  /** Freeing the slot `b` right after `a` changes nothing up to `a`. */
  lemma FreedAfter(o: Slots, t: Tops, a: int, b: int, last: bool)
    requires Tiled(o, t) && Precedes(o, a, b) && !o[a].kind.Free? && o[b].kind.Limbo?
    ensures var r := FreedSlots(o, b, 0, false, last);
      && a in r && r[a] == o[a]
      && (NoFreeBefore(o, a) ==> NoFreeBefore(r, a))
      && (HasNext(r, a) ==> r[End(r, a)].kind.Free?)
  {
    var r := FreedSlots(o, b, 0, false, last);
    assert Inside(o, t, a) && Inside(o, t, b);
    assert HasNext(o, b) ==> Inside(o, t, End(o, b));
    forall q | Precedes(r, q, a) && NoFreeBefore(o, a) ensures !r[q].kind.Free? {
      assert Inside(o, t, q) && Apart(o, q, a);
      assert Precedes(o, q, a);
    }
  }

  ghost predicate HasFit(s: Slots, size: int) {
    exists a :: a in s && s[a].kind.Free? && size <= s[a].size
  }

  /** The first entry of a list that has `size` bytes, or 0. */
  ghost function FirstIn(l: seq<int>, s: Slots, size: int): int {
    if l == [] then 0 else if l[0] in s && size <= s[l[0]].size then l[0] else FirstIn(l[1..], s, size)
  }

  /** The entry a search from list `b` on finds, or 0. */
  ghost function FirstFit(lists: seq<seq<int>>, s: Slots, size: int, b: nat): int
    decreases |lists| - b
  {
    if b >= |lists| then 0
    else if FirstIn(lists[b], s, size) != 0 then FirstIn(lists[b], s, size)
    else FirstFit(lists, s, size, b + 1)
  }

  /** It is the first of its list that is large enough, and no list searched before has any. */
  lemma {:induction false} FirstInFirst(l: seq<int>, s: Slots, size: int, k: int)
    requires 0 !in l && 0 <= k < |l| && l[k] in s && size <= s[l[k]].size
    requires forall j :: 0 <= j < k ==> !(l[j] in s && size <= s[l[j]].size)
    ensures FirstIn(l, s, size) == l[k]
  {
    if k > 0 {
      FirstInFirst(l[1..], s, size, k - 1);
    }
  }

  lemma {:induction false} FirstInNone(l: seq<int>, s: Slots, size: int)
    requires 0 !in l
    ensures FirstIn(l, s, size) == 0 <==> forall j :: 0 <= j < |l| ==> !(l[j] in s && size <= s[l[j]].size)
  {
    if l != [] {
      FirstInNone(l[1..], s, size);
      assert forall j :: 0 < j < |l| ==> l[j] == l[1..][j - 1];
    }
  }

  /** The search ends at the first large enough entry of the first list from `b` on that has one. */
  lemma {:induction false} FirstFitFirst(lists: seq<seq<int>>, s: Slots, size: int, b: nat, c: nat, k: nat)
    requires forall i :: 0 <= i < |lists| ==> 0 !in lists[i]
    requires b <= c < |lists| && k < |lists[c]| && lists[c][k] in s && size <= s[lists[c][k]].size
    requires forall i, j :: b <= i <= c && 0 <= j < |lists[i]| && (i < c || j < k) ==>
               !(lists[i][j] in s && size <= s[lists[i][j]].size)
    ensures FirstFit(lists, s, size, b) == lists[c][k]
    decreases c - b
  {
    if b < c {
      FirstInNone(lists[b], s, size);
      FirstFitFirst(lists, s, size, b + 1, c, k);
    } else {
      FirstInFirst(lists[c], s, size, k);
      assert lists[c][k] in lists[c];
    }
  }

  /** How much of an entry a request takes: all of it, unless the rest is worth keeping. */
  ghost function Claimed(p: Params, entry: int, size: int): int {
    if entry - size > p.MinEmptyHole() then size else entry
  }

  /** Fragment `f` now has a slot of at least `size` bytes, with less to spare than would make a
      useful hole; every other fragment keeps its own. */
  ghost predicate Gains(p: Params, o: Slots, n: Slots, f: int, size: int) {
    exists a :: a in n && n[a].kind == Live(f) && size <= n[a].size < size + p.MinUnitEndHole()
      && NonFree(n) == NonFree(o)[a := n[a]]
  }

  /** Fragment `f` stands at `pc`, where there was no slot; all slots are as they were. */
  ghost predicate AppendedAt(o: Slots, n: Slots, f: int, pc: int) {
    pc !in o && pc in n && n[pc].kind == Live(f) && n == o[pc := n[pc]]
  }

  /** The slots below `a` are as they were. */
  ghost predicate SameBelow(o: Slots, n: Slots, a: int) {
    forall q {:trigger q in o} {:trigger q in n} :: q < a ==> (q in o <==> q in n) && (q in o ==> n[q] == o[q])
  }

  lemma BelowRetagged(o: Slots, a: int, k: Kind)
    requires a in o
    ensures SameBelow(o, Retag(o, a, k), a)
    ensures forall n {:trigger SameBelow(Retag(o, a, k), n, a)} :: SameBelow(Retag(o, a, k), n, a) ==>
        SameBelow(o, n, a)
  {
  }

  /** Fragment `f` stands where a large enough free entry was; nothing before it changed. */
  ghost predicate TakesEntry(o: Slots, n: Slots, f: int, size: int) {
    exists a :: TakenAt(o, n, f, size, a)
  }

  ghost predicate TakenAt(o: Slots, n: Slots, f: int, size: int, a: int) {
    && a in o && o[a].kind.Free? && size <= o[a].size
    && a in n && n[a].kind == Live(f) && n[a].unit == o[a].unit && SameBelow(o, n, a)
  }

  /** Only the marks of fragments other than `f` may have changed, and only the place of `f`. */
  ghost predicate FragsKept(o: map<int, Fragment>, n: map<int, Fragment>, f: int) {
    && f in o && f in n
    && n[f] == o[f].(startPc := n[f].startPc, extra := n[f].extra)
    && Unmarked(n) - {f} == Unmarked(o) - {f}
  }

  lemma FreeFacts(p: Params, st: State, a: int)
    requires Inv(p, st) && a in st.slots && st.slots[a].kind.Free?
    ensures a in st.mem.hdrs && st.mem.hdrs[a].size == st.slots[a].size <= MAX_FREE_ENTRY_SIZE
    ensures var u := st.slots[a].unit; u in st.units && u <= a < st.units[u].reservedEndPc
  {
    assert Inside(st.slots, st.tops, a) && UnitOk(p, st, st.slots[a].unit) && SlotOk(p, st.mem, st.slots, a);
  }

  /** In a small unit a free entry has no free entry before it. */
  lemma FreeAlone(p: Params, st: State, a: int)
    requires Inv(p, st) && a in st.slots && st.slots[a].kind.Free?
    ensures Small(st.units, st.slots[a].unit) ==> NoFreeBefore(Retag(st.slots, a, Limbo), a)
  {
    var s' := Retag(st.slots, a, Limbo);
    forall q | Precedes(s', q, a) && Small(st.units, st.slots[a].unit) ensures !s'[q].kind.Free? {
      assert Inside(st.slots, st.tops, a) && EdgeOk(st.units, st.mem.frags, st.slots, q);
    }
  }

  lemma OneUnit(p: Params, st: State, u: int, v: int, pc: int)
    requires Inv(p, st) && u in st.units && v in st.units
    requires u <= pc < st.units[u].reservedEndPc && v <= pc < st.units[v].reservedEndPc
    ensures u == v
  {
    assert UnitsApart(st, u, v) && UnitsApart(st, v, u);
  }

  /** The slots other than `s` kept their fragments, so `f` still has none. */
  lemma StillUnplaced(o: Slots, n: Slots, s: int, f: int)
    requires Unplaced(o, f) && s in n && n[s].kind.Limbo?
    requires NonFree(n) == NonFree(o)[s := n[s]]
    ensures Unplaced(n, f)
  {
    forall x | x in n ensures n[x].kind != Live(f) {
      if !n[x].kind.Free? && x != s {
        assert x in NonFree(n) && NonFree(n)[x] == n[x];
        assert o[x] == n[x];
      }
    }
  }

  lemma StillUnplacedFree(o: Slots, a: int)
    requires a in o && o[a].kind.Free?
    ensures NonFree(Retag(o, a, Limbo)) == NonFree(o)[a := o[a].(kind := Limbo)]
    ensures forall f {:trigger Unplaced(o, f)} :: Unplaced(o, f) ==> Unplaced(Retag(o, a, Limbo), f)
  {
    assert NonFree(Retag(o, a, Limbo)) == NonFree(o)[a := o[a].(kind := Limbo)];
    var n := Retag(o, a, Limbo);
    forall f | Unplaced(o, f) ensures Unplaced(n, f) {
      forall x | x in n ensures n[x].kind != Live(f) {
        assert o[x].kind != Live(f);
      }
    }
  }

  lemma PlaceableMayPlace(st: State, s: int, frag: Fragment)
    requires s in st.slots && Placeable(st, s) && !frag.followsFree
    ensures MayPlace(st, s, frag)
  {
  }

  lemma PlacedGains(p: Params, o: Slots, m: Slots, n: Slots, s: int, f: int, size: int)
    requires s in m && n == Retag(m, s, Live(f)) && size <= m[s].size <= size + p.MinEmptyHole()
    requires NonFree(m) == NonFree(o)[s := m[s]]
    requires s in o && o[s].kind.Free? && size <= o[s].size && m[s].unit == o[s].unit && SameBelow(o, m, s)
    ensures Gains(p, o, n, f, size) && TakesEntry(o, n, f, size)
  {
    assert TakenAt(o, n, f, size, s);
    assert NonFree(n) == NonFree(m)[s := n[s]];
  }

  ghost function CoalescedSlots(o: Slots, s: int, q: int, merge: bool): Slots
    requires s in o
  {
    var s1 := AbsorbedNext(o, s);
    if merge && q in s1 && End(s1, q) in s1 then AbsorbedPrev(s1, q) else s1
  }

  /** The layout after the slot at `s` is freed. */
  ghost function FreedSlots(o: Slots, s: int, q: int, merge: bool, last: bool): Slots
    requires s in o
  {
    var s2 := CoalescedSlots(o, s, q, merge);
    var a := if merge then q else s;
    if last then s2 - {a} else if a in s2 then Retag(s2, a, Free) else s2
  }

  /** A slot that may be freed, with the entry after it if they merge, fits an entry. */
  lemma AbsorbedFits(p: Params, st: State, s: int)
    requires Inv(p, st) && s in st.slots && st.slots[s].kind.Limbo? && st.slots[s].size <= MAX_FREE_ENTRY_SIZE
    requires MIN_FCACHE_SLOT_SIZE <= st.slots[s].size || Absorbs(st.slots, s)
    ensures Tiled(st.slots, st.tops) && Inside(st.slots, st.tops, s)
    ensures MIN_FCACHE_SLOT_SIZE <= AbsorbedSize(st.slots, s) <= MAX_FREE_ENTRY_SIZE
    ensures st.slots[s].size <= AbsorbedSize(st.slots, s)
  {
    assert Inside(st.slots, st.tops, s) && SlotOk(p, st.mem, st.slots, End(st.slots, s));
  }

  /** Merging with the entry before does not change what comes after. */
  lemma AbsorbedMayFree(st: State, s1: Slots, s: int, q: int, s2: int)
    requires s in s1 && s2 in st.slots
    requires (s2 == s && st.slots == s1) || (s2 == q && Precedes(s1, q, s) && st.slots == AbsorbedPrev(s1, q))
    requires 0 < s1[s].size
    requires HasNext(s1, s) && Small(st.units, s1[s].unit) ==>
               s1[End(s1, s)].kind.Limbo? || IsMarked(st.mem.frags, s1[End(s1, s)].kind)
    requires Small(st.units, s1[s].unit) ==> NoFreeBefore(st.slots, s2)
    ensures MayFree(st, s2)
  {
  }

  /** Freeing concerns the freed slot and free entries only. */
  lemma FreedNonFree(o: Slots, t: Tops, s: int, q: int, merge: bool, last: bool)
    requires Tiled(o, t) && s in o && o[s].kind.Limbo?
    requires merge ==> Precedes(o, q, s) && o[q].kind.Free?
    ensures NonFree(FreedSlots(o, s, q, merge, last)) == NonFree(o) - {s}
  {
    assert Inside(o, t, s) && Inside(o, t, q);
  }

  lemma FewerFree(us: map<int, Unit>, live: seq<int>, o: Slots, n: Slots)
    requires AppendClear(us, live, o)
    requires forall a :: a in n && n[a].kind.Free? ==> a in o && o[a] == n[a]
    ensures AppendClear(us, live, n)
  {
    if |live| > 0 && live[0] in us {
      var c := us[live[0]].curPc;
      forall a ensures EndsAt(n, live[0], c, a) ==> EndsAt(o, live[0], c, a) {
      }
    }
  }

  /** A slot has a successor exactly when the unit's append point lies beyond it. */
  lemma FreedEnd(p: Params, st: State, u: int, a: int)
    requires Inv(p, st) && u in st.units && a in st.slots && st.slots[a].unit == u
    requires st.tops[u] == st.units[u].curPc || (st.units[u].curPc == a && End(st.slots, a) == st.tops[u])
    ensures HasNext(st.slots, a) <==> End(st.slots, a) < st.units[u].curPc
  {
    assert Inside(st.slots, st.tops, a) && Chained(st.slots, st.tops, a);
    assert HasNext(st.slots, a) ==> Inside(st.slots, st.tops, End(st.slots, a));
  }

  lemma BookKept(p: Params, us: map<int, Unit>, live: seq<int>, toFlush: seq<int>, u: int, v: Unit)
    requires Book(p, us, live, toFlush) && u in us
    requires v.reservedEndPc == us[u].reservedEndPc
    requires v.full <==> v.curPc == v.endPc
    requires v.full || IsCurrent(live, u)
    ensures Book(p, us[u := v], live, toFlush)
  {
    var us' := us[u := v];
    forall w ensures UnitBook(p, us', live, toFlush, w) {
      assert UnitBook(p, us, live, toFlush, w) && UnitBook(p, us, live, toFlush, u);
    }
  }

  /** What the mark on a live fragment says about the slot before it. */
  lemma MarkMeans(us: map<int, Unit>, fr: map<int, Fragment>, s: Slots, t: Tops, a: int, f: int) returns (q: int)
    requires Tiled(s, t) && EdgesInv(us, fr, s) && OnlyLimbo(s, a)
    requires a in s && s[a].kind == Live(f) && f in fr
    ensures fr[f].followsFree ==> Precedes(s, q, a) && s[q].kind.Free?
    ensures !fr[f].followsFree && Small(us, s[a].unit) ==> NoFreeBefore(s, a)
  {
    q := a;
    if fr[f].followsFree {
      assert Inside(s, t, a) && Anchored(s, t, s[a].unit) && StartOk(fr, s, a);
      q := FindPredecessor(s, t, s[a].unit, a);
      assert EdgeOk(us, fr, s, q);
    } else {
      forall r | Precedes(s, r, a) && Small(us, s[a].unit) ensures !s[r].kind.Free? {
        assert EdgeOk(us, fr, s, r);
      }
    }
  }

  /** Putting a fragment's slot in limbo keeps what precedes it. */
  lemma Removable(p: Params, st: State, a: int, f: int, q: int)
    requires Inv(p, st) && a in st.slots && st.slots[a].kind == Live(f)
    ensures Unplaced(Retag(st.slots, a, Limbo), f)
    ensures Precedes(st.slots, q, a) && st.slots[q].kind.Free? ==>
              Precedes(Retag(st.slots, a, Limbo), q, a) && Retag(st.slots, a, Limbo)[q].kind.Free?
    ensures NoFreeBefore(st.slots, a) ==> NoFreeBefore(Retag(st.slots, a, Limbo), a)
    ensures NonFree(Retag(st.slots, a, Limbo)) - {a} == NonFree(st.slots) - {a}
  {
    var s' := Retag(st.slots, a, Limbo);
    assert SlotOk(p, st.mem, st.slots, a);
    forall x | x in s' ensures s'[x].kind != Live(f) {
      assert SlotOk(p, st.mem, st.slots, x);
    }
    forall r | Precedes(s', r, a) ensures Precedes(st.slots, r, a) {
    }
  }

  lemma LimboAbsorbs(s: Slots, a: int)
    requires a in s && s[a].size != 0
    ensures AbsorbedSize(Retag(s, a, Limbo), a) == AbsorbedSize(s, a)
  {
  }

  lemma LimboGone(o: Slots, n: Slots, a: int)
    requires forall x {:trigger o[x]} :: x in o ==> !o[x].kind.Limbo?
    requires NonFree(n) == NonFree(o) - {a}
    ensures forall x {:trigger n[x]} :: x in n ==> !n[x].kind.Limbo?
  {
    forall x | x in n ensures !n[x].kind.Limbo? {
      if !n[x].kind.Free? {
        assert x in NonFree(n) && NonFree(n)[x] == n[x] && n[x] == o[x];
      }
    }
  }

  // ----- returning the unused tail of a fragment's slot

  /** A placed fragment whose last `space` bytes are not needed. */
  ghost predicate HasSurplus(p: Params, f: Fragment, space: int) {
    && p.Valid() && FragOk(p, f) && 0 <= space <= f.size
    && HdrStart(p, f) % p.align == 0 && SlotSize(p, f) % p.align == 0
    && MIN_FCACHE_SLOT_SIZE <= SlotSize(p, f)
  }

  /** What fcache_return_extra_space computes for a shared fragment. */
  function SurplusOf(p: Params, f: Fragment, space: int): Surplus
    requires HasSurplus(p, f, space)
  {
    SurplusAt(p.align, HdrStart(p, f), SlotSize(p, f), f.extra, space)
  }

  /** The fragment that remains, with `k` of the returnable bytes kept. */
  lemma KeptFits(p: Params, f: Fragment, space: int, g: Fragment, k: int)
    requires HasSurplus(p, f, space)
    requires var r := SurplusOf(p, f, space);
      && g == f.(size := f.size - space, extra := HEADER_SIZE + r.slotPadding + r.minPadding + k)
      && (k == 0 || (k == r.returnable && k < p.MinUnitEndHole()))
    ensures FragOk(p, g) && SamePlace(p, f, g)
    ensures SlotSize(p, g) == SlotSize(p, f) - SurplusOf(p, f, space).returnable + k
  {
  }

  lemma PlacedSomewhere(s: Slots, a: int, f: int)
    requires a in s && s[a].kind == Live(f)
    ensures !Unplaced(s, f)
  {
  }

  /** What remains of the live slots belongs to other fragments. */
  lemma GoneUnplaced(o: Slots, n: Slots, a: int, f: int)
    requires Unplaced(o, f) && NonFree(n) == NonFree(o) - {a}
    ensures Unplaced(n, f)
  {
    forall x | x in n ensures n[x].kind != Live(f) {
      if !n[x].kind.Free? {
        assert x in NonFree(n) && NonFree(n)[x] == n[x] && n[x] == o[x];
      }
    }
  }

  /** Will the tail of the slot at `a` beyond `n` bytes merge with a free entry after it? */
  ghost predicate TailAbsorbs(s: Slots, a: int, n: int)
    requires a in s
  {
    && HasNext(s, a) && s[End(s, a)].kind.Free?
    && s[a].size - n + s[End(s, a)].size <= MAX_FREE_ENTRY_SIZE
  }

  /** `f` was rewritten as `frag`; of the others only marks may have changed. */
  ghost predicate FragsKeptBut(o: map<int, Fragment>, n: map<int, Fragment>, f: int, frag: Fragment) {
    && f in n && n[f].(followsFree := frag.followsFree) == frag
    && Unmarked(n) - {f} == Unmarked(o) - {f}
  }

  lemma KeptAfterMarks(o: map<int, Fragment>, n: map<int, Fragment>, f: int, frag: Fragment)
    requires Unmarked(n) == Unmarked(o[f := frag])
    ensures FragsKeptBut(o, n, f, frag)
  {
    var m := Unmarked(o[f := frag]);
    assert f in m && m[f] == frag.(followsFree := false);
    assert f in Unmarked(n) && f in n;
    assert m - {f} == Unmarked(o) - {f};
  }

  lemma RetractedKept(o: Slots, n: Slots, ofr: map<int, Fragment>, nfr: map<int, Fragment>, a: int, f: int,
                      frag: Fragment)
    requires a in o && a in n && n == o[a := n[a]] && o[a].kind.Live? && n[a].kind.Live?
    requires nfr == ofr[f := frag]
    ensures NonFree(n) == NonFree(o)[a := n[a]]
    ensures FragsKeptBut(ofr, nfr, f, frag)
  {
    KeptAfterMarks(ofr, nfr, f, frag);
  }

  ghost predicate NoFreeAt(s: Slots, u: int, pc: int) {
    forall a {:trigger EndsAt(s, u, pc, a)} :: !EndsAt(s, u, pc, a)
  }

  /** The space after the last slot of the current unit can become a free entry. */
  lemma FillReady(p: Params, st: State, live: seq<int>, u: int, n: int)
    requires Inv(p, st) && AppendClear(st.units, live, st.slots) && u in st.units && IsCurrent(live, u)
    requires st.tops[u] == st.units[u].curPc && !st.units[u].full && 0 < n
    ensures var s1 := Append(st.slots, st.tops, u, n);
      && st.tops[u] in s1 && !HasNext(s1, st.tops[u])
      && (Small(st.units, u) ==> NoFreeBefore(s1, st.tops[u]))
  {
    var pc, s1 := st.tops[u], Append(st.slots, st.tops, u, n);
    assert Inside(st.slots, st.tops, pc) && Inside(st.slots, st.tops, pc + n);
    forall q | Precedes(s1, q, pc) && Small(st.units, u) ensures !s1[q].kind.Free? {
      assert !EndsAt(st.slots, u, st.units[u].curPc, q);
    }
  }

  lemma TopAligned(p: Params, st: State, u: int)
    requires Inv(p, st) && u in st.units
    ensures st.tops[u] % p.align == 0
  {
    assert UnitOk(p, st, u);
    if st.tops[u] == u {
      AlignedChain(u, PAGE_SIZE, p.align);
    } else {
      var a := SlotOfByte(st.slots, st.tops, u, st.tops[u] - 1);
      assert OnGrid(p, st.slots, a) && Inside(st.slots, st.tops, a);
      AlignedSum(a, st.slots[a].size, p.align);
    }
  }

  /** A fragment appended to the current unit stands after no free entry. */
  lemma AppendReady(p: Params, st: State, live: seq<int>, u: int, n: int, f: int)
    requires Inv(p, st) && AppendClear(st.units, live, st.slots) && u in st.units && IsCurrent(live, u)
    requires st.tops[u] == st.units[u].curPc && !st.units[u].full && 0 < n && Unplaced(st.slots, f)
    ensures var st1 := st.(slots := Append(st.slots, st.tops, u, n), tops := st.tops[u := st.tops[u] + n]);
      && st.tops[u] in st1.slots && Placeable(st1, st.tops[u]) && Unplaced(st1.slots, f)
  {
    FillReady(p, st, live, u, n);
  }

  /** A new fragment `f` at the append point of unit `u`, before the append point passes it. */
  ghost function EndPlaced(st: State, u: int, n: int, f: int, frag: Fragment): State
    requires u in st.tops
  {
    var pc := st.tops[u];
    st.(mem := PlaceMem(st.mem, pc, n, f, frag),
        slots := st.slots[pc := Slot(n, u, Live(f))],
        tops := st.tops[u := pc + n])
  }

  lemma EndPlacedStep(p: Params, st: State, live: seq<int>, u: int, n: int, f: int, frag: Fragment)
    requires Inv(p, st) && AppendClear(st.units, live, st.slots) && u in st.units && IsCurrent(live, u)
    requires st.tops[u] == st.units[u].curPc && !st.units[u].full && st.tops[u] + n <= st.units[u].endPc
    requires MIN_FCACHE_SLOT_SIZE <= n && n % p.align == 0
    requires f in st.mem.frags && Unplaced(st.slots, f) && OffCache(st, f)
    requires IsNew(st.mem.frags[f]) && HEADER_SIZE <= n - st.mem.frags[f].size <= 255
    requires frag == st.mem.frags[f].(startPc := st.tops[u] + HEADER_SIZE, extra := n - st.mem.frags[f].size)
    ensures st.tops[u] !in st.slots
    ensures Inv(p, EndPlaced(st, u, n, f, frag))
    ensures NoFreeAt(EndPlaced(st, u, n, f, frag).slots, u, st.tops[u] + n)
    ensures AppendClear(st.units, live, EndPlaced(st, u, n, f, frag).slots)
  {
    TopAligned(p, st, u);
    AppendStep(p, st, u, n);
    AppendReady(p, st, live, u, n, f);
    var st1 := st.(slots := Append(st.slots, st.tops, u, n), tops := st.tops[u := st.tops[u] + n]);
    PlaceableMayPlace(st1, st.tops[u], st.mem.frags[f]);
    PlaceNew(p, st1, st.tops[u], f, frag);
    var st2 := EndPlaced(st, u, n, f, frag);
    assert st2 == Placed(st1, st.tops[u], f, frag);
    FewerFree(st.units, live, st.slots, st2.slots);
    var pc := st.tops[u] + n;
    forall a ensures !EndsAt(st2.slots, u, pc, a) {
      assert Inside(st.slots, st.tops, a);
    }
  }

  lemma AppendedGains(p: Params, o: Slots, n: Slots, pc: int, f: int, size: int,
                      ofr: map<int, Fragment>, nfr: map<int, Fragment>)
    requires pc !in o && pc in n && n[pc].kind == Live(f)
    requires size <= n[pc].size < size + p.MinUnitEndHole() && n == o[pc := n[pc]]
    requires f in ofr && f in nfr && nfr == ofr[f := nfr[f]]
    requires nfr[f] == ofr[f].(startPc := nfr[f].startPc, extra := nfr[f].extra)
    ensures Gains(p, o, n, f, size) && FragsKept(ofr, nfr, f)
  {
    assert NonFree(n) == NonFree(o)[pc := n[pc]];
    assert Unmarked(nfr) - {f} == Unmarked(ofr) - {f};
  }

  /** Moving one unit's append point together with its top. */
  lemma SettledSame(us: map<int, Unit>, t: Tops, us': map<int, Unit>, t': Tops, u: int)
    requires u in us && u in t && u in us' && u in t'
    requires us' == us[u := us'[u]] && t' == t[u := t'[u]]
    requires t[u] == us[u].curPc && t'[u] == us'[u].curPc
    requires us'[u].reservedEndPc == us[u].reservedEndPc && us'[u].endPc == us[u].endPc
    ensures Settled(us', t') <==> Settled(us, t)
    ensures SameReservations(us, us')
  {
    if Settled(us, t) {
      forall v | v in us' && v in t' ensures t'[v] == us'[v].curPc {
        assert v != u ==> t[v] == us[v].curPc;
      }
    }
    if Settled(us', t') {
      forall v | v in us && v in t ensures t[v] == us[v].curPc {
        assert v != u ==> t'[v] == us'[v].curPc;
      }
    }
  }

  lemma CommitClear(us: map<int, Unit>, live: seq<int>, s: Slots, t: Tops, u: int, v: Unit)
    requires AppendClear(us, live, s) && IsCurrent(live, u) && u in us
    requires v.curPc == us[u].curPc && v.reservedEndPc == us[u].reservedEndPc && us[u].endPc < v.reservedEndPc
    ensures AppendClear(us[u := v], live, s)
  {
  }

  lemma NoFreeBeyond(s: Slots, t: Tops, u: int, pc: int)
    requires Tiled(s, t) && u in t && t[u] <= pc
    ensures t[u] < pc ==> NoFreeAt(s, u, pc)
  {
    forall a ensures EndsAt(s, u, pc, a) ==> pc <= t[u] {
      assert Inside(s, t, a);
    }
  }

  /** A placed fragment and its slot. */
  lemma PlacedFacts(p: Params, st: State, a: int, f: int)
    requires Inv(p, st) && a in st.slots && st.slots[a].kind == Live(f)
    ensures f != 0 && f in st.mem.frags && FragOk(p, st.mem.frags[f])
    ensures HdrStart(p, st.mem.frags[f]) == a && SlotSize(p, st.mem.frags[f]) == st.slots[a].size
    ensures a % p.align == 0 && st.slots[a].size % p.align == 0 && MIN_FCACHE_SLOT_SIZE <= st.slots[a].size
    ensures st.slots[a].unit in st.units
    ensures st.slots[a].unit <= st.mem.frags[f].startPc < st.units[st.slots[a].unit].reservedEndPc
    ensures forall u :: u in st.units && u <= st.mem.frags[f].startPc < st.units[u].reservedEndPc ==>
        u == st.slots[a].unit
  {
    var v := st.slots[a].unit;
    assert SlotOk(p, st.mem, st.slots, a) && OnGrid(p, st.slots, a) && Inside(st.slots, st.tops, a);
    assert UnitOk(p, st, v);
    forall u | u in st.units && u <= st.mem.frags[f].startPc < st.units[u].reservedEndPc ensures u == v {
      OneUnit(p, st, u, v, st.mem.frags[f].startPc);
    }
  }

  /** A new unit heads the list; the oldest may move to the units waiting to be flushed. */
  lemma GrantBook(p: Params, us: map<int, Unit>, live: seq<int>, toFlush: seq<int>, g: int, v: Unit, flush: bool)
    requires Book(p, us, live, toFlush) && g !in us && |live| > 0 && live[0] in us && us[live[0]].full
    requires !v.full && v.curPc != v.endPc && p.maxUnitSize <= v.reservedEndPc - g
    ensures var k := |live| - 1;
      if flush then Book(p, us[g := v], [g] + live[..k], [live[k]] + toFlush)
      else Book(p, us[g := v], [g] + live, toFlush)
  {
    var k := |live| - 1;
    var us', live', flush' := us[g := v], if flush then [g] + live[..k] else [g] + live,
      if flush then [live[k]] + toFlush else toFlush;
    assert live == live[..k] + [live[k]];
    forall u ensures UnitBook(p, us', live', flush', u) {
      assert UnitBook(p, us, live, toFlush, u) && UnitBook(p, us, live, toFlush, live[0]);
    }
  }

  /** The cache's units after `g` was added, and those waiting to be flushed. */
  ghost function LiveAfter(live: seq<int>, g: int, flush: bool): seq<int> {
    [g] + if flush && live != [] then live[..|live| - 1] else live
  }

  ghost function QueueAfter(live: seq<int>, toFlush: seq<int>, flush: bool): seq<int> {
    if flush && live != [] then [live[|live| - 1]] + toFlush else toFlush
  }

  /** The unit that goes is the oldest: the others keep their order behind the new one. */
  lemma OldestGoes(live: seq<int>, toFlush: seq<int>, g: int)
    requires live != []
    ensures var l, q := LiveAfter(live, g, true), QueueAfter(live, toFlush, true);
      |q| == |toFlush| + 1 && q[1..] == toFlush && l + [q[0]] == [g] + live
    ensures LiveAfter(live, g, false) == [g] + live && QueueAfter(live, toFlush, false) == toFlush
  {
  }

  lemma GrantClear(p: Params, st: State, g: int, v: Unit, live: seq<int>)
    requires Inv(p, st) && g !in st.units && IsCurrent(live, g)
    ensures AppendClear(st.units[g := v], live, st.slots)
  {
    forall a, pc ensures !EndsAt(st.slots, g, pc, a) {
      assert Inside(st.slots, st.tops, a);
    }
  }

  ghost predicate SameLimits(o: map<int, Unit>, n: map<int, Unit>) {
    forall u {:trigger n[u]} :: u in o && u in n ==> n[u].reservedEndPc == o[u].reservedEndPc
  }

  /** Committing more of a unit does not move its append point. */
  lemma CommitSettled(us: map<int, Unit>, us': map<int, Unit>, t: Tops, u: int)
    requires u in us && u in us' && us' == us[u := us'[u]] && us'[u].curPc == us[u].curPc
    requires us'[u].reservedEndPc == us[u].reservedEndPc
    ensures Settled(us', t) <==> Settled(us, t)
    ensures SameLimits(us, us') && us'.Keys == us.Keys
  {
    if Settled(us, t) {
      forall v | v in us' && v in t ensures t[v] == us'[v].curPc {
        assert t[v] == us[v].curPc;
      }
    }
    if Settled(us', t) {
      forall v | v in us && v in t ensures t[v] == us[v].curPc {
        assert t[v] == us'[v].curPc;
      }
    }
  }

  /** Using up a unit keeps the cache divided into slots exactly when the rest could be freed. */
  lemma UsedUpSettled(us: map<int, Unit>, t: Tops, us': map<int, Unit>, t': Tops, u: int, ok: bool)
    requires u in us && u in t && u in us' && us' == us[u := us'[u]] && us'[u].reservedEndPc == us[u].reservedEndPc
    requires u in t' && t' == t[u := t'[u]]
    requires if us[u].curPc == us'[u].curPc then ok && t' == t
        else t[u] == us[u].curPc && (ok <==> t'[u] == us'[u].curPc)
    ensures Settled(us', t') <==> Settled(us, t) && ok
    ensures SameLimits(us, us') && us'.Keys == us.Keys
  {
    if Settled(us, t) && ok {
      forall w | w in us' && w in t' ensures t'[w] == us'[w].curPc {
        assert t[w] == us[w].curPc;
      }
    }
    if Settled(us', t') {
      assert t'[u] == us'[u].curPc;
      forall w | w in us && w in t ensures t[w] == us[w].curPc {
        assert t'[w] == us'[w].curPc;
      }
    }
  }

  lemma GrantSettled(us: map<int, Unit>, t: Tops, g: int, v: Unit)
    requires g !in us && v.curPc == g && us.Keys == t.Keys
    ensures Settled(us[g := v], t[g := g]) <==> Settled(us, t)
    ensures SameLimits(us, us[g := v])
  {
    var us2, t2 := us[g := v], t[g := g];
    if Settled(us2, t2) {
      forall w | w in us && w in t ensures t[w] == us[w].curPc {
        assert t2[w] == us2[w].curPc;
      }
    }
  }

  lemma UnitFacts(p: Params, st: State, u: int)
    requires Inv(p, st) && u in st.units
    ensures p.Valid() && Tiled(st.slots, st.tops)
    ensures st.tops.Keys == st.units.Keys && u <= st.tops[u] <= st.units[u].endPc <= st.units[u].reservedEndPc
  {
    assert UnitOk(p, st, u);
  }

  lemma UnitPages(p: Params, st: State, u: int)
    requires Inv(p, st) && u in st.units
    ensures p.Valid() && u in st.tops && 0 < u <= st.tops[u] <= st.units[u].endPc
    ensures u <= st.units[u].curPc <= st.units[u].endPc <= st.units[u].reservedEndPc
    ensures st.units[u].endPc % PAGE_SIZE == 0 && st.units[u].reservedEndPc % PAGE_SIZE == 0
  {
    assert UnitOk(p, st, u);
  }

  lemma GrantableKept(p: Params, st: State, st': State, g: int, v: Unit)
    requires Inv(p, st) && Inv(p, st') && Grantable(st, g, v)
    requires st'.units.Keys == st.units.Keys && SameLimits(st.units, st'.units)
    requires Unmarked(st'.mem.frags) == Unmarked(st.mem.frags)
    ensures g !in st.units && Grantable(st', g, v) && v.curPc == g
    ensures st'.units.Keys == st'.tops.Keys
  {
    GrantStep(p, st, g, v);
    forall f | f in st'.mem.frags ensures !(g <= f < v.reservedEndPc) {
      assert f in Unmarked(st'.mem.frags) && f in Unmarked(st.mem.frags);
      assert f in st.mem.frags && st.mem.frags[f] == st.mem.frags[f];
    }
    forall w | w in st'.units ensures st'.units[w].reservedEndPc <= g || v.reservedEndPc <= w {
      assert st.units[w].reservedEndPc == st'.units[w].reservedEndPc;
    }
  }

  lemma NoLimboKept(o: Slots, n: Slots)
    requires forall x {:trigger o[x]} :: x in o ==> !o[x].kind.Limbo?
    requires NonFree(n) == NonFree(o)
    ensures forall x {:trigger n[x]} :: x in n ==> !n[x].kind.Limbo?
  {
    forall x | x in n ensures !n[x].kind.Limbo? {
      if !n[x].kind.Free? {
        assert x in NonFree(n) && NonFree(n)[x] == n[x] && n[x] == o[x];
      }
    }
  }

  /** Fragments that have no slot are left alone. */
  ghost predicate IdleKept(o: map<int, Fragment>, n: map<int, Fragment>, s: Slots) {
    forall f {:trigger Unplaced(s, f)} :: f in o && Unplaced(s, f) ==> f in n && n[f] == o[f]
  }

  lemma IdleOne(o: map<int, Fragment>, n: map<int, Fragment>, s: Slots, f: int)
    requires IdleKept(o, n, s) && f in o && Unplaced(s, f)
    ensures f in n && n[f] == o[f]
  {
  }

  lemma IdleFrom(o: map<int, Fragment>, n: map<int, Fragment>, s: Slots, s': Slots)
    requires IdleKept(o, n, s')
    requires forall x {:trigger s'[x]} :: x in s' && s'[x].kind.Live? ==> x in s && s[x].kind == s'[x].kind
    ensures IdleKept(o, n, s)
  {
    forall f | f in o && Unplaced(s, f) ensures f in n && n[f] == o[f] {
      assert Unplaced(s', f);
    }
  }

  lemma IdleChain(o: map<int, Fragment>, m: map<int, Fragment>, n: map<int, Fragment>, s: Slots, s': Slots)
    requires IdleKept(o, m, s) && IdleKept(m, n, s') && NonFree(s') == NonFree(s)
    ensures IdleKept(o, n, s)
  {
    forall x | x in s' && s'[x].kind.Live? ensures x in s && s[x].kind == s'[x].kind {
      assert x in NonFree(s') && NonFree(s)[x] == s'[x];
    }
    IdleFrom(m, n, s, s');
    forall f | f in o && Unplaced(s, f) ensures f in n && n[f] == o[f] {
    }
  }

  /** A request stays one while the cache makes room for it. */
  lemma RequestKept(st: State, st': State, f: int, g: int, v: Unit, created: bool)
    requires f in st.mem.frags && Unplaced(st.slots, f) && OffCache(st, f)
    requires NonFree(st'.slots) == NonFree(st.slots) && IdleKept(st.mem.frags, st'.mem.frags, st.slots)
    requires SameLimits(st.units, st'.units) && st'.units.Keys == st.units.Keys + if created then {g} else {}
    requires created ==> Grantable(st, g, v) && g in st'.units && st'.units[g] == v
    ensures f in st'.mem.frags && st'.mem.frags[f] == st.mem.frags[f]
    ensures Unplaced(st'.slots, f) && OffCache(st', f)
  {
    forall x | x in st'.slots ensures st'.slots[x].kind != Live(f) {
      if !st'.slots[x].kind.Free? {
        assert x in NonFree(st'.slots) && st.slots[x] == st'.slots[x];
      }
    }
    forall u | u in st'.units ensures !(u <= f < st'.units[u].reservedEndPc) {
      assert u in st.units ==> !(u <= f < st.units[u].reservedEndPc);
      assert st.mem.frags[f] == st.mem.frags[f];
    }
  }

  lemma GainsChain(p: Params, o: Slots, m: Slots, n: Slots, f: int, size: int,
                   ofr: map<int, Fragment>, mfr: map<int, Fragment>, nfr: map<int, Fragment>)
    requires NonFree(m) == NonFree(o) && Gains(p, m, n, f, size)
    requires Unmarked(mfr) == Unmarked(ofr) && f in ofr && f in mfr && mfr[f] == ofr[f] && FragsKept(mfr, nfr, f)
    ensures Gains(p, o, n, f, size) && FragsKept(ofr, nfr, f)
  {
  }

  // ----- room at the end of the current unit

  /** A live slot of at least `m` bytes at the very end of the unit. */
  ghost predicate BigLast(s: Slots, u: int, pc: int, m: int, a: int) {
    a in s && s[a].kind.Live? && s[a].unit == u && End(s, a) == pc && m <= s[a].size
  }

  /** The current unit either has a useful hole at its end or ends with a slot that would leave one. */
  ghost predicate RoomOk(p: Params, us: map<int, Unit>, live: seq<int>, s: Slots) {
    |live| > 0 && live[0] in us ==>
      var v := us[live[0]];
      if v.full then exists a :: BigLast(s, live[0], v.endPc, p.MinUnitEndHole(), a)
      else p.MinUnitEndHole() <= v.endPc - v.curPc
  }

  /** Nothing happened to the current unit's end. */
  lemma RoomSame(p: Params, us: map<int, Unit>, us': map<int, Unit>, live: seq<int>, o: Slots, n: Slots)
    requires RoomOk(p, us, live, o) && |live| > 0 && live[0] in us && live[0] in us'
    requires us'[live[0]].endPc == us[live[0]].endPc && us'[live[0]].full == us[live[0]].full
    requires us'[live[0]].curPc <= us[live[0]].curPc
    requires forall a {:trigger o[a]} ::
               a in o && o[a].kind.Live? && o[a].unit == live[0] && End(o, a) == us[live[0]].endPc
                 && us[live[0]].full ==>
                 a in n && n[a] == o[a]
    ensures RoomOk(p, us', live, n)
  {
    var u, v := live[0], us[live[0]];
    if v.full {
      var a :| BigLast(o, u, v.endPc, p.MinUnitEndHole(), a);
      assert BigLast(n, u, v.endPc, p.MinUnitEndHole(), a);
    }
  }

  lemma OneEnd(s: Slots, t: Tops, a: int, b: int)
    requires Tiled(s, t) && a in s && b in s && End(s, a) == End(s, b)
    ensures a == b
  {
    assert Inside(s, t, a) && Inside(s, t, b) && Apart(s, a, b) && Apart(s, b, a);
  }

  /** Freeing a slot leaves the current unit with a useful end. `ow` is the layout before the freed
      slot was put in limbo. */
  lemma FreedRoom(p: Params, us: map<int, Unit>, live: seq<int>, t: Tops, ow: Slots, o: Slots,
                  u: int, s: int, q: int, merge: bool, last: bool)
    requires Tiled(o, t) && s in o && o[s].unit == u && o[s].kind.Limbo? && u in us && us.Keys == t.Keys
    requires |live| > 0 && live[0] in us && t[live[0]] == us[live[0]].curPc
    requires us[live[0]].full <==> us[live[0]].curPc == us[live[0]].endPc
    requires RoomOk(p, us, live, ow)
    requires forall a {:trigger ow[a]} ::
               a in ow && ow[a].kind.Live? && a != s && ow[a].unit == live[0] && End(ow, a) == us[live[0]].endPc ==>
                 a in o && o[a] == ow[a]
    requires s in ow && ow[s].kind.Live? ==> o[s] == ow[s].(kind := Limbo)
    requires merge ==> Precedes(o, q, s) && o[q].kind.Free?
    requires last <==> IsCurrent(live, u) && s + AbsorbedSize(o, s) == us[u].curPc
    ensures RoomOk(p,
                   if last then us[u := us[u].(curPc := if merge then q else s, full := false)] else us,
                   live, FreedSlots(o, s, q, merge, last))
  {
    var c, m := live[0], p.MinUnitEndHole();
    assert Inside(o, t, s) && (merge ==> Inside(o, t, q));
    assert HasNext(o, s) ==> Inside(o, t, End(o, s));
    if us[c].full {
      var w :| BigLast(ow, c, us[c].endPc, m, w);
      if last {
        if w != s {
          OneEnd(o, t, w, if Absorbs(o, s) then End(o, s) else s);
          assert false;
        }
      } else {
        assert w != s;
        FreedNonFree(o, t, s, q, merge, last);
        var n := FreedSlots(o, s, q, merge, last);
        assert w in NonFree(n) && NonFree(n)[w] == o[w];
        assert BigLast(n, c, us[c].endPc, m, w);
      }
    }
  }

  lemma BookFacts(p: Params, us: map<int, Unit>, live: seq<int>, toFlush: seq<int>, u: int)
    requires Book(p, us, live, toFlush) && u in us
    ensures us[u].full <==> us[u].curPc == us[u].endPc
    ensures us[u].full || IsCurrent(live, u)
    ensures p.maxUnitSize <= us[u].reservedEndPc - u
  {
    assert UnitBook(p, us, live, toFlush, u);
  }

  lemma EdgesOf(p: Params, st: State)
    requires Inv(p, st)
    ensures EdgesInv(st.units, st.mem.frags, st.slots)
  {
  }

  /** A cache that has just been given its first unit. */
  lemma InitialInv(p: Params, g: int, v: Unit)
    requires p.Valid() && Grantable(State(map[], Mem(map[], map[], map[], map[]), [], map[], map[], []), g, v)
    ensures Inv(p,
        State(map[g := v], Mem(map[], map[], map[], map[]), seq(9, _ => 0), map[], map[g := g], seq(9, _ => [])))
  {
    var st := State(map[], Mem(map[], map[], map[], map[]), seq(9, _ => 0), map[], map[], seq(9, _ => []));
    forall b ensures BucketOk(st, b) {
      if 0 <= b < 9 {
        forall i ensures Linked(st.mem, st.lists[b], i) {
        }
      }
    }
    assert Inv(p, st);
    GrantStep(p, st, g, v);
  }

  /** The room left in the current unit is never a sliver too small to use. */
  lemma UsableGap(p: Params, st: State, live: seq<int>, toFlush: seq<int>)
    requires Inv(p, st) && Book(p, st.units, live, toFlush) && RoomOk(p, st.units, live, st.slots)
    requires |live| > 0 && live[0] in st.units
    ensures p.Valid()
    ensures var v := st.units[live[0]];
      && (v.reservedEndPc == v.curPc || p.MinUnitEndHole() <= v.reservedEndPc - v.curPc)
      && (Small(st.units, live[0]) ==> v.reservedEndPc - v.curPc <= MAX_FREE_ENTRY_SIZE)
  {
    UnitFacts(p, st, live[0]);
    BookFacts(p, st.units, live, toFlush, live[0]);
    assert UnitOk(p, st, live[0]);
  }

  // ----- looking up the fragment at an address

  /** The body of fragment `f`, which lives in the slot at `a`, contains `pc`. */
  ghost predicate BodyHas(st: State, a: int, f: int, pc: int) {
    && a in st.slots && st.slots[a].kind == Live(f) && f in st.mem.frags
    && st.mem.frags[f].startPc <= pc < st.mem.frags[f].startPc + st.mem.frags[f].size
  }

  /** A fragment's body lies inside its slot, past the header. */
  lemma BodyInSlot(p: Params, st: State, a: int, f: int, pc: int)
    requires Inv(p, st) && BodyHas(st, a, f, pc)
    ensures a < pc < End(st.slots, a)
    ensures st.slots[a].unit in st.units && st.slots[a].unit <= pc < st.units[st.slots[a].unit].reservedEndPc
  {
    PlacedFacts(p, st, a, f);
    UnitFacts(p, st, st.slots[a].unit);
    assert Inside(st.slots, st.tops, a);
  }

  lemma BodyUnit(p: Params, st: State, a: int, f: int, pc: int, u: int)
    requires Inv(p, st) && BodyHas(st, a, f, pc) && u in st.units && u <= pc < st.units[u].reservedEndPc
    ensures st.slots[a].unit == u && u <= a < pc && u in st.tops && a < st.tops[u]
  {
    BodyInSlot(p, st, a, f, pc);
    OneUnit(p, st, u, st.slots[a].unit, pc);
    assert Inside(st.slots, st.tops, a);
  }

  /** At most one fragment's body contains an address. */
  lemma OneBody(p: Params, st: State, a: int, f: int, b: int, g: int, pc: int)
    requires Inv(p, st) && BodyHas(st, a, f, pc) && BodyHas(st, b, g, pc)
    ensures a == b && f == g
  {
    BodyInSlot(p, st, a, f, pc);
    BodyInSlot(p, st, b, g, pc);
    assert Apart(st.slots, a, b) && Apart(st.slots, b, a);
  }

  /** If the slot at `at` does not hold `pc`, a fragment that does lies beyond it. */
  lemma SkipSlot(p: Params, st: State, at: int, pc: int, u: int)
    requires Inv(p, st) && at in st.slots && st.slots[at].unit == u
    requires forall a, f {:trigger BodyHas(st, a, f, pc)} :: BodyHas(st, a, f, pc) ==> at <= a
    requires forall f {:trigger BodyHas(st, at, f, pc)} :: !BodyHas(st, at, f, pc)
    ensures forall a, f {:trigger BodyHas(st, a, f, pc)} :: BodyHas(st, a, f, pc) ==> End(st.slots, at) <= a
  {
    forall a, f | BodyHas(st, a, f, pc) ensures End(st.slots, at) <= a {
      assert Apart(st.slots, at, a);
      assert at == a ==> !BodyHas(st, at, f, pc);
    }
  }

  /** Committing more leaves a useful hole. */
  lemma CommitRoom(p: Params, us: map<int, Unit>, live: seq<int>, s: Slots, u: int, v: Unit)
    requires RoomOk(p, us, live, s) && IsCurrent(live, u) && u in us
    requires us[u].full <==> us[u].curPc == us[u].endPc
    requires v.curPc == us[u].curPc && !v.full && us[u].endPc + PAGE_SIZE <= v.endPc
    ensures RoomOk(p, us[u := v], live, s)
  {
  }
}
