/**
  The state of a shared (free-list) cache and its invariant.

  Addresses are integers; 0 is NULL. Cache memory is held as what the allocator itself has
  written: the first word of each slot, the rest of a free entry's header, and the footers.
  Everything handed to a fragment's code is erased from these maps, so reading a header where
  none was written is an error the verifier reports.
 */
module SharedState {
  import opened Layout
  import opened Lists

  const FOOTER_SIZE := 2
  const START_PC_ALIGNMENT := 4
  const MAX_FREE_ENTRY_SIZE := 65535
  const MAX_FRAGMENT_SIZE := 65535
  const FREE_LIST_SIZES := [0, 44, 52, 56, 64, 72, 80, 112, 172]

  /** The options one cache is created with. */
  datatype Params = Params(
    isTrace: bool, separateStubs: bool, align: int, padShift: bool,
    maxUnitSize: int, commitIncrement: int)
  {
    predicate Valid() {
      && 1 <= align <= 64
      && PAGE_SIZE % align == 0
      && (padShift ==> align % START_PC_ALIGNMENT == 0)
      && 0 < commitIncrement && commitIncrement % PAGE_SIZE == 0
      && 0 < maxUnitSize && maxUnitSize % PAGE_SIZE == 0
    }

    /** MIN_EMPTY_HOLE */
    function MinEmptyHole(): int {
      var base := if isTrace then 64 else if separateStubs then 20 else 64;
      if base < MIN_FCACHE_SLOT_SIZE then MIN_FCACHE_SLOT_SIZE else base
    }

    /** MIN_UNIT_END_HOLE */
    function MinUnitEndHole(): int {
      2 * MinEmptyHole()
    }
  }

  datatype Fragment = Fragment(
    startPc: int, size: int, extra: int,
    followsFree: bool, freeListBit: bool, wasDeleted: bool, nextVmarea: int)

  datatype FreeHeader = FreeHeader(freeListBit: bool, size: int, prev: int)

  datatype Mem = Mem(
    words: map<int, int>,          // first word of a slot: `next` of a free entry, or the fragment
    hdrs: map<int, FreeHeader>,    // flags, size and prev of a free entry
    foots: map<int, int>,          // size stored in the last bytes of a free entry
    frags: map<int, Fragment>)     // the fragment_t heap

  datatype State = State(
    units: map<int, Unit>, mem: Mem, heads: seq<int>,
    slots: Slots, tops: Tops, lists: seq<seq<int>>)

  // ----- the source's macros

  /** FRAG_START_PADDING */
  function StartPadding(p: Params, f: Fragment): int {
    if p.padShift then f.startPc % START_PC_ALIGNMENT else 0
  }

  /** FRAG_HDR_START */
  function HdrStart(p: Params, f: Fragment): int {
    f.startPc - HEADER_SIZE - StartPadding(p, f)
  }

  /** FRAG_SIZE */
  function SlotSize(p: Params, f: Fragment): int {
    f.size + f.extra + StartPadding(p, f)
  }

  /** FRAG_IS_FREE_LIST: looks through the word at the flags of whatever it points to. */
  predicate FragIsFreeList(m: Mem, word: int)
    requires word == 0 || word in m.frags || word in m.hdrs
  {
    word == 0 || if word in m.frags then m.frags[word].freeListBit else m.hdrs[word].freeListBit
  }

  function Bucket(size: int): (b: nat)
    ensures b < 9
    ensures 0 <= size ==> FREE_LIST_SIZES[b] <= size && (b < 8 ==> size < FREE_LIST_SIZES[b + 1])
  {
    if size < 44 then 0 else if size < 52 then 1 else if size < 56 then 2
    else if size < 64 then 3 else if size < 72 then 4 else if size < 80 then 5
    else if size < 112 then 6 else if size < 172 then 7 else 8
  }

  // ----- the invariant, clause by clause

  ghost predicate UnitOk(p: Params, st: State, u: int) {
    u in st.units ==>
      && u in st.tops
      && 0 < u <= st.tops[u] <= st.units[u].endPc
      && u < st.units[u].endPc
      && u <= st.units[u].curPc <= st.units[u].endPc <= st.units[u].reservedEndPc
      && u % PAGE_SIZE == 0
      && st.units[u].endPc % PAGE_SIZE == 0
      && st.units[u].reservedEndPc % PAGE_SIZE == 0
  }

  ghost predicate UnitsApart(st: State, u: int, v: int) {
    u in st.units && v in st.units && u < v ==> st.units[u].reservedEndPc <= v
  }

  ghost predicate OnGrid(p: Params, s: Slots, a: int)
    requires p.align != 0
  {
    a in s ==> a % p.align == 0 && s[a].size % p.align == 0
  }

  /** What memory holds for the slot at `a`. */
  ghost predicate SlotOk(p: Params, m: Mem, s: Slots, a: int) {
    a in s ==>
      match s[a].kind
      case Free =>
        && MIN_FCACHE_SLOT_SIZE <= s[a].size <= MAX_FREE_ENTRY_SIZE
        && a in m.words
        && a in m.hdrs && m.hdrs[a].freeListBit && m.hdrs[a].size == s[a].size
        && End(s, a) - FOOTER_SIZE in m.foots && m.foots[End(s, a) - FOOTER_SIZE] == s[a].size
      case Live(f) =>
        && MIN_FCACHE_SLOT_SIZE <= s[a].size
        && a in m.words && m.words[a] == f
        && f != 0 && f in m.frags && FragOk(p, m.frags[f])
        && HdrStart(p, m.frags[f]) == a && SlotSize(p, m.frags[f]) == s[a].size
      case Limbo => true
  }

  /** The fields fit the widths the source gives them. */
  ghost predicate FragOk(p: Params, f: Fragment) {
    && 0 <= f.size <= MAX_FRAGMENT_SIZE
    && HEADER_SIZE <= f.extra <= 255
    && !f.freeListBit
  }

  ghost predicate HeapApart(st: State, f: int, u: int) {
    f in st.mem.frags && u in st.units ==> !(u <= f < st.units[u].reservedEndPc)
  }

  ghost predicate Small(us: map<int, Unit>, u: int) {
    u in us && us[u].reservedEndPc - u <= MAX_FREE_ENTRY_SIZE
  }

  ghost predicate IsMarked(fr: map<int, Fragment>, k: Kind) {
    k.Live? && k.node in fr && fr[k.node].followsFree
  }

  /** What a slot and its neighbour may be: a live slot never has a successor marked as following
      a free entry; in units that cannot outgrow the entry size limit free entries are always
      coalesced and the fragment after one is always marked. */
  ghost predicate EdgeOk(us: map<int, Unit>, fr: map<int, Fragment>, s: Slots, a: int) {
    a in s && HasNext(s, a) ==>
      && (s[a].kind.Live? ==> !IsMarked(fr, s[End(s, a)].kind))
      && (s[a].kind.Free? && Small(us, s[a].unit) ==>
            s[End(s, a)].kind.Limbo? || IsMarked(fr, s[End(s, a)].kind))
  }

  /** A unit's first slot follows nothing. */
  ghost predicate StartOk(fr: map<int, Fragment>, s: Slots, u: int) {
    u in s && s[u].unit == u ==> !IsMarked(fr, s[u].kind)
  }

  /** Entry `i` of list `l` is linked to its two neighbours. */
  ghost predicate Linked(m: Mem, l: seq<int>, i: int) {
    0 <= i < |l| ==>
      && l[i] in m.words && m.words[l[i]] == At(l, i + 1)
      && l[i] in m.hdrs && m.hdrs[l[i]].prev == At(l, i - 1)
  }

  ghost predicate IsList(m: Mem, head: int, l: seq<int>) {
    && head == At(l, 0)
    && 0 !in l
    && (forall i, j :: 0 <= i < j < |l| ==> l[i] != l[j])
    && (forall i {:trigger Linked(m, l, i)} :: Linked(m, l, i))
  }

  ghost predicate InBucket(s: Slots, a: int, b: int) {
    a in s && s[a].kind.Free? && Bucket(s[a].size) == b
  }

  ghost predicate BucketOk(st: State, b: int) {
    0 <= b < 9 ==>
      && |st.heads| == |st.lists| == 9
      && IsList(st.mem, st.heads[b], st.lists[b])
      && (forall a {:trigger InBucket(st.slots, a, b)} {:trigger a in st.lists[b]} ::
            InBucket(st.slots, a, b) <==> a in st.lists[b])
  }

  ghost predicate UnitsInv(p: Params, st: State) {
    && st.tops.Keys == st.units.Keys
    && (forall u {:trigger UnitOk(p, st, u)} :: UnitOk(p, st, u))
    && (forall u, v {:trigger UnitsApart(st, u, v)} :: UnitsApart(st, u, v))
    && (forall f, u {:trigger HeapApart(st, f, u)} :: HeapApart(st, f, u))
  }

  ghost predicate SlotsInv(p: Params, m: Mem, s: Slots)
    requires p.Valid()
  {
    && (forall a {:trigger OnGrid(p, s, a)} :: OnGrid(p, s, a))
    && (forall a {:trigger SlotOk(p, m, s, a)} :: SlotOk(p, m, s, a))
  }

  ghost predicate EdgesInv(us: map<int, Unit>, fr: map<int, Fragment>, s: Slots) {
    && (forall a {:trigger EdgeOk(us, fr, s, a)} :: EdgeOk(us, fr, s, a))
    && (forall u {:trigger StartOk(fr, s, u)} :: StartOk(fr, s, u))
  }

  ghost predicate ListsInv(st: State) {
    && |st.heads| == |st.lists| == 9
    && (forall b {:trigger BucketOk(st, b)} :: BucketOk(st, b))
  }

  ghost predicate Inv(p: Params, st: State) {
    match st
    case State(units, mem, _, slots, tops, _) =>
      && p.Valid()
      && Tiled(slots, tops)
      && UnitsInv(p, st)
      && SlotsInv(p, mem, slots)
      && EdgesInv(units, mem.frags, slots)
      && ListsInv(st)
  }

  // ----- free-list primitives as state functions

  /** The header writes of remove_from_free_list. */
  function UnlinkMem(m: Mem, h: int): Mem
    requires h in m.words && h in m.hdrs
    requires m.hdrs[h].prev != 0 ==> m.hdrs[h].prev in m.words
    requires m.words[h] != 0 ==> m.words[h] in m.hdrs
  {
    var w := if m.hdrs[h].prev != 0 then m.words[m.hdrs[h].prev := m.words[h]] else m.words;
    var d := if m.words[h] != 0
             then m.hdrs[m.words[h] := m.hdrs[m.words[h]].(prev := m.hdrs[h].prev)] else m.hdrs;
    m.(words := w, hdrs := d)
  }

  lemma UnlinkList(m: Mem, head: int, l: seq<int>, k: int)
    requires IsList(m, head, l) && 0 <= k < |l|
    ensures l[k] in m.words && l[k] in m.hdrs
    ensures m.hdrs[l[k]].prev == At(l, k - 1) && m.words[l[k]] == At(l, k + 1)
    ensures m.hdrs[l[k]].prev != 0 ==> m.hdrs[l[k]].prev in m.words
    ensures m.words[l[k]] != 0 ==> m.words[l[k]] in m.hdrs
    ensures (m.hdrs[l[k]].prev == 0) == (k == 0)
    ensures IsList(UnlinkMem(m, l[k]), if k == 0 then At(l, 1) else head, Without(l, k))
  {
    assert Linked(m, l, k) && Linked(m, l, k - 1) && Linked(m, l, k + 1);
    var m', l' := UnlinkMem(m, l[k]), Without(l, k);
    forall i ensures Linked(m', l', i) {
      assert Linked(m, l, i) && Linked(m, l, i + 1);
    }
  }

  lemma UnlinkOther(m: Mem, h: int, head: int, l: seq<int>)
    requires h in m.words && h in m.hdrs
    requires m.hdrs[h].prev != 0 ==> m.hdrs[h].prev in m.words && m.hdrs[h].prev !in l
    requires m.words[h] != 0 ==> m.words[h] in m.hdrs && m.words[h] !in l
    requires IsList(m, head, l)
    ensures IsList(UnlinkMem(m, h), head, l)
  {
    forall i ensures Linked(UnlinkMem(m, h), l, i) {
      assert Linked(m, l, i);
    }
  }
}
