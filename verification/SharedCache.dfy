/**
  A shared code cache: units, segregated free lists kept inside cache memory, and the
  fragments placed in it.
 */
module SharedCache {
  import opened Alignment
  import opened Layout
  import opened Lists
  import opened SharedState
  import opened SharedSteps
  import opened SharedSpec
  import opened SharedMarks
  import opened SharedFlush

  class Cache {
    const p: Params
    var units: map<int, Unit>
    var mem: Mem
    var heads: seq<int>
    /** the cache's own units, most recent first */
    var live: seq<int>
    /** units taken off `live`, waiting to be flushed */
    var toFlush: seq<int>

    ghost var slots: Slots
    ghost var tops: Tops
    ghost var lists: seq<seq<int>>

    ghost function S(): State
      reads this
    {
      State(units, mem, heads, slots, tops, lists)
    }

    /** fcache_cache_init, with the initial unit `g`. */
    constructor (params: Params, g: int, v: Unit)
      requires params.Valid()
      requires Grantable(State(map[], Mem(map[], map[], map[], map[]), [], map[], map[], []), g, v)
      requires params.maxUnitSize <= v.reservedEndPc - g
      ensures p == params && Stable()
      ensures units == map[g := v] && live == [g] && slots == map[] && mem.frags == map[]
      ensures MarksExact(mem.frags, slots) && TouchOk(units, live, slots) && !FreeAtAppend()
    {
      p := params;
      units := map[g := v];
      mem := Mem(map[], map[], map[], map[]);
      heads := seq(9, _ => 0);
      live := [g];
      toFlush := [];
      slots := map[];
      tops := map[g := g];
      lists := seq(9, _ => []);
      new;
      InitialInv(p, g, v);
      assert UnitOk(p, S(), g);
      forall u ensures UnitBook(p, units, live, toFlush, u) {
      }
    }

    ghost predicate Between()
      reads this
    {
      Inv(p, S()) && Book(p, units, live, toFlush) && AppendClear(units, live, slots)
    }

    // ----- free lists

    method RemoveFromFreeList(bucket: nat, header: int)
      requires Inv(p, S()) && header in slots && slots[header].kind.Free?
      requires bucket == Bucket(slots[header].size)
      modifies this`mem, this`heads, this`slots, this`lists
      ensures Inv(p, S())
      ensures slots == Retag(old(slots), header, Limbo)
      ensures mem.frags == old(mem.frags) && mem.foots == old(mem.foots)
      ensures header in old(mem.hdrs) && header in mem.hdrs && mem.hdrs[header] == old(mem.hdrs[header])
      ensures exists k :: 0 <= k < |old(lists)[bucket]| && old(lists)[bucket][k] == header
                && lists == old(lists)[bucket := Without(old(lists)[bucket], k)]
    {
      ghost var k := UnlinkStep(p, S(), header);
      ghost var st' := Unlinked(S(), header, k);
      assert BucketOk(S(), bucket) && Linked(mem, lists[bucket], k);
      var prev, next := mem.hdrs[header].prev, mem.words[header];
      if prev != 0 {
        mem := mem.(words := mem.words[prev := next]);
      } else {
        heads := heads[bucket := next];
      }
      if next != 0 {
        mem := mem.(hdrs := mem.hdrs[next := mem.hdrs[next].(prev := prev)]);
      }
      slots := Retag(slots, header, Limbo);
      lists := lists[bucket := Without(lists[bucket], k)];
      assert S() == st';
    }

    /** The part of add_to_free_list that looks at the slot after the freed one. */
    method AbsorbNext(u: int, s: int, n: int) returns (n': int)
      requires Inv(p, S()) && u in units && s in slots && slots[s] == Slot(n, u, Limbo)
      requires HasNext(slots, s) <==> s + n < units[u].curPc
      requires HasNext(slots, s) ==> !slots[s + n].kind.Limbo?
      modifies this`mem, this`heads, this`slots, this`lists
      ensures Inv(p, S())
      ensures slots == AbsorbedNext(old(slots), s)
      ensures s in slots && slots[s] == Slot(n', u, Limbo)
      ensures n' == AbsorbedSize(old(slots), s)
      ensures mem.foots == old(mem.foots)
      ensures Unmarked(mem.frags) == Unmarked(old(mem.frags))
      ensures IdleKept(old(mem.frags), mem.frags, old(slots))
      ensures HasNext(slots, s) && Small(units, u) ==>
                slots[s + n'].kind.Limbo? || IsMarked(mem.frags, slots[s + n'].kind)
      ensures old(AllMarked(mem.frags, slots)) ==> AllMarked(mem.frags, slots) && NextMarked(mem.frags, slots, s)
    {
      hide Inv, AllMarked, NextMarked;
      UnitFacts(p, S(), u);
      n' := n;
      if units[u].curPc > s + n {
        Discriminates(p, S(), s + n);
        NeighboursFit(p, S(), s);
        NextFacts(p, S(), s);
        var subseq := mem.words[s + n];
        if FragIsFreeList(mem, subseq) {
          if mem.hdrs[s + n].size + n <= MAX_FREE_ENTRY_SIZE {
            var next := s + n;
            n' := n + mem.hdrs[next].size;
            RemoveFromFreeList(Bucket(mem.hdrs[next].size), next);
            JoinStep(p, S(), s);
            slots := Join(slots, s);
            assert slots == AbsorbedNext(old(slots), s);
          }
        } else if !mem.frags[subseq].followsFree {
          MarkStep(p, S(), s, true);
          mem := mem.(frags := mem.frags[subseq := mem.frags[subseq].(followsFree := true)]);
        }
      }
      AbsorbedMarks(old(mem.frags), mem.frags, old(slots), tops, s);
    }

    /** The part of add_to_free_list that looks at the slot before the freed fragment. */
    method AbsorbPrev(f: int, u: int, s: int, n: int, ghost q: int) returns (s': int, n': int)
      requires Inv(p, S()) && u in units && s in slots && slots[s] == Slot(n, u, Limbo)
      requires f != 0 ==> f in mem.frags
      requires IsAfterFree(f) ==> Precedes(slots, q, s) && slots[q].kind.Free?
      requires !IsAfterFree(f) && Small(units, u) ==> NoFreeBefore(slots, s)
      modifies this`mem, this`heads, this`slots, this`lists
      ensures Inv(p, S())
      ensures s' == (if old(IsAfterFree(f)) && old(slots)[q].size + n <= MAX_FREE_ENTRY_SIZE then q else s)
      ensures slots == if s' == s then old(slots) else AbsorbedPrev(old(slots), q)
      ensures s' in slots && slots[s'] == Slot(n', u, Limbo) && s' + n' == s + n
      ensures n <= n' && (n <= MAX_FREE_ENTRY_SIZE ==> n' <= MAX_FREE_ENTRY_SIZE)
      ensures mem.frags == old(mem.frags)
      ensures Small(units, u) ==> NoFreeBefore(slots, s')
    {
      s', n' := s, n;
      if f != 0 && mem.frags[f].followsFree {
        assert SlotOk(p, mem, slots, q) && Inside(slots, tops, q);
        var footer := mem.foots[s - FOOTER_SIZE];
        var header := s - footer;
        assert header == q;
        NeighboursFit(p, S(), q);
        if mem.hdrs[header].size + n <= MAX_FREE_ENTRY_SIZE {
          if Small(units, u) {
            AbsorbPrevEdges(p, S(), q, s);
          }
          s', n' := header, n + mem.hdrs[header].size;
          RemoveFromFreeList(Bucket(footer), header);
          JoinStep(p, S(), q);
          slots := Join(slots, q);
        }
      }
    }

    /** A free entry ends at the append point of the current unit. */
    ghost predicate FreeAtAppend()
      reads this
    {
      |live| > 0 && live[0] in units && !NoFreeAt(slots, live[0], units[live[0]].curPc)
    }

    ghost predicate IsAfterFree(f: int)
      reads this
    {
      f != 0 && f in mem.frags && mem.frags[f].followsFree
    }

    /** The end of add_to_free_list: the last slot of the current unit is returned to the append
        point, any other becomes an entry of its size's list. */
    method ReturnOrPush(u: int, s: int, n: int)
      requires Between() && u in units && s in slots && slots[s] == Slot(n, u, Limbo)
      requires tops[u] == units[u].curPc || units[u].curPc < s + n
      requires MIN_FCACHE_SLOT_SIZE <= n <= MAX_FREE_ENTRY_SIZE
      requires MayFree(S(), s)
      modifies this`mem, this`heads, this`slots, this`lists, this`units, this`tops
      ensures Between()
      ensures mem.frags == old(mem.frags)
      ensures units.Keys == old(units).Keys
      ensures if IsCurrent(live, u) && old(units)[u].curPc == s + n
              then slots == old(slots) - {s} && tops == old(tops)[u := s]
                && units == old(units)[u := old(units)[u].(curPc := s, full := false)]
              else
                && slots == Retag(old(slots), s, Free) && tops == old(tops) && units == old(units)
                && |old(lists)| == 9 && lists == old(lists)[Bucket(n) := [s] + old(lists)[Bucket(n)]]
    {
      hide Inv, Book;
      UnitFacts(p, S(), u);
      UnitPages(p, S(), u);
      BookFacts(p, units, live, toFlush, u);
      assert Inside(slots, tops, s);
      if |live| > 0 && u == live[0] && units[u].curPc == s + n {
        assert (units[u].full && units[u].curPc == units[u].endPc)
            || (!units[u].full && units[u].curPc < units[u].endPc);
        TruncateStep(p, S(), s);
        ghost var was := slots;
        slots := slots - {s};
        tops := tops[u := s];
        UnitStep(p, S(), u, units[u].(curPc := s, full := false));
        units := units[u := units[u].(curPc := s, full := false)];
        BookKept(p, old(units), live, toFlush, u, units[u]);
        forall a ensures !EndsAt(slots, u, s, a) || !Small(units, u) {
          assert Precedes(was, a, s) || !EndsAt(slots, u, s, a);
        }
      } else {
        var bucket := Bucket(n);
        PushStep(p, S(), s);
        ghost var st' := Pushed(S(), s);
        var head := heads[bucket];
        mem := PushMem(mem, s, n, head);
        heads := heads[bucket := s];
        ghost var was := slots;
        slots := Retag(slots, s, Free);
        lists := lists[bucket := [s] + lists[bucket]];
        assert S() == st';
        if |live| > 0 && live[0] in units {
          forall a
            ensures EndsAt(slots, live[0], units[live[0]].curPc, a) ==> EndsAt(was, live[0], units[live[0]].curPc, a)
          {
          }
        }
      }
    }

    /** What the callers of add_to_free_list provide: a slot in limbo of `n` bytes at `s` in unit
        `u`; the fragment `f` being freed, or 0; and `q`, the free entry before `s` if `f` is
        marked as following one. */
    ghost predicate Freeable(u: int, f: int, s: int, n: int, q: int)
      reads this
    {
      && u in units && u in tops && s in slots && slots[s] == Slot(n, u, Limbo)
      && (f != 0 ==> f in mem.frags && Unplaced(slots, f))
      && (if IsAfterFree(f) then Precedes(slots, q, s) && slots[q].kind.Free?
          else Small(units, u) ==> NoFreeBefore(slots, s))
      // an ordinary slot, or the rest of the current unit about to be claimed
      && (tops[u] == units[u].curPc || (units[u].curPc == s && s + n == tops[u]))
      && (HasNext(slots, s) ==> !slots[s + n].kind.Limbo?)
      && n <= MAX_FREE_ENTRY_SIZE
      && (MIN_FCACHE_SLOT_SIZE <= n || Absorbs(slots, s))
    }

    /** The two-sided coalescing of add_to_free_list. */
    method Coalesce(u: int, f: int, s: int, n: int, ghost q: int) returns (s2: int, n2: int)
      requires Between() && Freeable(u, f, s, n, q)
      modifies this`mem, this`heads, this`slots, this`lists
      ensures Between()
      ensures s2 in slots && slots[s2] == Slot(n2, u, Limbo)
      ensures s2 == (if old(Merges(f, s, q)) then q else s)
      ensures s + n <= s2 + n2 == s + AbsorbedSize(old(slots), s)
      ensures MIN_FCACHE_SLOT_SIZE <= n2 <= MAX_FREE_ENTRY_SIZE
      ensures slots == CoalescedSlots(old(slots), s, q, old(Merges(f, s, q)))
      ensures MayFree(S(), s2)
      ensures Unmarked(mem.frags) == Unmarked(old(mem.frags))
      ensures IdleKept(old(mem.frags), mem.frags, old(slots))
      ensures old(AllMarked(mem.frags, slots)) ==> AllMarked(mem.frags, slots) && NextMarked(mem.frags, slots, s2)
    {
      hide Inv, Book, AppendClear, IdleKept, Unmarked, Unplaced, AllMarked, NextMarked, AbsorbedSize, AbsorbedPrev;
      hide AbsorbedNext, NoFreeBefore;
      FreedEnd(p, S(), u, s);
      AbsorbedFits(p, S(), s);
      AbsorbNextFacts(units, live, slots, tops, s, q);
      var n1 := AbsorbNext(u, s, n);
      if f != 0 {
        IdleOne(old(mem.frags), mem.frags, old(slots), f);
      }
      ghost var s1 := slots;
      s2, n2 := AbsorbPrev(f, u, s, n1, q);
      if s2 != s {
        AbsorbPrevClear(units, live, s1, q);
      }
      AbsorbedMayFree(S(), s1, s, q, s2);
      if s2 != s && NextMarked(mem.frags, s1, s) {
        MergedMarks(mem.frags, s1, s, q);
      }
    }

    /** add_to_free_list: frees the slot of `n` bytes at `s` in unit `u`. A fragment being freed
        is passed as `f`; otherwise `f` is 0. `q` is the free entry before `s` if there is one. */
    method AddToFreeList(u: int, f: int, s: int, n: int, ghost q: int)
      requires Between() && Freeable(u, f, s, n, q)
      modifies this`mem, this`heads, this`slots, this`lists, this`units, this`tops
      ensures Between()
      ensures slots == FreedSlots(old(slots), s, q, old(Merges(f, s, q)), old(IsLast(u, s)))
      ensures units.Keys == old(units).Keys && tops.Keys == old(tops).Keys
      ensures if old(IsLast(u, s))
              then var a := if old(Merges(f, s, q)) then q else s;
                tops == old(tops)[u := a] && units == old(units)[u := old(units)[u].(curPc := a, full := false)]
              else tops == old(tops) && units == old(units)
      ensures SameReservations(old(units), units)
      ensures old(Settled(units, tops)) ==> Settled(units, tops)
      ensures Unmarked(mem.frags) == Unmarked(old(mem.frags))
      ensures IdleKept(old(mem.frags), mem.frags, old(slots))
      ensures old(AllMarked(mem.frags, slots)) ==> AllMarked(mem.frags, slots)
    {
      hide AllMarked, NextMarked;
      assert Inside(slots, tops, s);
      var s2, n2 := Coalesce(u, f, s, n, q);
      if NextMarked(mem.frags, slots, s2) {
        FreedMarks(mem.frags, slots, s2);
      }
      ReturnOrPush(u, s2, n2);
    }

    /** The search of find_free_list_slot: the first large enough entry of the lowest bucket
        holding one. */
    method SearchFreeLists(size: int) returns (bucket: nat, header: int)
      requires Inv(p, S()) && 0 <= size
      ensures header != 0 ==>
                && header in slots && slots[header].kind.Free? && size <= slots[header].size
                && bucket == Bucket(slots[header].size)
                && forall a :: a in slots && slots[a].kind.Free? && size <= slots[a].size ==>
                     bucket <= Bucket(slots[a].size)
      ensures header == 0 ==>
                forall a :: a in slots && slots[a].kind.Free? ==> slots[a].size < size
      ensures header == FirstFit(lists, slots, size, Bucket(size))
    {
      bucket, header := Bucket(size), 0;
      while bucket < 9
        invariant bucket <= 9 && FirstFit(lists, slots, size, Bucket(size)) == FirstFit(lists, slots, size, bucket)
        invariant forall a :: a in slots && slots[a].kind.Free? && size <= slots[a].size ==>
                    bucket <= Bucket(slots[a].size)
      {
        assert BucketOk(S(), bucket);
        ghost var l, k := lists[bucket], 0;
        header := heads[bucket];
        assert Linked(mem, l, 0);
        while header != 0 && mem.hdrs[header].size < size
          invariant 0 <= k <= |l| && header == At(l, k) && FirstIn(l, slots, size) == FirstIn(l[k..], slots, size)
          invariant header != 0 ==> header in mem.hdrs && header in mem.words && InBucket(slots, header, bucket)
          invariant forall i :: 0 <= i < k ==> l[i] in slots && slots[l[i]].size < size
          decreases |l| - k
        {
          assert Linked(mem, l, k) && SlotOk(p, mem, slots, header);
          header := mem.words[header];
          k := k + 1;
          assert Linked(mem, l, k);
        }
        if header != 0 {
          assert SlotOk(p, mem, slots, header);
          return;
        }
        forall a | a in slots && slots[a].kind.Free? && size <= slots[a].size
          ensures bucket + 1 <= Bucket(slots[a].size)
        {
          assert InBucket(slots, a, bucket) <==> a in l;
        }
        bucket := bucket + 1;
      }
    }

    /** fcache_lookup_unit */
    method LookupUnit(pc: int) returns (u: int)
      requires Inv(p, S()) && exists w :: w in units && w <= pc < units[w].reservedEndPc
      ensures u in units && u <= pc < units[u].reservedEndPc
    {
      u :| u in units && u <= pc < units[u].reservedEndPc;
    }

    /** place_fragment, with the slot size the caller assigns to the fragment. */
    method PlaceFragment(f: int, s: int, n: int)
      requires Inv(p, S()) && s in slots && slots[s].kind.Limbo? && slots[s].size == n
      requires MIN_FCACHE_SLOT_SIZE <= n
      requires f in mem.frags && Unplaced(slots, f) && OffCache(S(), f)
      requires IsNew(mem.frags[f]) && HEADER_SIZE <= n - mem.frags[f].size <= 255
      requires MayPlace(S(), s, mem.frags[f])
      modifies this`mem, this`slots
      ensures Inv(p, S())
      ensures slots == Retag(old(slots), s, Live(f))
      ensures var frag := old(mem.frags)[f];
        mem.frags == old(mem.frags)[f := frag.(startPc := s + HEADER_SIZE, extra := n - frag.size)]
    {
      var frag := mem.frags[f].(startPc := s + HEADER_SIZE, extra := n - mem.frags[f].size);
      PlaceNew(p, S(), s, f, frag);
      ghost var st' := Placed(S(), s, f, frag);
      mem := PlaceMem(mem, s, n, f, frag);
      slots := Retag(slots, s, Live(f));
      assert S() == st';
    }

    /** find_free_list_slot, splitting: the entry's tail goes back on a free list. */
    method SplitEntry(u: int, s: int, n: int, size: int)
      requires Between() && OnlyLimbo(slots, s) && Settled(units, tops)
      requires u in units && s in slots && slots[s] == Slot(n, u, Limbo)
      requires Small(units, u) ==> NoFreeBefore(slots, s)
      requires size % p.align == 0 && 0 < size && p.MinEmptyHole() < n - size && n <= MAX_FREE_ENTRY_SIZE
      requires |live| > 0 && live[0] in units && RoomOk(p, units, live, slots)
      modifies this`mem, this`heads, this`slots, this`lists, this`units, this`tops
      ensures Between() && OnlyLimbo(slots, s) && Settled(units, tops)
      ensures RoomOk(p, units, live, slots)
      ensures s in slots && slots[s] == Slot(size, u, Limbo)
      ensures NonFree(slots) == NonFree(old(slots))[s := Slot(size, u, Limbo)]
      ensures SameBelow(old(slots), slots, s)
      ensures SameReservations(old(units), units)
      ensures Placeable(S(), s)
      ensures Unmarked(mem.frags) == Unmarked(old(mem.frags))
      ensures IdleKept(old(mem.frags), mem.frags, old(slots))
      ensures old(AllMarked(mem.frags, slots)) ==> AllMarked(mem.frags, slots)
      ensures FreeAtAppend() ==> old(FreeAtAppend())
      ensures old(TouchOk(units, live, slots)) ==> TouchOk(units, live, slots)
    {
      hide Inv, Book, AppendClear, RoomOk, NonFree, Unmarked, IdleKept, SameBelow, AllMarked, NoFreeAt, TouchOk;
      hide Split, FreedSlots, AbsorbedSize;
      UnitFacts(p, S(), u);
      SplitStep(p, S(), s, size);
      ghost var s1 := Split(slots, s, size);
      CutReady(p, S(), live, mem.frags, s, size);
      ghost var last := IsLastIn(s1, u, s + size);
      CutFacts(p, S(), live, toFlush, s, size, last);
      slots := s1;
      AddToFreeList(u, 0, s + size, n - size, 0);
      IdleFrom(old(mem.frags), mem.frags, old(slots), s1);
    }

    /** find_free_list_slot, taking a whole entry: the fragment after it no longer follows one. */
    method TakeWholeEntry(u: int, s: int, n: int)
      requires Between() && OnlyLimbo(slots, s) && Settled(units, tops)
      requires u in units && s in slots && slots[s] == Slot(n, u, Limbo)
      requires Small(units, u) ==> NoFreeBefore(slots, s)
      modifies this`mem
      ensures Between()
      ensures Placeable(S(), s)
      ensures Unmarked(mem.frags) == Unmarked(old(mem.frags))
      ensures IdleKept(old(mem.frags), mem.frags, old(slots))
      ensures old(AllMarked(mem.frags, slots)) ==> AllMarked(mem.frags, slots)
    {
      hide AllMarked;
      FreedEnd(p, S(), u, s);
      assert Inside(slots, tops, s);
      if units[u].curPc > s + n {
        Discriminates(p, S(), s + n);
        var subseq := mem.words[s + n];
        if !FragIsFreeList(mem, subseq) {
          assert SlotOk(p, mem, slots, s + n);
          MarkStep(p, S(), s, false);
          UnmarkedMarks(p, S(), s, subseq, mem.frags[subseq].(followsFree := false));
          mem := mem.(frags := mem.frags[subseq := mem.frags[subseq].(followsFree := false)]);
        }
      }
    }

    /** find_free_list_slot, once an entry is found: off its list, and cut to size if the rest is
        worth keeping. */
    method ClaimEntry(bucket: nat, header: int, size: int) returns (freeSize: int)
      requires Stable() && 0 < size && size % p.align == 0
      requires header in slots && slots[header].kind.Free? && size <= slots[header].size
      requires bucket == Bucket(slots[header].size)
      modifies this`mem, this`heads, this`slots, this`lists, this`units, this`tops
      ensures Between() && OnlyLimbo(slots, header) && Settled(units, tops)
      ensures RoomOk(p, units, live, slots)
      ensures header in slots && slots[header] == Slot(freeSize, old(slots)[header].unit, Limbo)
      ensures size <= freeSize <= size + p.MinEmptyHole() && freeSize == Claimed(p, old(slots)[header].size, size)
      ensures NonFree(slots) == NonFree(old(slots))[header := slots[header]]
      ensures SameBelow(old(slots), slots, header)
      ensures SameReservations(old(units), units)
      ensures Placeable(S(), header)
      ensures Unmarked(mem.frags) == Unmarked(old(mem.frags))
      ensures IdleKept(old(mem.frags), mem.frags, old(slots))
      ensures old(AllMarked(mem.frags, slots)) ==> AllMarked(mem.frags, slots)
      ensures FreeAtAppend() ==> old(FreeAtAppend())
      ensures old(TouchOk(units, live, slots)) ==> TouchOk(units, live, slots)
    {
      hide Inv, Book, AppendClear, RoomOk, NonFree, Unmarked, IdleKept, SameBelow, AllMarked, NoFreeAt, TouchOk;
      FreeFacts(p, S(), header);
      ghost var o := slots;
      BelowRetagged(o, header, Limbo);
      FreeAlone(p, S(), header);
      RemoveFromFreeList(bucket, header);
      FewerFree(units, live, o, slots);
      StillUnplacedFree(o, header);
      FewerMarks(mem.frags, mem.frags, o, slots);
      FewerAtAppend(o, slots, live[0], units[live[0]].curPc);
      FewerApart(units, live, o, slots);
      RoomSame(p, units, units, live, o, slots);
      ghost var s1 := slots;
      freeSize := mem.hdrs[header].size;
      var unit := LookupUnit(header);
      OneUnit(p, S(), unit, slots[header].unit, header);
      if freeSize - size > p.MinEmptyHole() {
        SplitEntry(unit, header, freeSize, size);
        freeSize := size;
      } else {
        TakeWholeEntry(unit, header, freeSize);
      }
      IdleFrom(old(mem.frags), mem.frags, o, s1);
    }

    /** find_free_list_slot */
    method FindFreeListSlot(f: int, size: int) returns (found: bool)
      requires Usable() && IsRequest(f, size)
      requires Fit(size) ==> Settled(units, tops)
      modifies this`mem, this`heads, this`slots, this`lists, this`units, this`tops
      ensures Usable()
      ensures found ==> Stable()
      ensures found <==> old(Fit(size))
      ensures !found ==> S() == old(S())
      ensures found ==> Gains(p, old(slots), slots, f, size) && TakesEntry(old(slots), slots, f, size)
      ensures SameReservations(old(units), units)
      ensures FragsKept(old(mem.frags), mem.frags, f)
      ensures found ==> var a := FirstFit(old(lists), old(slots), size, Bucket(size));
                a in slots && slots[a].kind == Live(f)
                && a in old(slots) && slots[a].size == Claimed(p, old(slots)[a].size, size)
                && (old(AllMarked(mem.frags, slots)) ==> (AllMarked(mem.frags, slots) <==> NoFreeBefore(old(slots), a)))
      ensures FreeAtAppend() ==> old(FreeAtAppend())
      ensures old(TouchOk(units, live, slots)) ==> TouchOk(units, live, slots)
    {
      hide SameBelow, TakesEntry, Gains, AllMarked, NoFreeAt, NoFreeBefore, FirstFit, TouchOk;
      if size > MAX_FREE_ENTRY_SIZE {
        return false;
      }
      var bucket, header := SearchFreeLists(size);
      if header == 0 {
        return false;
      }
      ghost var o := slots;
      var freeSize := ClaimEntry(bucket, header, size);
      StillUnplaced(o, slots, header, f);
      PlaceableMayPlace(S(), header, mem.frags[f]);
      ghost var s2, fr2 := slots, mem.frags;
      PlaceFragment(f, header, freeSize);
      PlacedGains(p, o, s2, slots, header, f, size);
      BelowSame(o, old(tops), s2, tops, header);
      PlacedMarks(fr2, mem.frags, s2, header, f);
      FewerAtAppend(s2, slots, live[0], units[live[0]].curPc);
      FewerApart(units, live, s2, slots);
      RoomSame(p, units, units, live, s2, slots);
      FewerFree(units, live, s2, slots);
      found := true;
    }

    /** fcache_remove_fragment, for a unit that is not about to be freed as a whole. A slot too large
        for a free entry is left as it is, with its first word still pointing at `f`. */
    method RemoveFragment(f: int, ghost a: int) returns (ghost q: int)
      requires Stable() && a in slots && slots[a].kind == Live(f)
      modifies this`mem, this`heads, this`slots, this`lists, this`units, this`tops
      ensures Stable()
      ensures old(slots)[a].size <= MAX_FREE_ENTRY_SIZE ==> NonFree(slots) == NonFree(old(slots)) - {a}
      ensures old(slots)[a].size <= MAX_FREE_ENTRY_SIZE ==>
                slots == FreedSlots(Retag(old(slots), a, Limbo), a, q, old(Merges(f, a, q)),
                  old(IsLast(slots[a].unit, a)))
      ensures old(slots)[a].size > MAX_FREE_ENTRY_SIZE ==> S() == old(S())
      ensures old(Merges(f, a, q)) ==> Precedes(old(slots), q, a) && old(slots)[q].kind.Free?
      ensures old(!IsLast(slots[a].unit, a)) ==> units == old(units)
      ensures Unplaced(slots, f) <==> old(slots)[a].size <= MAX_FREE_ENTRY_SIZE
      ensures SameReservations(old(units), units)
      ensures Unmarked(mem.frags) == Unmarked(old(mem.frags))
      ensures old(MarksExact(mem.frags, slots)) ==> MarksExact(mem.frags, slots)
      ensures old(MarksExact(mem.frags, slots) && TouchOk(units, live, slots)) ==> TouchOk(units, live, slots)
      // a free entry is left at the append point just when one comes before the space that is returned
      ensures old(slots)[a].size <= MAX_FREE_ENTRY_SIZE ==>
                (FreeAtAppend() <==>
                 if old(IsLast(slots[a].unit, a))
                 then !NoFreeBefore(old(slots), if old(Merges(f, a, q)) then q else a)
                 else old(FreeAtAppend()))
    {
      hide Inv, Book, AppendClear, RoomOk, NonFree, Unmarked, Unplaced, FreedSlots, AbsorbedSize;
      hide MarksExact, AllMarked, NoFreeAt, NoFreeBefore, TouchOk;
      PlacedFacts(p, S(), a, f);
      UnitFacts(p, S(), live[0]);
      EdgesOf(p, S());
      MarksAre(p, S());
      var unit := LookupUnit(mem.frags[f].startPc);
      assert unit == slots[a].unit;
      var start, size := HdrStart(p, mem.frags[f]), SlotSize(p, mem.frags[f]);
      q := MarkMeans(units, mem.frags, slots, tops, a, f);
      if size > MAX_FREE_ENTRY_SIZE {
        PlacedSomewhere(slots, a, f);
        return;
      }
      FreeSlot(f, unit, start, size, q);
      MarksAre(p, S());
    }

    /** The slot of fragment `f` is freed. `q` is the free entry before it if `f` is marked. */
    method FreeSlot(f: int, unit: int, a: int, size: int, ghost q: int)
      requires Stable() && a in slots && slots[a] == Slot(size, unit, Live(f)) && f in mem.frags
      requires MIN_FCACHE_SLOT_SIZE <= size <= MAX_FREE_ENTRY_SIZE
      requires if IsAfterFree(f) then Precedes(slots, q, a) && slots[q].kind.Free?
               else Small(units, unit) ==> NoFreeBefore(slots, a)
      modifies this`mem, this`heads, this`slots, this`lists, this`units, this`tops
      ensures Stable()
      ensures NonFree(slots) == NonFree(old(slots)) - {a}
      ensures slots == FreedSlots(Retag(old(slots), a, Limbo), a, q, old(Merges(f, a, q)), old(IsLast(unit, a)))
      ensures old(!IsLast(unit, a)) ==> units == old(units)
      ensures Unplaced(slots, f)
      ensures SameReservations(old(units), units)
      ensures Unmarked(mem.frags) == Unmarked(old(mem.frags))
      ensures old(AllMarked(mem.frags, slots)) ==> AllMarked(mem.frags, slots)
      ensures old(AllMarked(mem.frags, slots) && TouchOk(units, live, slots)) ==> TouchOk(units, live, slots)
      ensures FreeAtAppend() <==>
              if old(IsLast(unit, a)) then !NoFreeBefore(old(slots), if old(Merges(f, a, q)) then q else a)
              else old(FreeAtAppend())
    {
      hide Inv, Book, AppendClear, RoomOk, NonFree, Unmarked, Unplaced, FreedSlots, AbsorbedSize;
      hide AllMarked, NoFreeAt, NoFreeBefore, TouchOk;
      PlacedFacts(p, S(), a, f);
      UnitFacts(p, S(), live[0]);
      LimboReady(p, S(), live, a, f, q);
      RemovedFacts(p, S(), live, toFlush, a, f, q, Merges(f, a, q), IsLast(unit, a));
      slots := Retag(slots, a, Limbo);
      AddToFreeList(unit, f, a, size, q);
    }

    /** fragment_free: the record of `f` goes back to the heap. */
    method FreeFragment(f: int)
      requires Stable() && f in mem.frags
      modifies this`mem
      ensures mem == old(mem).(frags := old(mem).frags - {f})
      ensures Stable() <==> old(Unplaced(slots, f))
      ensures Stable() ==> (MarksExact(mem.frags, slots) <==> old(MarksExact(mem.frags, slots)))
      ensures forall lazy :: old(LazyOk(mem.frags, lazy)) ==> (LazyOk(mem.frags, lazy) <==> f !in lazy)
    {
      FreeRecordStep(p, S(), f);
      mem := mem.(frags := mem.frags - {f});
      if Unplaced(slots, f) {
        MarksSame(old(mem.frags), mem.frags, slots);
      }
    }

    /** fragment_delete, as far as it concerns the cache: the slot is freed, then the record. */
    method DeleteFragment(f: int, ghost a: int)
      requires Stable() && a in slots && slots[a].kind == Live(f) && f in mem.frags
      modifies this`mem, this`heads, this`slots, this`lists, this`units, this`tops
      ensures f !in mem.frags && Unmarked(mem.frags) == Unmarked(old(mem.frags)) - {f}
      ensures Stable() <==> old(slots)[a].size <= MAX_FREE_ENTRY_SIZE
      ensures if old(slots)[a].size <= MAX_FREE_ENTRY_SIZE then NonFree(slots) == NonFree(old(slots)) - {a}
              else slots == old(slots)
      ensures Stable() && old(MarksExact(mem.frags, slots)) ==> MarksExact(mem.frags, slots)
      ensures old(MarksExact(mem.frags, slots) && TouchOk(units, live, slots)) ==> TouchOk(units, live, slots)
      ensures forall lazy :: old(LazyOk(mem.frags, lazy)) ==> (LazyOk(mem.frags, lazy) <==> f !in lazy)
    {
      hide Stable, NonFree, Unplaced, MarksExact, LazyOk, TouchOk;
      var _ := RemoveFragment(f, a);
      assert f in Unmarked(mem.frags);
      LazySame(old(mem.frags), mem.frags);
      FreeFragment(f);
    }

    /** fragment_remove_shared_no_flush: `f` is unreachable from now on and waits on the lazy-deletion
        list, unless another thread has deleted it first. */
    method RemoveSharedNoFlush(f: int, lazy: set<int>, ghost a: int) returns (lazy': set<int>)
      requires Stable() && a in slots && slots[a].kind == Live(f) && f in mem.frags && LazyOk(mem.frags, lazy)
      modifies this`mem
      ensures Stable() && LazyOk(mem.frags, lazy')
      ensures mem == old(mem).(frags := old(mem.frags)[f := old(mem.frags)[f].(wasDeleted := true)])
      ensures lazy' == lazy + if old(mem.frags[f].wasDeleted) then {} else {f}
      ensures MarksExact(mem.frags, slots) <==> old(MarksExact(mem.frags, slots))
    {
      hide MarksExact;
      lazy' := lazy;
      if mem.frags[f].wasDeleted {
        assert mem.frags[f := mem.frags[f].(wasDeleted := true)] == mem.frags;
        return;
      }
      var frag := mem.frags[f].(wasDeleted := true);
      assert SlotOk(p, mem, slots, a);
      FragStep(p, S(), a, f, frag);
      mem := mem.(frags := mem.frags[f := frag]);
      MarksSame(old(mem.frags), mem.frags, slots);
      lazy' := lazy + {f};
    }

    /** fcache_shift_start_pc: neither the header's address nor the slot's size changes. */
    method ShiftStartPc(f: int, space: int, ghost a: int)
      requires Stable() && a in slots && slots[a].kind == Live(f) && f in mem.frags
      requires p.padShift && mem.frags[f].startPc % START_PC_ALIGNMENT == 0
      requires 0 <= space <= START_PC_ALIGNMENT - 1 && space <= mem.frags[f].size
      modifies this`mem
      ensures Stable()
      ensures mem.frags == old(mem.frags)[f := old(mem.frags)[f].(
                startPc := old(mem.frags)[f].startPc + space, size := old(mem.frags)[f].size - space)]
      ensures HdrStart(p, mem.frags[f]) == old(HdrStart(p, mem.frags[f]))
      ensures SlotSize(p, mem.frags[f]) == old(SlotSize(p, mem.frags[f]))
      ensures MarksExact(mem.frags, slots) <==> old(MarksExact(mem.frags, slots))
    {
      hide MarksExact;
      if space == 0 {
        return;
      }
      var frag := mem.frags[f].(startPc := mem.frags[f].startPc + space, size := mem.frags[f].size - space);
      assert SlotOk(p, mem, slots, a);
      FragStep(p, S(), a, f, frag);
      mem := mem.(frags := mem.frags[f := frag]);
      MarksSame(old(mem.frags), mem.frags, slots);
    }

    /** The fragment at `a` shrinks to `n` bytes and the tail of its slot is freed. */
    method ReleaseTail(u: int, a: int, n: int, k: int, f: int, frag: Fragment)
      requires Stable() && u in units && a in slots && slots[a].unit == u && slots[a].kind == Live(f) && f in mem.frags
      requires MIN_FCACHE_SLOT_SIZE <= n < n + k == slots[a].size && n % p.align == 0
      requires FragOk(p, frag) && SamePlace(p, mem.frags[f], frag) && SlotSize(p, frag) == n
      requires k <= MAX_FREE_ENTRY_SIZE
      requires MIN_FCACHE_SLOT_SIZE <= k || TailAbsorbs(slots, a, n)
      requires !(IsCurrent(live, u) && a + n + k == units[u].endPc)
      modifies this`mem, this`heads, this`slots, this`lists, this`units, this`tops
      ensures Stable()
      ensures a in slots && NonFree(slots) == NonFree(old(slots))[a := slots[a]]
      ensures slots[a] == old(slots)[a].(size := n)
      ensures SameReservations(old(units), units)
      ensures FragsKeptBut(old(mem.frags), mem.frags, f, frag)
      ensures old(AllMarked(mem.frags, slots)) ==> AllMarked(mem.frags, slots)
      ensures FreeAtAppend() ==> old(FreeAtAppend())
      ensures old(TouchOk(units, live, slots)) ==> TouchOk(units, live, slots)
    {
      hide Inv, Book, AppendClear, RoomOk, NonFree, Unmarked, AllMarked, NoFreeAt, SameBelow, TouchOk;
      hide Split, FreedSlots, AbsorbedSize;
      UnitFacts(p, S(), u);
      ShrinkStep(p, S(), a, n, f, frag);
      ghost var s1 := Split(slots, a, n);
      CutReady(p, S(), live, mem.frags[f := frag], a, n);
      ghost var last := IsLastIn(s1, u, a + n);
      CutFacts(p, S(), live, toFlush, a, n, last);
      mem := mem.(frags := mem.frags[f := frag]);
      slots := s1;
      AddToFreeList(u, 0, a + n, k, 0);
      KeptAfterMarks(old(mem.frags), mem.frags, f, frag);
    }

    /** The last fragment of the current unit shrinks to `n` bytes; the append point moves back. */
    method RetractTail(u: int, a: int, n: int, k: int, f: int, frag: Fragment)
      requires Stable() && u in units && a in slots && slots[a].unit == u && slots[a].kind == Live(f) && f in mem.frags
      requires MIN_FCACHE_SLOT_SIZE <= n < n + k == slots[a].size && n % p.align == 0
      requires FragOk(p, frag) && SamePlace(p, mem.frags[f], frag) && SlotSize(p, frag) == n
      requires IsCurrent(live, u) && units[u].curPc == a + n + k
      requires units[u].full ==> p.MinUnitEndHole() <= k
      modifies this`mem, this`slots, this`units, this`tops
      ensures Stable()
      ensures a in slots && slots == old(slots)[a := old(slots)[a].(size := n)]
      ensures units == old(units)[u := old(units)[u].(curPc := a + n, full := false)]
      ensures mem.frags == old(mem.frags)[f := frag]
      ensures old(MarksExact(mem.frags, slots)) ==> MarksExact(mem.frags, slots)
      ensures !FreeAtAppend()
      ensures old(TouchOk(units, live, slots)) ==> TouchOk(units, live, slots)
    {
      hide Inv, Book, AllMarked, MarksExact;
      MarksAre(p, S());
      FewerApart(units, live, slots, slots[a := slots[a].(size := n)]);
      FewerMarks(mem.frags, mem.frags[f := frag], slots, slots[a := slots[a].(size := n)]);
      RetractStep(p, S(), a, n, f, frag);
      ghost var st' := Retracted(S(), a, n, f, frag);
      UnitPages(p, S(), u);
      mem := mem.(frags := mem.frags[f := frag]);
      slots := slots[a := slots[a].(size := n)];
      tops := tops[u := a + n];
      units := units[u := units[u].(curPc := a + n, full := false)];
      assert S() == st';
      BookKept(p, old(units), live, toFlush, u, units[u]);
      UnitFacts(p, S(), u);
      NoFreeWith(slots, tops, u, a);
      MarksAre(p, S());
    }

    /** The three-way branch of fcache_return_extra_space: the last `k` of the slot's `size` bytes
        go back to the append point or to a free list, unless that is not worth it. */
    method ReleaseSurplus(u: int, a: int, size: int, k: int, f: int, frag: Fragment) returns (released: bool)
      requires Stable() && u in units && a in slots && slots[a].unit == u && slots[a].kind == Live(f) && f in mem.frags
      requires 0 < k && MIN_FCACHE_SLOT_SIZE <= size - k && size == slots[a].size
      requires (size - k) % p.align == 0
      requires FragOk(p, frag) && SamePlace(p, mem.frags[f], frag) && SlotSize(p, frag) == size - k
      modifies this`mem, this`heads, this`slots, this`lists, this`units, this`tops
      ensures Stable() <==> !released || k <= MAX_FREE_ENTRY_SIZE || old(AtAppendPoint(u, a))
      ensures released <==> old(WorthReleasing(u, a, k))
      ensures !released ==> S() == old(S()) && k < p.MinUnitEndHole()
      ensures !released && End(old(slots), a) != old(units)[u].endPc ==> k < p.MinEmptyHole()
      ensures released ==>
                && a in slots && slots[a] == old(slots)[a].(size := size - k)
                && NonFree(slots) == NonFree(old(slots))[a := slots[a]]
                && FragsKeptBut(old(mem.frags), mem.frags, f, frag)
      ensures SameReservations(old(units), units)
      ensures old(MarksExact(mem.frags, slots)) ==> MarksExact(mem.frags, slots)
      ensures FreeAtAppend() ==> old(FreeAtAppend())
      ensures old(TouchOk(units, live, slots)) ==> TouchOk(units, live, slots)
    {
      hide MarksExact, TouchOk;
      assert Inside(slots, tops, a) && UnitOk(p, S(), u) && UnitBook(p, units, live, toFlush, u);
      released := false;
      if a + size == units[u].endPc {
        if k >= p.MinUnitEndHole() {
          if u == live[0] {
            RetractTail(u, a, size - k, k, f, frag);
            RetractedKept(old(slots), slots, old(mem.frags), mem.frags, a, f, frag);
          } else {
            ReleaseOrLose(u, a, size - k, k, f, frag);
          }
          released := true;
        }
      } else if a + size == units[u].curPc {
        RetractTail(u, a, size - k, k, f, frag);
        RetractedKept(old(slots), slots, old(mem.frags), mem.frags, a, f, frag);
        released := true;
      } else {
        FreedEnd(p, S(), u, a);
        Discriminates(p, S(), a + size);
        assert SlotOk(p, mem, slots, a + size);
        var subseq := mem.words[a + size];
        if (FragIsFreeList(mem, subseq) && k + mem.hdrs[a + size].size <= MAX_FREE_ENTRY_SIZE)
           || k >= p.MinEmptyHole()
        {
          ReleaseOrLose(u, a, size - k, k, f, frag);
          released := true;
        }
      }
    }

    /** fifo_prepend_empty on the tail: freed, unless add_to_free_list finds it too large and returns;
        the fragment shrinks all the same and the tail then belongs to no slot. */
    method ReleaseOrLose(u: int, a: int, n: int, k: int, f: int, frag: Fragment)
      requires Stable() && u in units && a in slots && slots[a].unit == u && slots[a].kind == Live(f) && f in mem.frags
      requires MIN_FCACHE_SLOT_SIZE <= n < n + k == slots[a].size && n % p.align == 0
      requires FragOk(p, frag) && SamePlace(p, mem.frags[f], frag) && SlotSize(p, frag) == n
      requires MIN_FCACHE_SLOT_SIZE <= k || TailAbsorbs(slots, a, n)
      requires !AtAppendPoint(u, a)
      modifies this`mem, this`heads, this`slots, this`lists, this`units, this`tops
      ensures Stable() <==> k <= MAX_FREE_ENTRY_SIZE
      ensures a in slots && NonFree(slots) == NonFree(old(slots))[a := slots[a]]
      ensures slots[a] == old(slots)[a].(size := n)
      ensures SameReservations(old(units), units)
      ensures FragsKeptBut(old(mem.frags), mem.frags, f, frag)
      ensures old(MarksExact(mem.frags, slots)) ==> MarksExact(mem.frags, slots)
      ensures FreeAtAppend() ==> old(FreeAtAppend())
      ensures old(TouchOk(units, live, slots)) ==> TouchOk(units, live, slots)
    {
      hide AllMarked, MarksExact, TouchOk;
      assert Inside(slots, tops, a) && UnitOk(p, S(), u);
      if k <= MAX_FREE_ENTRY_SIZE {
        MarksAre(p, S());
        ReleaseTail(u, a, n, k, f, frag);
        MarksAre(p, S());
      } else {
        ghost var o := slots;
        assert Apart(slots, a, a + n);
        mem := mem.(frags := mem.frags[f := frag]);
        slots := slots[a := slots[a].(size := n)];
        assert !Chained(slots, tops, a);
        RetractedKept(o, slots, old(mem.frags), mem.frags, a, f, frag);
        LostMarks(old(mem.frags), mem.frags, o, tops, a, n);
        FewerAtAppend(o, slots, live[0], units[live[0]].curPc);
        FewerApart(units, live, o, slots);
      }
    }

    /** The slot at `a` is the last of the current unit. */
    ghost predicate AtAppendPoint(u: int, a: int)
      requires u in units && a in slots
      reads this
    {
      IsCurrent(live, u) && End(slots, a) == units[u].curPc
    }

    /** Releasing the last `k` bytes of the slot at `a` is worth it: at the end of the unit if they make
        a useful hole, at the append point always, and elsewhere if they can be merged or stand alone. */
    ghost predicate WorthReleasing(u: int, a: int, k: int)
      requires u in units && a in slots
      reads this
    {
      var end := End(slots, a);
      if end == units[u].endPc then p.MinUnitEndHole() <= k
      else
        || end == units[u].curPc
        || (end in slots && slots[end].kind.Free? && k + slots[end].size <= MAX_FREE_ENTRY_SIZE)
        || p.MinEmptyHole() <= k
    }

    /** The slot at `a` ends at the append point of the current unit. */
    ghost predicate EndsCurrent(a: int)
      reads this
    {
      a in slots && slots[a].unit in units && AtAppendPoint(slots[a].unit, a)
    }

    /** How much of its slot a fragment gives back. */
    ghost function GivenBack(f: int, a: int, space: int): int
      reads this
    {
      if f in mem.frags && a in slots && slots[a].unit in units && HasSurplus(p, mem.frags[f], space) then
        var k := SurplusOf(p, mem.frags[f], space).returnable;
        if 0 < k && WorthReleasing(slots[a].unit, a, k) then k else 0
      else 0
    }

    /** fcache_return_extra_space: the last `space` bytes of the fragment's code are not needed.
        Returns how many bytes the fragment's slot gave up. */
    method ReturnExtraSpace(f: int, space: int, ghost a: int) returns (given: int)
      requires Stable() && a in slots && slots[a].kind == Live(f) && f in mem.frags
      requires 0 <= space <= mem.frags[f].size
      modifies this`mem, this`heads, this`slots, this`lists, this`units, this`tops
      ensures Stable() <==> given <= MAX_FREE_ENTRY_SIZE || old(EndsCurrent(a))
      ensures a in slots && slots[a] == old(slots)[a].(size := old(slots)[a].size - given)
      ensures NonFree(slots) == NonFree(old(slots))[a := slots[a]]
      ensures 0 <= given && given % p.align == 0
      ensures given == old(GivenBack(f, a, space)) && f in mem.frags
      // what is kept beyond need is no useful hole
      ensures a in old(slots) && old(slots)[a].unit in old(units)
      ensures mem.frags[f].extra < HEADER_SIZE + p.align + MIN_FCACHE_SLOT_SIZE - HEADER_SIZE
                + if End(old(slots), a) == old(units)[old(slots)[a].unit].endPc then p.MinUnitEndHole()
                  else p.MinEmptyHole()
      ensures mem.frags[f].size == old(mem.frags)[f].size - space
      ensures mem.frags[f].startPc == old(mem.frags)[f].startPc
      ensures Unmarked(mem.frags) - {f} == Unmarked(old(mem.frags)) - {f}
      ensures SameReservations(old(units), units)
      ensures old(MarksExact(mem.frags, slots)) ==> MarksExact(mem.frags, slots)
      ensures FreeAtAppend() ==> old(FreeAtAppend())
      ensures old(TouchOk(units, live, slots)) ==> TouchOk(units, live, slots)
    {
      hide Between, Inv, RoomOk, NonFree, Unmarked, Settled, WorthReleasing;
      hide MarksExact, NoFreeAt, SamePlace, FragOk, TouchOk;
      InvHolds();
      var frag := mem.frags[f];
      PlacedFacts(p, S(), a, f);
      UnitFacts(p, S(), live[0]);
      var unit := LookupUnit(frag.startPc);
      var r := SurplusOf(p, frag, space);
      var start, size := HdrStart(p, frag), SlotSize(p, frag);
      var kept := frag.(size := frag.size - space, extra := HEADER_SIZE + r.slotPadding + r.minPadding);
      KeptFits(p, frag, space, kept, 0);
      var released := false;
      if r.returnable > 0 {
        released := ReleaseSurplus(unit, start, size, r.returnable, f, kept);
      }
      given := if released then r.returnable else 0;
      if !released {
        kept := kept.(extra := kept.extra + r.returnable);
        KeptFits(p, frag, space, kept, r.returnable);
        KeepSurplus(f, kept, a);
      }
    }

    /** The fragment's record changes but its slot does not. */
    method KeepSurplus(f: int, frag: Fragment, ghost a: int)
      requires Stable() && a in slots && slots[a].kind == Live(f) && f in mem.frags
      requires FragOk(p, frag) && SamePlace(p, mem.frags[f], frag) && SlotSize(p, frag) == slots[a].size
      modifies this`mem
      ensures Stable()
      ensures NonFree(slots) == NonFree(slots)[a := slots[a]]
      ensures FragsKeptBut(old(mem.frags), mem.frags, f, frag)
      ensures old(MarksExact(mem.frags, slots)) ==> MarksExact(mem.frags, slots)
    {
      hide MarksExact;
      MarksSame(mem.frags, mem.frags[f := frag], slots);
      FragStep(p, S(), a, f, frag);
      mem := mem.(frags := mem.frags[f := frag]);
      KeptAfterMarks(old(mem.frags), mem.frags, f, frag);
      assert slots[a := slots[a]] == slots;
    }

    /** extend_unit_end: claims `size` more bytes at the end of the current unit. A rest too small
        to use is claimed as well and returned; with `restEmpty` any other rest becomes a free
        entry. Claimed bytes that no slot covers leave the unit's top behind its append point. */
    method ExtendUnitEnd(u: int, size: int, restEmpty: bool) returns (extra: int)
      requires Between() && u in units && IsCurrent(live, u) && 0 <= size
      requires units[u].curPc + size == tops[u] || (size == 0 && units[u].curPc == units[u].endPc)
      requires tops[u] % p.align == 0
      requires if size == 0 then restEmpty && units[u].endPc == units[u].reservedEndPc
               else !restEmpty && NoFreeAt(slots, u, tops[u])
      modifies this`mem, this`heads, this`slots, this`lists, this`units, this`tops
      ensures Between()
      ensures var left := old(units)[u].endPc - old(units)[u].curPc - size;
        && extra == (if left < p.MinUnitEndHole() then left else 0)
        && units == old(units)[u := old(units)[u].(
             curPc := if left < p.MinUnitEndHole() || restEmpty
                      then old(units)[u].endPc else old(units)[u].curPc + size,
             full := left < p.MinUnitEndHole() || restEmpty)]
        && (if restEmpty && p.MinUnitEndHole() <= left <= MAX_FREE_ENTRY_SIZE
            then tops == old(tops)[u := old(units)[u].endPc]
              && old(units)[u].curPc !in old(slots)
              && slots == old(slots)[old(units)[u].curPc := Slot(left, u, Free)]
            else tops == old(tops) && slots == old(slots) && mem == old(mem))
      ensures Unmarked(mem.frags) == Unmarked(old(mem.frags))
      ensures IdleKept(old(mem.frags), mem.frags, old(slots))
      ensures old(AllMarked(mem.frags, slots)) ==> AllMarked(mem.frags, slots)
      ensures old(TouchOk(units, live, slots)) ==> TouchOk(units, live, slots)
    {
      hide AllMarked, TouchOk;
      assert UnitOk(p, S(), u) && UnitBook(p, units, live, toFlush, u);
      var left := units[u].endPc - units[u].curPc - size;
      extra := 0;
      if left < p.MinUnitEndHole() {
        extra := left;
        NoFreeBeyond(slots, tops, u, units[u].endPc);
        SetAppendPoint(u, units[u].endPc);
      } else if restEmpty {
        if left <= MAX_FREE_ENTRY_SIZE {
          FillUnit(u, left);
        }
        SetAppendPoint(u, units[u].endPc);
      } else {
        SetAppendPoint(u, units[u].curPc + size);
      }
    }

    /** The rest of the current unit becomes a free entry, before the append point passes it. */
    method FillUnit(u: int, left: int)
      requires Between() && u in units && IsCurrent(live, u) && tops[u] == units[u].curPc
      requires units[u].curPc + left == units[u].endPc && tops[u] % p.align == 0
      requires MIN_FCACHE_SLOT_SIZE <= left <= MAX_FREE_ENTRY_SIZE && units[u].endPc == units[u].reservedEndPc
      modifies this`mem, this`heads, this`slots, this`lists, this`units, this`tops
      ensures Between()
      ensures units == old(units)
      ensures tops == old(tops)[u := units[u].endPc]
      ensures old(tops)[u] !in old(slots) && slots == old(slots)[old(tops)[u] := Slot(left, u, Free)]
      ensures Unmarked(mem.frags) == Unmarked(old(mem.frags))
      ensures IdleKept(old(mem.frags), mem.frags, old(slots))
      ensures old(AllMarked(mem.frags, slots)) ==> AllMarked(mem.frags, slots)
      ensures old(TouchOk(units, live, slots)) ==> TouchOk(units, live, slots)
    {
      hide Inv, Book, AppendClear, AllMarked, TouchOk, IdleKept, Unmarked;
      var pc := units[u].curPc;
      UnitFacts(p, S(), u);
      UnitPages(p, S(), u);
      BookFacts(p, units, live, toFlush, u);
      AlignedChain(units[u].endPc, PAGE_SIZE, p.align);
      AlignedSum(units[u].endPc, pc, p.align);
      AppendStep(p, S(), u, left);
      FillReady(p, S(), live, u, left);
      ghost var o := slots;
      slots := Append(slots, tops, u, left);
      tops := tops[u := units[u].endPc];
      FewerFree(units, live, o, slots);
      ghost var s1 := slots;
      FewerMarks(mem.frags, mem.frags, o, s1);
      if TouchOk(units, live, o) {
        FilledTouch(p, old(S()), live, u, left);
      }
      AddToFreeList(u, 0, pc, left, 0);
      IdleFrom(old(mem.frags), mem.frags, o, s1);
    }

    /** The current unit's append point moves to `pc`. */
    method SetAppendPoint(u: int, pc: int)
      requires Between() && u in units && IsCurrent(live, u)
      requires units[u].curPc <= pc <= units[u].endPc
      requires pc == units[u].endPc == units[u].reservedEndPc || NoFreeAt(slots, u, pc)
      modifies this`units
      ensures Between()
      ensures units == old(units)[u := old(units)[u].(curPc := pc, full := pc == old(units)[u].endPc)]
      ensures old(TouchOk(units, live, slots)) ==> TouchOk(units, live, slots)
    {
      assert UnitOk(p, S(), u) && UnitBook(p, units, live, toFlush, u);
      var v := units[u].(curPc := pc, full := pc == units[u].endPc);
      UnitStep(p, S(), u, v);
      BookKept(p, units, live, toFlush, u, v);
      units := units[u := v];
    }

    /** add_fragment_common, adding at the end of the current unit. */
    method AppendFragment(f: int, size: int)
      requires Usable() && IsRequest(f, size)
      requires var v := units[live[0]]; !v.full && size <= v.endPc - v.curPc
      modifies this`mem, this`heads, this`slots, this`lists, this`units, this`tops
      ensures Usable()
      ensures Gains(p, old(slots), slots, f, size)
      ensures AppendedAt(old(slots), slots, f, old(units[live[0]].curPc))
      ensures var v := old(units[live[0]]);
        var left := v.endPc - v.curPc - size;
        slots[v.curPc].size == size + if left < p.MinUnitEndHole() then left else 0
      ensures SameReservations(old(units), units)
      ensures Settled(units, tops) <==> old(Settled(units, tops))
      ensures FragsKept(old(mem.frags), mem.frags, f)
      ensures AllMarked(mem.frags, slots) <==> old(AllMarked(mem.frags, slots) && !FreeAtAppend())
      ensures !FreeAtAppend()
      ensures old(TouchOk(units, live, slots)) ==> TouchOk(units, live, slots)
    {
      hide Inv, Book, AppendClear, AllMarked, NoFreeAt, TouchOk, Gains, FragsKept, Settled, SameReservations;
      var u := live[0];
      var pc := units[u].curPc;
      PlaceAtEnd(u, f, size);
      var extra := ExtendUnitEnd(u, size, false);
      if extra > 0 {
        TakeExtra(u, pc, extra, f);
      }
      AppendedGains(p, old(slots), slots, pc, f, size, old(mem.frags), mem.frags);
      AppendedMarks(old(mem.frags), mem.frags, old(slots), slots, u, pc, f);
      FewerApart(old(units), live, old(slots), slots);
      UnitFacts(p, S(), u);
      NoFreeWith(slots, tops, u, pc);
      ClearTouch(old(units), units, live, slots);
      SettledSame(old(units), old(tops), units, tops, u);
      assert units[u].full ==> BigLast(slots, u, units[u].endPc, p.MinUnitEndHole(), pc);
    }

    /** place_fragment at the append point, which does not move yet. */
    method PlaceAtEnd(u: int, f: int, size: int)
      requires Usable() && IsRequest(f, size) && u == live[0]
      requires !units[u].full && size <= units[u].endPc - units[u].curPc
      modifies this`mem, this`slots, this`tops
      ensures Between()
      ensures units[u].curPc !in old(slots) && slots == old(slots)[units[u].curPc := Slot(size, u, Live(f))]
      ensures tops == old(tops)[u := units[u].curPc + size] && tops[u] % p.align == 0
      ensures NoFreeAt(slots, u, tops[u])
      ensures mem.frags == old(mem.frags)[f := old(mem.frags)[f].(
                startPc := units[u].curPc + HEADER_SIZE, extra := size - old(mem.frags)[f].size)]
    {
      var pc := units[u].curPc;
      assert UnitOk(p, S(), u) && UnitBook(p, units, live, toFlush, u);
      var frag := mem.frags[f].(startPc := pc + HEADER_SIZE, extra := size - mem.frags[f].size);
      EndPlacedStep(p, S(), live, u, size, f, frag);
      ghost var st' := EndPlaced(S(), u, size, f, frag);
      mem := PlaceMem(mem, pc, size, f, frag);
      slots := slots[pc := Slot(size, u, Live(f))];
      tops := tops[u := pc + size];
      assert S() == st';
      TopAligned(p, S(), u);
    }

    /** FRAG_SIZE_ASSIGN after extend_unit_end: the last fragment owns the rest of its unit. */
    method TakeExtra(u: int, pc: int, extra: int, f: int)
      requires Between() && u in units && IsCurrent(live, u)
      requires pc in slots && slots[pc].unit == u && slots[pc].kind == Live(f) && f in mem.frags
      requires tops[u] == End(slots, pc) && tops[u] + extra == units[u].curPc == units[u].endPc
      requires 0 < extra && mem.frags[f].extra + extra <= 255
      modifies this`mem, this`slots, this`tops
      ensures Between()
      ensures slots == old(slots)[pc := old(slots)[pc].(size := old(slots)[pc].size + extra)]
      ensures tops == old(tops)[u := units[u].curPc]
      ensures mem.frags == old(mem.frags)[f := old(mem.frags)[f].(extra := old(mem.frags)[f].extra + extra)]
    {
      var frag := mem.frags[f].(extra := mem.frags[f].extra + extra);
      assert SlotOk(p, mem, slots, pc) && UnitOk(p, S(), u);
      TopAligned(p, S(), u);
      AlignedChain(units[u].endPc, PAGE_SIZE, p.align);
      AlignedSum(units[u].endPc, tops[u], p.align);
      GrowStep(p, S(), pc, extra, f, frag);
      ghost var st' := Rewritten(Grown(S(), pc, extra), f, frag);
      ghost var o := slots;
      mem := mem.(frags := mem.frags[f := frag]);
      slots := slots[pc := slots[pc].(size := slots[pc].size + extra)];
      tops := tops[u := units[u].curPc];
      assert S() == st';
      FewerFree(units, live, o, slots);
    }

    /** For a request of `size` bytes a unit was committed further as try_for_more_space does. */
    ghost predicate Committed(o: Unit, n: Unit, size: int) {
      Commits(p.commitIncrement, o.curPc + size, o.endPc, o.reservedEndPc, n.endPc - o.endPc)
    }

    /** try_for_more_space, committing more of the current unit's reservation. */
    method ExtendCommitment(u: int, size: int)
      requires Usable() && u == live[0] && 0 < size
      requires units[u].endPc < units[u].reservedEndPc && units[u].endPc < units[u].curPc + size
      modifies this`units
      ensures Usable()
      ensures units == old(units)[u := old(units)[u].(endPc := units[u].endPc, full := false)]
      ensures old(units)[u].endPc < units[u].endPc <= units[u].reservedEndPc
      ensures units[u].endPc < units[u].curPc + size ==> units[u].endPc == units[u].reservedEndPc
      ensures Committed(old(units)[u], units[u], size)
      ensures old(TouchOk(units, live, slots)) ==> TouchOk(units, live, slots)
    {
      hide Inv, Book, AppendClear, RoomOk, Commits;
      UnitPages(p, S(), u);
      BookFacts(p, units, live, toFlush, u);
      var commit := CommitSize(p.commitIncrement, units[u].curPc + size, units[u].endPc, units[u].reservedEndPc);
      var v := units[u].(endPc := units[u].endPc + commit, full := false);
      UnitStep(p, S(), u, v);
      BookKept(p, units, live, toFlush, u, v);
      CommitClear(units, live, slots, tops, u, v);
      CommitRoom(p, units, live, slots, u, v);
      units := units[u := v];
    }

    /** try_for_more_space, adding the new unit `g`; the oldest unit may be sent to be flushed. */
    method GrantUnit(g: int, v: Unit, flushOldest: bool)
      requires Between() && |live| > 0 && live[0] in units && units[live[0]].full
      requires forall a {:trigger slots[a]} :: a in slots ==> !slots[a].kind.Limbo?
      requires Grantable(S(), g, v) && p.maxUnitSize <= v.reservedEndPc - g
      modifies this`units, this`tops, this`live, this`toFlush
      ensures Usable()
      ensures g !in old(units) && units == old(units)[g := v] && tops == old(tops)[g := g]
      ensures live == LiveAfter(old(live), g, flushOldest)
      ensures toFlush == QueueAfter(old(live), old(toFlush), flushOldest)
    {
      hide Inv, Book, AppendClear;
      GrantStep(p, S(), g, v);
      GrantBook(p, units, live, toFlush, g, v, flushOldest);
      ghost var st := S();
      if flushOldest {
        var oldest := live[|live| - 1];
        live := live[..|live| - 1];
        toFlush := [oldest] + toFlush;
      }
      units := units[g := v];
      tops := tops[g := g];
      live := [g] + live;
      GrantClear(p, st, g, v, live);
    }

    /** Room left in the current unit's reservation. */
    ghost function Gap(): int
      requires |live| > 0 && live[0] in units
      reads this
    {
      units[live[0]].reservedEndPc - units[live[0]].curPc
    }

    /** Can the rest of the current unit be turned into a free entry? */
    ghost predicate GapOk()
      requires |live| > 0 && live[0] in units
      reads this
    {
      Gap() == 0 || p.MinUnitEndHole() <= Gap() <= MAX_FREE_ENTRY_SIZE
    }

    /** The unit the system provides when a request of `size` bytes needs one. */
    ghost predicate IsGrant(g: int, v: Unit, size: int)
      reads this
    {
      Grantable(S(), g, v) && NewUnitSize(p.maxUnitSize, size) <= v.reservedEndPc - g
    }

    /** try_for_more_space, for a cache without a size limit. */
    method TryForMoreSpace(size: int, flushOldest: bool, g: int, v: Unit) returns (created: bool)
      requires Usable() && 0 < size
      requires units[live[0]].endPc - units[live[0]].curPc < size
      requires Gap() < size ==> IsGrant(g, v, size)
      modifies this`mem, this`heads, this`slots, this`lists, this`units, this`tops, this`live, this`toFlush
      ensures Usable()
      ensures created <==> old(Gap()) < size
      ensures NonFree(slots) == NonFree(old(slots))
      ensures old(!HasFit(slots, size)) ==> !HasFit(slots, size)
      ensures created ==> live[0] == g && g !in old(units) && g in units && units[g] == v
      ensures created ==>
          live == LiveAfter(old(live), g, flushOldest) && toFlush == QueueAfter(old(live), old(toFlush), flushOldest)
      ensures !created ==> slots == old(slots) && units[live[0]].curPc == old(units[live[0]].curPc)
      ensures !created ==> Committed(old(units[live[0]]), units[live[0]], size)
      ensures !created ==>
          live == old(live) && toFlush == old(toFlush) && !units[live[0]].full
            && size <= units[live[0]].endPc - units[live[0]].curPc
      ensures Settled(units, tops) <==> old(Settled(units, tops)) && (created ==> old(GapOk()))
      ensures units.Keys == old(units).Keys + if created then {g} else {}
      ensures SameLimits(old(units), units)
      ensures Unmarked(mem.frags) == Unmarked(old(mem.frags))
      ensures IdleKept(old(mem.frags), mem.frags, old(slots))
      ensures old(AllMarked(mem.frags, slots)) ==> AllMarked(mem.frags, slots)
      ensures old(TouchOk(units, live, slots)) ==> TouchOk(units, live, slots)
      ensures FreeAtAppend() ==> !created && old(FreeAtAppend())
      ensures !created && old(FreeAtAppend()) ==> FreeAtAppend()
    {
      hide Between, Inv, NonFree, Unmarked, Settled, AllMarked, NoFreeAt, LiveAfter, QueueAfter, Committed, TouchOk;
      var u := live[0];
      CurrentFacts();
      InvHolds();
      if units[u].endPc < units[u].reservedEndPc {
        ExtendCommitment(u, size);
        CommitSettled(old(units), units, tops, u);
        if units[u].curPc + size <= units[u].endPc {
          return false;
        }
        // must be a huge request: still worth committing, the rest becomes a free entry
        UseUpUnit(u);
        InvHolds();
        GrantableKept(p, old(S()), S(), g, v);
        NoLimboKept(old(slots), slots);
      }
      ghost var frags, mid := mem.frags, slots;
      MakeUnit(u, g, v, flushOldest);
      IdleChain(old(mem.frags), frags, mem.frags, old(slots), mid);
      created := true;
    }

    /** try_for_more_space, once the current unit cannot grow: a new unit takes its place. */
    method MakeUnit(u: int, g: int, v: Unit, flushOldest: bool)
      requires Between() && IsCurrent(live, u) && u in units && u in tops
      requires forall a {:trigger slots[a]} :: a in slots ==> !slots[a].kind.Limbo?
      requires units[u].endPc == units[u].reservedEndPc
      requires tops[u] == units[u].curPc || units[u].curPc == units[u].endPc
      requires Grantable(S(), g, v) && p.maxUnitSize <= v.reservedEndPc - g
      modifies this`mem, this`heads, this`slots, this`lists, this`units, this`tops, this`live, this`toFlush
      ensures Usable() && live[0] == g
      ensures live == LiveAfter(old(live), g, flushOldest)
      ensures toFlush == QueueAfter(old(live), old(toFlush), flushOldest)
      ensures g !in old(units) && units[g] == v && units.Keys == old(units).Keys + {g}
      ensures Settled(units, tops) <==> old(Settled(units, tops)) && old(GapOk())
      ensures SameLimits(old(units), units)
      ensures NonFree(slots) == NonFree(old(slots))
      ensures forall a :: a in slots && slots[a].kind.Free? ==>
                (a in old(slots) && slots[a] == old(slots)[a]) || slots[a].size <= old(Gap())
      ensures Unmarked(mem.frags) == Unmarked(old(mem.frags))
      ensures IdleKept(old(mem.frags), mem.frags, old(slots))
      ensures old(AllMarked(mem.frags, slots)) ==> AllMarked(mem.frags, slots)
      ensures old(TouchOk(units, live, slots)) ==> TouchOk(units, live, slots)
      ensures !FreeAtAppend()
    {
      hide Inv, Book, AppendClear, NonFree, Unmarked, IdleKept, Settled, AllMarked, NoFreeAt, TouchOk;
      BookFacts(p, units, live, toFlush, u);
      // at its maximum size already, so a separate unit rather than a resize
      assert p.maxUnitSize <= units[u].endPc - u;
      UseUpUnit(u);
      GrantableKept(p, old(S()), S(), g, v);
      NoLimboKept(old(slots), slots);
      GrantSettled(units, tops, g, v);
      ghost var us1 := units;
      GrantUnit(g, v, flushOldest);
      UnitFacts(p, S(), g);
      NoFreeAtStart(slots, tops, g);
      ClearTouch(us1, units, live, slots);
    }

    /** extend_unit_end(0, true), on the way to a new unit. */
    method UseUpUnit(u: int)
      requires Between() && IsCurrent(live, u) && u in units && u in tops
      requires units[u].endPc == units[u].reservedEndPc
      requires tops[u] == units[u].curPc || units[u].curPc == units[u].endPc
      modifies this`mem, this`heads, this`slots, this`lists, this`units, this`tops
      ensures Between() && u in units && u in tops
      ensures units == old(units)[u := old(units)[u].(curPc := units[u].endPc, full := true)]
      ensures units[u].endPc == old(units)[u].endPc
      ensures Settled(units, tops) <==> old(Settled(units, tops)) && old(GapOk())
      ensures SameLimits(old(units), units) && units.Keys == old(units).Keys
      ensures NonFree(slots) == NonFree(old(slots))
      ensures forall a :: a in slots && slots[a].kind.Free? ==>
                (a in old(slots) && slots[a] == old(slots)[a]) || slots[a].size <= old(Gap())
      ensures Unmarked(mem.frags) == Unmarked(old(mem.frags))
      ensures IdleKept(old(mem.frags), mem.frags, old(slots))
      ensures old(AllMarked(mem.frags, slots)) ==> AllMarked(mem.frags, slots)
      ensures old(TouchOk(units, live, slots)) ==> TouchOk(units, live, slots)
    {
      hide AllMarked, TouchOk;
      UnitFacts(p, S(), u);
      TopAligned(p, S(), u);
      var extra := ExtendUnitEnd(u, 0, true);
      UsedUpSettled(old(units), old(tops), units, tops, u, old(GapOk()));
      assert NonFree(slots) == NonFree(old(slots));
    }

    /** Can a free entry serve a request of `size` bytes? */
    ghost predicate Fit(size: int)
      reads this
    {
      size <= MAX_FREE_ENTRY_SIZE && HasFit(slots, size)
    }

    /** Must a request of `size` bytes be given a new unit? */
    ghost predicate NeedsUnit(size: int)
      requires |live| > 0 && live[0] in units
      reads this
    {
      !Fit(size) && Gap() < size
    }

    /** No free entry comes before the place a request of `size` bytes is going to get: the entry the search
        finds, or the append point, unless a new unit is needed. */
    ghost predicate NoFreeAtSite(size: int)
      requires |live| > 0 && live[0] in units
      reads this
    {
      if Fit(size) then NoFreeBefore(slots, FirstFit(lists, slots, size, Bucket(size)))
      else NeedsUnit(size) || !FreeAtAppend()
    }

    /** How many more rounds add_fragment_common makes. */
    ghost function Rounds(size: int): nat
      requires |live| > 0 && live[0] in units
      reads this
    {
      if NeedsUnit(size) then 2
      else if !Fit(size) && units[live[0]].endPc - units[live[0]].curPc < size then 1
      else 0
    }

    lemma InvHolds()
      requires Between()
      ensures Inv(p, S())
    {
    }

    lemma CurrentFacts()
      requires Usable()
      ensures p.Valid() && tops.Keys == units.Keys
      ensures var v := units[live[0]]; v.curPc <= v.endPc <= v.reservedEndPc && (v.full <==> v.curPc == v.endPc)
    {
      UnitPages(p, S(), live[0]);
      UnitFacts(p, S(), live[0]);
      BookFacts(p, units, live, toFlush, live[0]);
    }

    /** add_fragment_common */
    method AddFragmentCommon(f: int, size: int, flushOldest: bool, g: int, v: Unit)
      requires Usable() && IsRequest(f, size)
      requires Fit(size) ==> Settled(units, tops)
      requires NeedsUnit(size) ==> IsGrant(g, v, size)
      modifies this`mem, this`heads, this`slots, this`lists, this`units, this`tops, this`live, this`toFlush
      ensures Usable()
      ensures Gains(p, old(slots), slots, f, size)
      ensures units.Keys == old(units).Keys + if old(NeedsUnit(size)) then {g} else {}
      ensures old(Fit(size)) ==> TakesEntry(old(slots), slots, f, size)
      ensures old(Fit(size)) ==>
                var a := FirstFit(old(lists), old(slots), size, Bucket(size));
                a in slots && slots[a].kind == Live(f)
                && a in old(slots) && slots[a].size == Claimed(p, old(slots)[a].size, size)
      ensures old(!Fit(size) && !NeedsUnit(size)) ==> AppendedAt(old(slots), slots, f, old(units[live[0]].curPc))
      ensures live == if old(NeedsUnit(size)) then LiveAfter(old(live), g, flushOldest) else old(live)
      ensures toFlush == if old(NeedsUnit(size)) then QueueAfter(old(live), old(toFlush), flushOldest) else old(toFlush)
      ensures Settled(units, tops) <==> old(Settled(units, tops)) && (old(NeedsUnit(size)) ==> old(GapOk()))
      ensures SameLimits(old(units), units)
      ensures FragsKept(old(mem.frags), mem.frags, f)
      ensures old(AllMarked(mem.frags, slots)) ==> (AllMarked(mem.frags, slots) <==> old(NoFreeAtSite(size)))
      ensures FreeAtAppend() ==> old(FreeAtAppend())
      ensures old(TouchOk(units, live, slots)) ==> TouchOk(units, live, slots)
      decreases Rounds(size)
    {
      hide Inv, Book, AppendClear, RoomOk, NonFree, Unmarked, FragsKept, Gains, OffCache, Unplaced, IdleKept, Settled;
      hide AllMarked, NoFreeAt, NoFreeBefore, FirstFit, TakesEntry, AppendedAt, FreeAtAppend;
      hide Between, TouchOk;
      var found := FindFreeListSlot(f, size);
      if found {
        return;
      }
      var u := live[0];
      CurrentFacts();
      if !units[u].full && units[u].endPc - units[u].curPc >= size {
        AppendFragment(f, size);
        return;
      }
      var created := TryForMoreSpace(size, flushOldest, g, v);
      ghost var mid, frags := slots, mem.frags;
      RequestKept(old(S()), S(), f, g, v, created);
      CurrentFacts();
      assert size <= Gap();
      AddFragmentCommon(f, size, flushOldest, g, v);
      GainsChain(p, old(slots), mid, slots, f, size, old(mem.frags), frags, mem.frags);
    }

    /** The slot size asked for on behalf of `f`. */
    function SlotFor(f: int): int
      requires p.Valid() && f in mem.frags && 0 <= mem.frags[f].size
      reads this
    {
      SlotRequest(p.align, mem.frags[f].size)
    }

    /** fcache_add_fragment. The cache stays divided into slots up to every append point exactly
        when no new unit is needed, or the space it leaves unused can be put on a free list. */
    method AddFragment(f: int, flushOldest: bool, g: int, v: Unit)
      requires Stable() && f in mem.frags && IsNew(mem.frags[f])
      requires Unplaced(slots, f) && OffCache(S(), f)
      requires NeedsUnit(SlotFor(f)) ==> IsGrant(g, v, SlotFor(f))
      modifies this`mem, this`heads, this`slots, this`lists, this`units, this`tops, this`live, this`toFlush
      ensures Usable()
      ensures Gains(p, old(slots), slots, f, old(SlotFor(f)))
      ensures Stable() <==> !(old(NeedsUnit(SlotFor(f))) && MAX_FREE_ENTRY_SIZE < old(Gap()))
      ensures old(Small(units, live[0])) ==> Stable()
      ensures units.Keys == old(units).Keys + if old(NeedsUnit(SlotFor(f))) then {g} else {}
      ensures old(Fit(SlotFor(f))) ==> TakesEntry(old(slots), slots, f, old(SlotFor(f)))
      ensures old(Fit(SlotFor(f))) ==>
                var size := old(SlotFor(f));
                var a := FirstFit(old(lists), old(slots), size, Bucket(size));
                a in slots && slots[a].kind == Live(f)
                && a in old(slots) && slots[a].size == Claimed(p, old(slots)[a].size, size)
      ensures old(!Fit(SlotFor(f)) && !NeedsUnit(SlotFor(f))) ==>
                AppendedAt(old(slots), slots, f, old(units[live[0]].curPc))
      ensures live == if old(NeedsUnit(SlotFor(f))) then LiveAfter(old(live), g, flushOldest) else old(live)
      ensures toFlush == if old(NeedsUnit(SlotFor(f)))
                         then QueueAfter(old(live), old(toFlush), flushOldest) else old(toFlush)
      ensures SameLimits(old(units), units)
      ensures FragsKept(old(mem.frags), mem.frags, f)
      ensures old(MarksExact(mem.frags, slots)) ==>
                (MarksExact(mem.frags, slots) <==> old(NoFreeAtSite(SlotFor(f))))
      ensures FreeAtAppend() ==> old(FreeAtAppend())
      ensures old(TouchOk(units, live, slots)) ==> TouchOk(units, live, slots)
    {
      hide Inv, Book, AppendClear, RoomOk, NonFree, Unmarked, FragsKept, Gains, OffCache, Unplaced, IdleKept, Settled;
      hide MarksExact, AllMarked, NoFreeAtSite, TouchOk;
      UsableGap(p, S(), live, toFlush);
      MarksAre(p, S());
      AddFragmentCommon(f, SlotFor(f), flushOldest, g, v);
      MarksAre(p, S());
    }

    /** A new fragment_t of `size` bytes is allocated at heap address `f`. */
    method AllocFragment(f: int, size: int)
      requires Stable() && f !in mem.frags && OffCache(S(), f) && 0 <= size <= MAX_FRAGMENT_SIZE
      modifies this`mem
      ensures Stable()
      ensures Unplaced(slots, f)
      ensures var frag := Fragment(START_PC_ALIGNMENT, size, 0, false, false, false, 0);
        mem == old(mem).(frags := old(mem).frags[f := frag])
      ensures MarksExact(mem.frags, slots) <==> old(MarksExact(mem.frags, slots))
    {
      hide MarksExact;
      var frag := Fragment(START_PC_ALIGNMENT, size, 0, false, false, false, 0);
      AllocStep(p, S(), f, frag);
      mem := mem.(frags := mem.frags[f := frag]);
      MarksSame(old(mem.frags), mem.frags, slots);
    }

    /** fcache_fragment_pclookup: walks the unit header by header, stopping at the first header at
        or past `pc`. Returns the fragment whose body contains `pc`, or 0. */
    method FragmentPcLookup(pc: int) returns (found: int)
      requires Stable()
      ensures found != 0 ==> exists a :: BodyHas(S(), a, found, pc)
      ensures found == 0 ==> forall a, f {:trigger BodyHas(S(), a, f, pc)} :: !BodyHas(S(), a, f, pc)
    {
      if unit :| unit in units && unit <= pc < units[unit].reservedEndPc {
        UnitFacts(p, S(), unit);
        assert Anchored(slots, tops, unit);
        forall a, f | BodyHas(S(), a, f, pc) ensures unit <= a < pc && a < tops[unit] {
          BodyUnit(p, S(), a, f, pc, unit);
        }
        var at := unit;
        while at < units[unit].curPc && at < pc
          invariant unit <= at <= tops[unit]
          invariant at == tops[unit] || (at in slots && slots[at].unit == unit)
          invariant forall a, f {:trigger BodyHas(S(), a, f, pc)} :: BodyHas(S(), a, f, pc) ==> at <= a
          decreases tops[unit] - at
        {
          Discriminates(p, S(), at);
          assert SlotOk(p, mem, slots, at) && Inside(slots, tops, at) && Chained(slots, tops, at);
          var f := mem.words[at];
          ghost var next := End(slots, at);
          if FragIsFreeList(mem, f) {
            SkipSlot(p, S(), at, pc, unit);
            at := at + mem.hdrs[at].size;
          } else {
            if mem.frags[f].startPc <= pc < mem.frags[f].startPc + mem.frags[f].size {
              assert BodyHas(S(), at, f, pc);
              return f;
            }
            SkipSlot(p, S(), at, pc, unit);
            at := at + SlotSize(p, mem.frags[f]);
          }
        }
      } else {
        forall a, f ensures !BodyHas(S(), a, f, pc) {
          if BodyHas(S(), a, f, pc) {
            BodyInSlot(p, S(), a, f, pc);
          }
        }
      }
      found := 0;
    }

    /** chain_fragments_for_flush: walks unit `u` slot by slot, takes its free entries off their
        lists and chains its fragments through next_vmarea. `lazy` holds the fragments on the
        lazy-deletion list; the deleted ones found there are chained and removed from it. */
    method ChainFragmentsForFlush(u: int, lazy: set<int>)
      returns (head: int, tail: int, lazy': set<int>, ghost chain: seq<int>)
      requires Stable() && u in units && !IsCurrent(live, u)
      modifies this`mem, this`heads, this`slots, this`lists
      ensures Inv(p, S())
      ensures slots == Swept(old(slots), u, tops[u])
      ensures forall b :: 0 <= b < 9 ==> lists[b] == Outside(old(lists)[b], old(slots), u, tops[u])
      ensures u in tops && Tiled(old(slots), tops) && Anchored(old(slots), tops, u)
      ensures chain == ChainOf(old(slots), old(mem.frags), lazy, Walk(old(slots), tops, u, u))
      ensures head == At(chain, 0) && tail == At(chain, |chain| - 1)
      ensures Closed(mem.frags, chain)
      ensures Unchained(mem.frags) == Unchained(old(mem.frags))
      ensures lazy' == LazyLeft(lazy, old(mem.frags), chain)
    {
      hide Inv, Flushing, ChainedTo, Unchained, Closed;
      UnitFacts(p, S(), u);
      ghost var w := FlushStart(p, S(), u, lazy);
      head, tail, lazy' := 0, 0, lazy;
      var at := u;
      while at < units[u].curPc
        invariant Flushing(p, S(), w, at, lazy') && u <= at <= tops[u]
        invariant w == Flush(old(slots), old(lists), old(mem.frags), lazy, u, w.done, w.chain)
        invariant head == At(w.chain, 0) && tail == At(w.chain, |w.chain| - 1)
        decreases tops[u] - at
      {
        at, head, tail, lazy', w := FlushSlot(u, at, head, tail, lazy', w);
      }
      FlushEnd(p, S(), w, lazy');
      chain := w.chain;
      CloseChain(head, tail, chain, tops[u]);
    }

    /** The last fragment of the chain points at nothing. */
    method CloseChain(head: int, tail: int, ghost chain: seq<int>, ghost pc: int)
      requires Inv(p, S()) && ChainedTo(p, mem.frags, chain, pc)
      requires head == At(chain, 0) && tail == At(chain, |chain| - 1)
      modifies this`mem
      ensures Inv(p, S()) && Closed(mem.frags, chain) && Unchained(mem.frags) == Unchained(old(mem.frags))
    {
      if head != 0 {
        ChainCloses(p, mem.frags, chain, pc);
        RelinkStep(p, S(), tail, 0);
        mem := mem.(frags := mem.frags[tail := mem.frags[tail].(nextVmarea := 0)]);
      }
    }

    /** fcache_flush_pending_units, for the unit at position `k` of the pending list: its fragments
        are chained for deletion and the unit leaves the cache. */
    method FlushUnit(k: nat, lazy: set<int>) returns (head: int, tail: int, lazy': set<int>, ghost chain: seq<int>)
      requires Stable() && k < |toFlush|
      modifies this`mem, this`heads, this`slots, this`lists, this`units, this`tops, this`toFlush
      ensures Stable()
      ensures var u := old(toFlush)[k];
        && units == old(units) - {u}
        && slots == WithoutUnit(old(slots), u)
        && u in old(tops) && Tiled(old(slots), old(tops)) && Anchored(old(slots), old(tops), u)
        && (forall b :: 0 <= b < 9 ==> lists[b] == Outside(old(lists)[b], old(slots), u, old(tops)[u]))
        && chain == ChainOf(old(slots), old(mem.frags), lazy, Walk(old(slots), old(tops), u, u))
      ensures head == At(chain, 0) && tail == At(chain, |chain| - 1) && Closed(mem.frags, chain)
      ensures Unchained(mem.frags) == Unchained(old(mem.frags))
      ensures lazy' == LazyLeft(lazy, old(mem.frags), chain)
      ensures old(MarksExact(mem.frags, slots)) ==> MarksExact(mem.frags, slots)
      ensures FreeAtAppend() ==> old(FreeAtAppend())
      ensures old(TouchOk(units, live, slots)) ==> TouchOk(units, live, slots)
    {
      hide MarksExact, NoFreeAt, TouchOk;
      var u := toFlush[k];
      ghost var o := slots;
      head, tail, lazy', chain := ChainFragmentsForFlush(u, lazy);
      SweptClean(p, S(), o, u);
      RetireStep(p, S(), u);
      RetireBook(p, units, live, toFlush, k);
      ghost var st' := Retired(S(), u);
      units := units - {u};
      toFlush := toFlush[..k] + toFlush[k + 1..];
      slots := WithoutUnit(slots, u);
      tops := tops - {u};
      assert S() == st';
      RoomSame(p, old(units), units, live, o, slots);
      RetireClear(old(units), live, o, u);
      FlushedMarks(old(mem.frags), mem.frags, o, u);
      FewerAtAppend(o, slots, live[0], units[live[0]].curPc);
      FewerApart(old(units), live, o, slots);
      SameUnitTouch(old(units), units, live, slots);
    }

    /** One round of the flush walk. */
    method FlushSlot(u: int, at: int, head: int, tail: int, lazy: set<int>, ghost w: Flush)
      returns (at': int, head': int, tail': int, lazy': set<int>, ghost w': Flush)
      requires Flushing(p, S(), w, at, lazy) && w.unit == u && at < tops[u]
      requires head == At(w.chain, 0) && tail == At(w.chain, |w.chain| - 1)
      modifies this`mem, this`heads, this`slots, this`lists
      ensures Flushing(p, S(), w', at', lazy') && at < at' <= tops[u]
      ensures w' == w.(done := w'.done, chain := w'.chain)
      ensures head' == At(w'.chain, 0) && tail' == At(w'.chain, |w'.chain| - 1)
    {
      hide Inv, Flushing, ChainedTo, Unchained, Walk, Outside, Tiled;
      FlushHere(p, S(), w, at, lazy);
      Discriminates(p, S(), at);
      ghost var st := S();
      var f := mem.words[at];
      head', tail', lazy' := head, tail, lazy;
      if FragIsFreeList(mem, f) {
        at' := at + mem.hdrs[at].size;
        TakeOffList(u, at, w.lists, w.slots);
        FlushedFree(p, st, S(), w, at, lazy);
        w' := w.(done := w.done + [at]);
      } else {
        at' := at + SlotSize(p, mem.frags[f]);
        head', tail', lazy', w' := FlushFragment(f, at, at', head, tail, lazy, w);
      }
    }

    /** The flush walk meets a fragment. */
    method FlushFragment(f: int, at: int, ghost end: int, head: int, tail: int, lazy: set<int>, ghost w: Flush)
      returns (head': int, tail': int, lazy': set<int>, ghost w': Flush)
      requires Flushing(p, S(), w, at, lazy) && w.unit in tops && at < tops[w.unit] && at in w.slots
      requires w.slots[at].kind == Live(f) && end == End(w.slots, at)
      requires head == At(w.chain, 0) && tail == At(w.chain, |w.chain| - 1)
      modifies this`mem
      ensures Flushing(p, S(), w', end, lazy')
      ensures w' == w.(done := w'.done, chain := w'.chain)
      ensures head' == At(w'.chain, 0) && tail' == At(w'.chain, |w'.chain| - 1)
    {
      hide Inv, Flushing, ChainedTo, Unchained, Walk, Outside, Tiled, LazyLeft;
      FlushHere(p, S(), w, at, lazy);
      ghost var st := S();
      head', tail', lazy' := head, tail, lazy;
      SameDeleted(w.frags, mem.frags, f);
      NotChained(p, mem.frags, w.chain, at, f);
      LazyKept(w.lazy, w.frags, w.chain, f, Flushes(w.frags, w.lazy, f));
      var add := true;
      if mem.frags[f].wasDeleted {
        add := f in lazy;
        lazy' := lazy - {f};
      }
      if add {
        head', tail' := ChainFragment(f, head, tail, at, end, w.chain);
      } else {
        assert w.chain + [] == w.chain;
        ChainLater(p, mem.frags, w.chain, at, end);
      }
      FlushedLive(p, st, S(), w, at, lazy, lazy', add);
      w' := w.(done := w.done + [at], chain := w.chain + if add then [f] else []);
    }

    /** The flush walk links a fragment behind the last one. */
    method ChainFragment(f: int, head: int, tail: int, at: int, ghost pc: int, ghost chain: seq<int>)
      returns (head': int, tail': int)
      requires Inv(p, S()) && ChainedTo(p, mem.frags, chain, at) && at < pc
      requires head == At(chain, 0) && tail == At(chain, |chain| - 1)
      requires f != 0 && f in mem.frags && HdrStart(p, mem.frags[f]) == at
      modifies this`mem
      ensures Inv(p, S()) && f !in chain
      ensures ChainedTo(p, mem.frags, chain + [f], pc) && Unchained(mem.frags) == Unchained(old(mem.frags))
      ensures head' == At(chain + [f], 0) && tail' == f
    {
      ChainGrows(p, mem.frags, chain, at, pc, f);
      head' := head;
      if tail == 0 {
        assert chain == [];
        head' := f;
      } else {
        RelinkStep(p, S(), tail, f);
        mem := mem.(frags := mem.frags[tail := mem.frags[tail].(nextVmarea := f)]);
      }
      tail' := f;
    }

    /** The flush walk meets a free entry. */
    method TakeOffList(u: int, at: int, ghost olists: seq<seq<int>>, ghost o: Slots)
      requires Inv(p, S()) && at in slots && slots[at].kind.Free? && at in mem.hdrs
      requires mem.hdrs[at].size == slots[at].size
      requires Tiled(o, tops) && at in o && o[at] == slots[at] && o[at].unit == u
      requires |olists| == 9 && forall b :: 0 <= b < 9 ==> lists[b] == Outside(olists[b], o, u, at)
      modifies this`mem, this`heads, this`slots, this`lists
      ensures Inv(p, S())
      ensures slots == Retag(old(slots), at, Limbo) && mem.frags == old(mem.frags)
      ensures |lists| == 9 && forall b :: 0 <= b < 9 ==> lists[b] == Outside(olists[b], o, u, End(o, at))
    {
      ghost var st := S();
      var bucket := Bucket(mem.hdrs[at].size);
      RemoveFromFreeList(bucket, at);
      ghost var k :| 0 <= k < |st.lists[bucket]| && st.lists[bucket][k] == at
                 && lists == st.lists[bucket := Without(st.lists[bucket], k)];
      forall b | 0 <= b < 9 ensures lists[b] == Outside(olists[b], o, u, End(o, at)) {
        ListsAfterRemoval(p, st, at, k, b);
        ListPassedFree(olists[b], o, tops, u, at);
      }
    }

    /** Ready for the next request, whatever older units look like. */
    ghost predicate Usable()
      reads this
    {
      && Between()
      && (forall a {:trigger slots[a]} :: a in slots ==> !slots[a].kind.Limbo?)
      && |live| > 0 && live[0] in units && live[0] in tops
      && tops[live[0]] == units[live[0]].curPc
      && RoomOk(p, units, live, slots)
    }

    /** Between operations: additionally every unit is divided into slots up to its append point. */
    ghost predicate Stable()
      reads this
    {
      Usable() && Settled(units, tops)
    }

    /** `f` is a new fragment_t and `size` the slot size fcache_add_fragment computes for it. */
    ghost predicate IsRequest(f: int, size: int)
      reads this
    {
      && f in mem.frags && IsNew(mem.frags[f])
      && Unplaced(slots, f) && OffCache(S(), f)
      && p.align != 0 && size % p.align == 0
      && MIN_FCACHE_SLOT_SIZE <= size && HEADER_SIZE <= size - mem.frags[f].size <= 89
    }

    /** Will freeing the slot at `s` merge it with the free entry `q` before it? */
    ghost predicate Merges(f: int, s: int, q: int)
      requires s in slots
      reads this
    {
      && IsAfterFree(f)
      && q in slots
      && slots[q].size + AbsorbedSize(slots, s) <= MAX_FREE_ENTRY_SIZE
    }

    ghost predicate IsLastIn(sl: Slots, u: int, s: int)
      requires s in sl
      reads this
    {
      IsCurrent(live, u) && u in units && s + AbsorbedSize(sl, s) == units[u].curPc
    }

    /** Does the freed space end at the append point of the current unit? */
    ghost predicate IsLast(u: int, s: int)
      requires s in slots
      reads this
    {
      IsLastIn(slots, u, s)
    }
  }
}
