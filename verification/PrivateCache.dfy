/**
  A private code cache: new fragments evict the oldest ones, physically contiguous victims at a
  time, in FIFO order.
 */
module PrivateCache {
  import opened Layout
  import opened Lists
  import opened PrivateState
  import opened PrivateSpec
  import opened PrivateSteps
  import opened PrivateSurplus

  class Cache {
    const p: Params
    var units: map<int, Unit>
    var words: map<int, int>
    var nodes: map<int, Node>
    var fifo: int
    /** the cache's units, most recent first */
    var live: seq<int>
    /** the size field: bytes committed */
    var committed: int

    ghost var slots: Slots
    ghost var tops: Tops
    ghost var order: seq<int>

    ghost function S(): State
      reads this
    {
      State(units, words, nodes, fifo, slots, tops, order)
    }

    ghost predicate Valid()
      reads this
    {
      Inv(p, S(), {}) && AllLive(slots) && Book(units, live)
    }

    /** fcache_cache_init, with the initial unit `g`. */
    constructor (params: Params, g: int, v: Unit)
      requires params.Valid() && Grantable(State(map[], map[], map[], 0, map[], map[], []), g, v)
      ensures Valid() && p == params && units == map[g := v] && live == [g] && committed == v.endPc - g
      ensures nodes == map[] && slots == map[] && order == []
    {
      p := params;
      units, words, nodes, fifo, live, committed := map[g := v], map[], map[], 0, [g], v.endPc - g;
      slots, tops, order := map[], map[g := g], [];
      new;
      ghost var st := S();
      forall a ensures SlotOk(p, st, a) && Queued(st, a) && Housed(st, {}, a) && UnitOk(p, st, a) {}
      forall i ensures Linked(nodes, order, i) {}
      forall a, b ensures UnitsApart(st, a, b) && Apart(slots, a, b) {}
      forall a ensures Inside(slots, tops, a) && Chained(slots, tops, a) && Anchored(slots, tops, a) {}
    }

    /** fifo_append */
    method FifoAppend(f: int)
      requires f in nodes
      requires fifo != 0 ==> f != fifo && fifo in nodes && nodes[fifo].prev in nodes && f != nodes[fifo].prev
      modifies this`nodes, this`fifo
      ensures nodes == Appended(old(nodes), old(fifo), f, old(nodes)[f].body)
      ensures fifo == if old(fifo) == 0 then f else old(fifo)
    {
      nodes := SetNext(nodes, f, 0);
      if fifo == 0 {
        fifo := f;
        nodes := SetPrev(nodes, f, f);
      } else {
        nodes := SetPrev(nodes, f, nodes[fifo].prev);
        nodes := SetNext(nodes, nodes[fifo].prev, f);
        nodes := SetPrev(nodes, fifo, f);
      }
      nodes := SetNext(nodes, f, 0);
    }

    /** fifo_remove, for a node whose slot is already spoken for; an empty slot's node is freed. */
    method FifoRemove(f: int, ghost k: int, ghost loose: set<int>)
      requires Inv(p, S(), loose) && 0 <= k < |order| && order[k] == f && Unplaced(slots, f)
      modifies this`nodes, this`fifo, this`order
      ensures Inv(p, S(), loose - {f})
      ensures S() == Removed(old(S()), k, old(IsEmpty(nodes, f)))
      ensures SameBodies(old(nodes) - {f}, nodes - {f})
    {
      RemoveStep(p, S(), loose, k, IsEmpty(nodes, f));
      ghost var st' := Removed(S(), k, IsEmpty(nodes, f));
      RemoveFifo(nodes, fifo, order, k);
      var next, prev, empty := nodes[f].next, nodes[f].prev, nodes[f].body.Empty?;
      if f == fifo {
        fifo := next;
      } else {
        nodes := SetNext(nodes, prev, next);
      }
      if next == 0 {
        if fifo != 0 {
          nodes := SetPrev(nodes, fifo, prev);
        }
      } else {
        nodes := SetPrev(nodes, next, prev);
      }
      if empty {
        nodes := nodes - {f};
      }
      order := Without(order, k);
      assert S() == st';
    }

    /** fifo_prepend_empty. `e` is the address of a freshly allocated empty_slot_t. */
    method FifoPrependEmpty(s: int, n: int, e: int, ghost loose: set<int>)
      requires Inv(p, S(), loose) && s in slots && slots[s].kind.Limbo?
      requires slots[s].size == n && MIN_FCACHE_SLOT_SIZE <= n
      requires e != 0 && e !in nodes && e !in loose && (FrontEmpty(S()) ==> fifo !in loose)
      modifies this`nodes, this`words, this`fifo, this`slots, this`order
      ensures Inv(p, S(), loose)
      ensures old(fifo) != 0 ==> old(fifo) in old(nodes)
      ensures old(FrontAfter(S(), s + n)) ==> s + n in old(slots)
      ensures old(FrontBefore(S(), s)) ==>
                var q := HdrStart(old(nodes)[old(fifo)].body); q in old(slots) && End(old(slots), q) == s
      ensures S() == Emptied(old(S()), s, e)
    {
      hide Inv, Join, Retag;
      EmptiedStep(p, S(), loose, s, e);
      ghost var st' := Emptied(S(), s, e);
      slots, order := st'.slots, st'.order;
      if fifo != 0 && nodes[fifo].body.Empty? {
        var b := nodes[fifo].body;
        if HdrStart(b) == s + n {
          nodes := nodes[fifo := nodes[fifo].(body := Empty(s + HEADER_SIZE, b.fcacheSize + n))];
          words := words[s := fifo];
          return;
        } else if HdrStart(b) + SlotSize(b) == s {
          nodes := nodes[fifo := nodes[fifo].(body := b.(fcacheSize := b.fcacheSize + n))];
          return;
        }
      }
      words := words[s := e];
      var prev := if fifo == 0 then e else nodes[fifo].prev;
      if fifo != 0 {
        nodes := SetPrev(nodes, fifo, e);
      }
      nodes := nodes[e := Node(Empty(s + HEADER_SIZE, n), fifo, prev)];
      fifo := e;
    }

    /** place_fragment followed by fifo_append */
    method PlaceFragment(f: int, s: int, n: int)
      requires Inv(p, S(), {}) && s in slots && slots[s].kind.Limbo? && slots[s].size == n && MIN_FCACHE_SLOT_SIZE <= n
      requires f != 0 && f !in order && f in nodes && nodes[f].body.Frag? && Unplaced(slots, f)
      requires 0 <= nodes[f].body.size && HEADER_SIZE <= n - nodes[f].body.size <= 255
      modifies this`nodes, this`words, this`fifo, this`slots, this`order
      ensures Inv(p, S(), {})
      ensures slots == Retag(old(slots), s, Live(f)) && order == old(order) + [f] && words == old(words)[s := f]
      ensures nodes.Keys == old(nodes.Keys)
      ensures RecordPlaced(old(nodes), nodes, f, s, n)
    {
      hide Inv, RecordPlaced;
      ghost var body := nodes[f].body.(startPc := s + HEADER_SIZE, extra := n - nodes[f].body.size);
      PlaceStep(p, S(), {}, s, f, body);
      ghost var st' := PlacedAt(S(), s, f, body);
      FifoFacts(p, S(), {});
      PlaceRecord(p, S(), f, s, n);
      assert Linked(nodes, order, 0) && (forall x :: x in order ==> x != f);
      assert fifo != 0 ==> Linked(nodes, order, |order| - 1);
      words := words[s := f];
      var b := nodes[f].body;
      nodes := nodes[f := nodes[f].(body := b.(startPc := s + HEADER_SIZE, extra := n - b.size))];
      FifoAppend(f);
      slots, order := Retag(slots, s, Live(f)), order + [f];
      assert S() == st';
    }

    /** fcache_remove_fragment */
    method RemoveFragment(f: int, e: int)
      requires Valid() && f in order && f in nodes && nodes[f].body.Frag? && e != 0 && e !in nodes
      modifies this`nodes, this`words, this`fifo, this`slots, this`order
      ensures Valid()
      ensures f !in order && Unplaced(slots, f)
      ensures InEmpty(S(), old(HdrStart(nodes[f].body)), old(SlotSize(nodes[f].body)))
      ensures OtherSlots(old(S()), S(), f) && f in nodes && nodes[f].body == old(nodes[f].body)
      ensures var a, n := old(HdrStart(nodes[f].body)), old(SlotSize(nodes[f].body));
        order == (if old(FrontAfter(S(), a + n) || FrontBefore(S(), a)) then [] else [e]) + Keep(old(order), {f})
    {
      hide Inv, AllLive, Emptied, Removed, InEmpty, Unplaced, OtherSlots;
      var a, n := HdrStart(nodes[f].body), SlotSize(nodes[f].body);
      NodeSlot(p, S(), {}, f);
      LooseStep(p, S(), {}, a);
      RestLive(slots, a);
      slots := Retag(slots, a, Limbo);
      ghost var st := S();
      assert {} + {f} == {f} && {f} - {f} == {};
      ghost var k :| 0 <= k < |st.order| && st.order[k] == f;
      ghost var pre := if FrontAfter(st, a + n) || FrontBefore(st, a) then [] else [e];
      FifoPrependEmpty(a, n, e, {f});
      ghost var st1 := S();
      RemoveEmptied(p, st, st1, a, e, f);
      RemoveUnlinked(p, st1, |pre| + k, f, pre, st.order, k);
      FifoRemove(f, |pre| + k, {f});
      EmptyRelinked(st1, S(), a, n);
      OthersRelinked(st, st1, S(), f);
      OthersLoosened(old(S()), S(), f, a);
    }

    /** FIFO_UNIT */
    method LookupUnit(pc: int, ghost a: int) returns (u: int)
      requires Inv(p, S(), {}) && a in slots && a <= pc < End(slots, a)
      ensures u in units && u in tops && u == slots[a].unit
    {
      assert Inside(slots, tops, a) && UnitOk(p, S(), slots[a].unit);
      assert slots[a].unit in units && slots[a].unit <= pc < units[slots[a].unit].endPc;
      u :| u in units && u <= pc < units[u].endPc;
      assert UnitOk(p, S(), u) && UnitsApart(S(), u, slots[a].unit) && UnitsApart(S(), slots[a].unit, u);
    }

    /** The first walk of replace_fragments: may every victim go? */
    method CheckVictims(u: int, first: int, size: int) returns (ok: bool)
      requires Valid() && first in order && first in nodes
      requires u in units && HdrStart(nodes[first].body) in slots
      requires u == slots[HdrStart(nodes[first].body)].unit && u in tops
      ensures var a := HdrStart(nodes[first].body);
        ok <==> Evictable(S(), a, Reach(slots, tops, a, size))
    {
      var a := HdrStart(nodes[first].body);
      NodeSlot(p, S(), {}, first);
      assert UnitOk(p, S(), u);
      var soFar, pc, victim := 0, a, first;
      while true
        invariant a <= pc && pc in slots && slots[pc].unit == u && slots[pc].kind == Live(victim) && soFar == pc - a
        invariant Reach(slots, tops, a, size) == Reach(slots, tops, pc, size - soFar)
        invariant Evictable(S(), a, pc)
        decreases tops[u] - pc
      {
        assert SlotOk(p, S(), pc) && Inside(slots, tops, pc) && Chained(slots, tops, pc);
        if nodes[victim].body.Frag? && nodes[victim].body.cannotDelete {
          assert !Deletable(S(), pc);
          return false;
        }
        ghost var at := pc;
        soFar := soFar + SlotSize(nodes[victim].body);
        assert Evictable(S(), a, End(slots, at)) by {
          forall x | x in slots && a <= x < End(slots, at) ensures Deletable(S(), x) {
            assert Apart(slots, at, x);
          }
        }
        if soFar >= size {
          return true;
        }
        pc := pc + SlotSize(nodes[victim].body);
        if pc == units[u].curPc {
          return true;
        }
        assert SlotOk(p, S(), pc) && Inside(slots, tops, pc);
        victim := words[pc];
      }
    }

    /** force_fragment_from_cache; `pc` is the victim's slot and `a` the slot in limbo before it. */
    method Evict(victim: int, ghost a: int, ghost pc: int, ghost k: int)
      requires Inv(p, S(), {}) && a in slots && pc in slots && 0 <= k < |order| && order[k] == victim
      requires a != pc ==> slots[a].kind.Limbo? && End(slots, a) == pc
      requires slots[pc].kind == Live(victim)
      modifies this`nodes, this`fifo, this`order, this`slots
      ensures Inv(p, S(), {})
      ensures S() == Removed(old(S()), k, true).(slots := Swallow(old(slots), a, pc))
    {
      SwallowStep(p, S(), a, pc, k);
      ghost var st' := Removed(S(), k, true).(slots := Swallow(slots, a, pc));
      assert Linked(nodes, order, k);
      var empty := nodes[victim].body.Empty?;
      ghost var s0 := slots;
      slots := Retag(slots, pc, Limbo);
      FifoRemove(victim, k, {victim});
      if !empty {
        nodes := nodes - {victim};
      }
      slots := Swallow(s0, a, pc);
      assert S() == st';
    }

    /** The second walk of replace_fragments. */
    method EvictVictims(u: int, first: int, size: int) returns (soFar: int)
      requires Valid() && first in order && first in nodes
      requires u in units && HdrStart(nodes[first].body) in slots
      requires u == slots[HdrStart(nodes[first].body)].unit && u in tops
      modifies this`nodes, this`fifo, this`order, this`slots
      ensures Inv(p, S(), {})
      ensures var a := old(HdrStart(nodes[first].body));
        && a + soFar == Reach(old(slots), old(tops), a, size)
        && EvictedTo(old(S()), S(), a, a + soFar)
    {
      hide Inv, EvictedTo, Removed, Swallow, Tiled;
      ghost var o := S();
      var a := HdrStart(nodes[first].body);
      NodeSlot(p, o, {}, first);
      EvictStart(p, o, a);
      TilingOf(p, o);
      soFar := 0;
      var pc, victim := a, first;
      while true
        invariant Inv(p, S(), {}) && EvictedTo(o, S(), a, pc)
        invariant a <= pc && pc in o.slots && o.slots[pc].unit == u
        invariant o.slots[pc].kind == Live(victim) && soFar == pc - a
        invariant Reach(o.slots, o.tops, a, size) == Reach(o.slots, o.tops, pc, size - soFar)
        decreases o.tops[u] - pc
      {
        ghost var k := VictimFacts(p, o, S(), a, pc, victim);
        EvictStep(p, o, S(), a, pc, k);
        var n := SlotSize(nodes[victim].body);
        soFar := soFar + n;
        Evict(victim, a, pc, k);
        pc := pc + n;
        if soFar >= size || pc == units[u].curPc {
          break;
        }
        victim := words[pc];
      }
    }

    /** extend_unit_end with rest_empty false: `size` bytes, and all that is left if that is too
        little for another slot. */
    method ExtendUnitEnd(u: int, size: int) returns (extra: int)
      requires Inv(p, S(), {}) && u in units && 0 < size && units[u].curPc + size <= units[u].endPc
      requires size % p.align == 0 && units[u].curPc % p.align == 0
      modifies this`units, this`slots, this`tops
      ensures Inv(p, S(), {}) && u in old(tops) && old(tops)[u] == old(units)[u].curPc && old(tops)[u] !in old(slots)
      ensures extra == Leftover(p, old(units)[u], size) && S() == Extended(old(S()), u, size + extra)
    {
      hide Inv;
      ghost var st := S();
      ClaimStep(p, st, u, size);
      var v := units[u];
      v := v.(curPc := v.curPc + size);
      var left := v.endPc - v.curPc;
      extra := 0;
      if left < p.MinUnitEndHole() {
        v := v.(full := true);
        if left > 0 {
          extra := left;
          v := v.(curPc := v.curPc + extra);
        }
      }
      units := units[u := v];
      slots, tops := Append(slots, tops, u, size + extra), tops[u := tops[u] + (size + extra)];
      assert S() == Extended(st, u, size + extra);
    }

    /** replace_fragments, when the victims end where the unit's slots end: claim what is missing. */
    method ClaimTail(u: int, size: int, soFar: int, ghost a: int) returns (n: int)
      requires Inv(p, S(), {}) && a in slots && slots[a] == Slot(soFar, u, Limbo) && soFar < size && size % p.align == 0
      requires u in units && u in tops && a + soFar == tops[u] && a + size <= units[u].endPc
      modifies this`units, this`slots, this`tops
      ensures Inv(p, S(), {})
      ensures n == size + Leftover(p, old(units)[u], size - soFar) && size <= n < size + p.MinUnitEndHole()
      ensures slots == old(slots)[a := Slot(n, u, Limbo)] && tops == old(tops)[u := a + n]
      ensures !old(units)[u].full && units == old(units)[u := old(units)[u].(curPc := a + n, full := units[u].full)]
    {
      hide Inv;
      GrowHole(p, S(), a, size);
      FullMeans(p, S(), u);
      var extra := ExtendUnitEnd(u, size - soFar);
      slots := Join(slots, a);
      n := size + extra;
    }

    /** replace_fragments, when the victims are larger than needed by enough for an empty slot. */
    method CutHole(size: int, soFar: int, a: int, e: int)
      requires Inv(p, S(), {}) && a in slots && slots[a].kind.Limbo? && slots[a].size == soFar
      requires 0 < size && size + p.minEmptyHole <= soFar && size % p.align == 0 && e != 0 && e !in nodes
      modifies this`nodes, this`words, this`fifo, this`slots, this`order
      ensures Inv(p, S(), {}) && Cut(old(S()), S(), a, size, e)
      ensures nodes.Keys == old(nodes.Keys) + (if old(FrontAfter(S(), a + soFar)) then {} else {e})
      ensures SameFrags(old(nodes), nodes) && SameFrags(nodes, old(nodes))
    {
      hide Inv, Emptied, Cut;
      CutStep(p, S(), a, size, e);
      slots := Split(slots, a, size);
      FifoPrependEmpty(a + size, soFar - size, e, {});
    }

    /** replace_fragments from the second walk's result on: `soFar` bytes in limbo at `a` become the
        place of `f`, what is missing is claimed and what is left over is eaten or made empty. */
    method FillHole(u: int, a: int, soFar: int, f: int, size: int, e: int) returns (ghost k: int, ghost gap: int)
      requires Inv(p, S(), {}) && a in slots && slots[a] == Slot(soFar, u, Limbo)
      requires AllLive(slots - {a}) && Book(units, live)
      requires Request(p, S(), f, size) && e != 0 && e !in nodes
      requires u in units && u in tops && (soFar < size ==> a + soFar == tops[u] && a + size <= units[u].endPc)
      modifies this`nodes, this`words, this`fifo, this`slots, this`order, this`units, this`tops
      ensures Valid()
      ensures Filled(p, old(S()), S(), f, e, a, size, k, gap)
    {
      hide Inv, AllLive, Book, RecordPlaced, OtherFrags, SameFrags;
      ghost var m := S();
      TilingOf(p, m);
      NothingChanged(nodes);
      var n := size;
      gap := 0;
      if soFar < size {
        n := ClaimTail(u, size, soFar, a);
        BookExtended(m.units, live, u, units[u]);
      } else if soFar - size < p.minEmptyHole {
        n := soFar;
      } else {
        gap := soFar - size;
        CutHole(size, soFar, a, e);
      }
      WaitingSame(m, nodes, f);
      ghost var mid := nodes;
      PlaceFragment(f, a, n);
      RecordChain(m.nodes, mid, nodes, f, a, n);
      k := n;
      FilledLive(p, m, S(), f, e, a, size, k, gap);
    }

    /** replace_fragments: all or nothing. */
    method ReplaceFragments(u: int, f: int, first: int, size: int, e: int)
        returns (ok: bool, ghost m: State, ghost k: int, ghost gap: int)
      requires Valid() && Request(p, S(), f, size) && e != 0 && e !in nodes
      requires first in order && first in nodes && u in units && u in tops
      requires HdrStart(nodes[first].body) in slots && u == slots[HdrStart(nodes[first].body)].unit
      requires HdrStart(nodes[first].body) + size <= units[u].endPc
      modifies this`nodes, this`words, this`fifo, this`slots, this`order, this`units, this`tops
      ensures Valid()
      ensures ok <==> old(Replaceable(S(), first, size))
      ensures !ok ==> S() == old(S())
      ensures ok ==>
                var a := old(HdrStart(nodes[first].body));
                && EvictedTo(old(S()), m, a, Reach(old(slots), old(tops), a, size))
                && a in m.slots && m.slots[a].unit == u && u in m.tops
                && Filled(p, m, S(), f, e, a, size, k, gap)
      ensures f in old(nodes) && f in m.nodes && m.nodes[f].body == old(nodes)[f].body
    {
      hide Inv, Filled, EvictedTo, AllLive, Evictable, Book;
      m, k, gap := S(), 0, 0;
      ghost var o := S();
      var a := HdrStart(nodes[first].body);
      ok := CheckVictims(u, first, size);
      EvictableRange(p, o, a, size);
      if ok {
        TilingOf(p, o);
        ReachLeast(slots, tops, a, size);
        var soFar := EvictVictims(u, first, size);
        m := S();
        EvictedFacts(p, o, m, a, a + soFar, f);
        k, gap := FillHole(u, a, soFar, f, size, e);
      }
    }

    /** The walks of add_fragment_common over the empties and of replace_fifo over the rest: the
        first entry of the FIFO that can make room does. */
    method ReplaceFirst(f: int, size: int, e: int, start: int, emptyOnly: bool, ghost from: int)
        returns (ok: bool, rest: int, ghost at: int, ghost m: State, ghost k: int, ghost gap: int)
      requires Valid() && Request(p, S(), f, size) && e != 0 && e !in nodes
      requires 0 <= from <= |order| && start == At(order, from)
      modifies this`nodes, this`words, this`fifo, this`slots, this`order, this`units, this`tops
      ensures Valid() && from <= at <= |old(order)| && old(NoneReplaceable(S(), from, at, size))
      ensures ok ==>
          at < |old(order)| && old(order)[at] in old(nodes)
            && ReplacedAt(p, old(S()), m, S(), f, e, old(order)[at], size, k, gap)
      ensures ok ==> f in old(nodes) && f in m.nodes && m.nodes[f].body == old(nodes)[f].body
      ensures !ok ==> S() == old(S()) && rest == At(order, at)
      ensures emptyOnly ==> (forall i :: from <= i < at ==> old(IsEmpty(nodes, order[i])))
      ensures !ok && at < |order| ==> emptyOnly && !IsEmpty(nodes, order[at])
      ensures ok && emptyOnly ==> old(IsEmpty(nodes, order[at]))
    {
      hide Inv, Filled, EvictedTo, AllLive, Waiting, Evictable, Book;
      ghost var o := S();
      ok, rest, at, m, k, gap := false, start, from, o, 0, 0;
      TilingOf(p, o);
      FifoFacts(p, o, {});
      assert Linked(nodes, order, from);
      while rest != 0 && (emptyOnly ==> nodes[rest].body.Empty?)
        invariant S() == o && from <= at <= |order| && rest == At(order, at) && !ok
        invariant NoneReplaceable(o, from, at, size)
        invariant rest != 0 ==> rest in nodes
        invariant emptyOnly ==> forall i :: from <= i < at ==> IsEmpty(nodes, order[i])
        decreases |order| - at
      {
        NodeSlot(p, o, {}, rest);
        var a := HdrStart(nodes[rest].body);
        var u := LookupUnit(a, a);
        if size <= units[u].endPc - a {
          ok, m, k, gap := ReplaceFragments(u, f, rest, size, e);
          if ok {
            return;
          }
        }
        assert Linked(nodes, order, at);
        rest := nodes[rest].next;
        at := at + 1;
        assert Linked(nodes, order, at);
      }
    }

    /** add_fragment_common, second step: room at the end of the newest unit. */
    method AppendFragment(u: int, f: int, size: int) returns (n: int)
      requires Valid() && Request(p, S(), f, size)
      requires u == live[0] && units[u].curPc + size <= units[u].endPc
      modifies this`nodes, this`words, this`fifo, this`slots, this`order, this`units, this`tops
      ensures Valid()
      ensures n == size + Leftover(p, old(units)[u], size) && size <= n < size + p.MinUnitEndHole()
      ensures slots == old(slots)[old(units)[u].curPc := Slot(n, u, Live(f))] && order == old(order) + [f]
      ensures RecordPlaced(old(nodes), nodes, f, old(units)[u].curPc, n) && nodes.Keys == old(nodes.Keys)
      ensures SameReserved(old(units), units)
      ensures u in old(tops) && tops == old(tops)[u := old(tops)[u] + n]
    {
      hide Inv;
      ghost var o := S();
      TopAligned(p, o, u);
      ClaimStep(p, o, u, size);
      var pc := units[u].curPc;
      var extra := ExtendUnitEnd(u, size);
      n := size + extra;
      PlaceFragment(f, pc, n);
    }

    // ----- returning space that is not needed

    /** The fragment `f` at `a` can shrink to `n` bytes, with the record `body`. */
    ghost predicate Shrinkable(a: int, n: int, f: int, body: Body)
      reads this
    {
      && p.align != 0 && a in slots && slots[a].kind == Live(f) && f in nodes && nodes[f].body.Frag?
      && MIN_FCACHE_SLOT_SIZE <= n < slots[a].size && n % p.align == 0 && Fitting(body, a, n)
    }

    /** fcache_return_extra_space, at the append point, which moves back. */
    method RetractTail(u: int, a: int, n: int, f: int, body: Body)
      requires Valid() && Shrinkable(a, n, f, body)
      requires u == live[0] && u in units && slots[a].unit == u && End(slots, a) == units[u].curPc
      requires p.MinUnitEndHole() <= units[u].endPc - (a + n)
      modifies this`nodes, this`slots, this`units, this`tops
      ensures Valid() && GaveUp(old(S()), S(), f, a, old(slots)[a].size - n, body)
      ensures units == old(units)[u := old(units)[u].(curPc := a + n, full := false)]
    {
      hide Inv, AllLive, Book, OtherSlots, Fitting;
      ghost var o := S();
      ShrinkStep(p, o, a, n, f, body);
      ghost var m := Shortened(o, a, n, f, body);
      RetractStep(p, m, a + n);
      RetractedGave(o, m, f, a, a + n, body);
      BookExtended(units, live, u, units[u].(curPc := a + n, full := false));
      ghost var st' := Retracted(m, a + n);
      nodes := nodes[f := nodes[f].(body := body)];
      units := units[u := units[u].(curPc := a + n, full := false)];
      slots, tops := st'.slots, st'.tops;
      assert S() == st';
    }

    /** fcache_return_extra_space, before an empty slot, which takes the tail in. */
    method GrowNext(a: int, n: int, k: int, f: int, body: Body)
      requires Valid() && Shrinkable(a, n, f, body) && n + k == slots[a].size && EmptyNext(S(), a)
      modifies this`nodes, this`words, this`slots
      ensures Valid() && GaveUp(old(S()), S(), f, a, k, body) && InEmpty(S(), a + n, k)
    {
      hide Inv, AllLive, Book, OtherSlots, Fitting, InEmpty;
      hide GrownBack, GaveUp;
      ghost var o := S();
      EndFacts(p, o, live, a);
      var e := words[a + n + k];
      MergeReady(p, o, a, n, f, body, e);
      ghost var st' := GrownBack(Shortened(o, a, n, f, body), a + n, e);
      BackFields(Shortened(o, a, n, f, body), a + n, e);
      nodes := nodes[f := nodes[f].(body := body)];
      nodes := nodes[e := nodes[e].(body := Empty(a + n + HEADER_SIZE, nodes[e].body.fcacheSize + k))];
      words := words[a + n := e];
      slots := st'.slots;
      assert S() == st';
    }

    /** fcache_return_extra_space, before a fragment or at the end of an older unit: the tail becomes an
        empty slot of its own. */
    method PrependTail(a: int, n: int, k: int, f: int, body: Body, e: int)
      requires Valid() && Shrinkable(a, n, f, body) && n + k == slots[a].size && !EmptyNext(S(), a)
      requires MIN_FCACHE_SLOT_SIZE <= k && e != 0 && e !in nodes
      modifies this`nodes, this`words, this`fifo, this`slots, this`order
      ensures Valid() && GaveUp(old(S()), S(), f, a, k, body) && InEmpty(S(), a + n, k)
      ensures order == [e] + old(order)
    {
      hide Inv, AllLive, Book, OtherSlots, InEmpty, Emptied;
      ghost var o := S();
      ShrinkStep(p, o, a, n, f, body);
      ghost var m := Shortened(o, a, n, f, body);
      nodes := nodes[f := nodes[f].(body := body)];
      slots := m.slots;
      assert S() == m;
      FifoPrependEmpty(a + n, k, e, {});
      PrependedGave(p, o, m, S(), f, a, a + n, body, e);
    }

    /** The branches of fcache_return_extra_space: the last `k` of the slot's `size` bytes are released, unless
        that is not worth it. */
    method ReleaseSurplus(u: int, a: int, size: int, k: int, f: int, body: Body, e: int) returns (given: int)
      requires Valid() && 0 < k && Shrinkable(a, size - k, f, body) && size == slots[a].size
      requires u == slots[a].unit && u in units && e != 0 && e !in nodes
      modifies this`nodes, this`words, this`fifo, this`slots, this`order, this`units, this`tops
      ensures Valid()
      ensures given == if old(WorthReleasing(p, S(), a, k)) then k else 0
      ensures given == 0 && End(old(slots), a) != old(units)[u].endPc ==> k < p.minEmptyHole
      ensures if given == 0 then S() == old(S()) && k < p.MinUnitEndHole()
              else GaveUp(old(S()), S(), f, a, k, body) && WentTo(old(S()), S(), live[0], a, k, e)
    {
      hide Inv, AllLive, Book, GaveUp, WentTo, Fitting, InEmpty;
      ghost var o := S();
      EndFacts(p, o, live, a);
      given := 0;
      if a + size == units[u].endPc {
        if k >= p.MinUnitEndHole() {
          given := k;
          if u == live[0] {
            RetractTail(u, a, size - k, f, body);
            WentBack(o, S(), f, a, k, body, live[0], e);
          } else {
            PrependTail(a, size - k, k, f, body, e);
            WentEmpty(o, S(), f, a, k, body, live[0], e);
          }
        }
      } else if a + size == units[u].curPc {
        given := k;
        RetractTail(u, a, size - k, f, body);
        WentBack(o, S(), f, a, k, body, live[0], e);
      } else {
        var next := words[a + size];
        if nodes[next].body.Empty? {
          given := k;
          GrowNext(a, size - k, k, f, body);
          WentEmpty(o, S(), f, a, k, body, live[0], e);
        } else if k >= p.minEmptyHole {
          given := k;
          PrependTail(a, size - k, k, f, body, e);
          WentEmpty(o, S(), f, a, k, body, live[0], e);
        }
      }
    }

    /** The slot of `f` ends where its unit does. */
    ghost predicate AtUnitEnd(f: int)
      reads this
    {
      f in nodes && var b := nodes[f].body;
        HdrStart(b) in slots && slots[HdrStart(b)].unit in units
        && HdrStart(b) + SlotSize(b) == units[slots[HdrStart(b)].unit].endPc
    }

    /** fcache_return_extra_space: the last `space` bytes of the fragment's code are not needed. Returns how
        many bytes the fragment's slot gave up; `e` is the address of a new empty_slot_t. */
    method ReturnExtraSpace(f: int, space: int, e: int) returns (given: int)
      requires Valid() && f in order && f in nodes && nodes[f].body.Frag? && 0 <= space <= nodes[f].body.size
      requires e != 0 && e !in nodes
      modifies this`nodes, this`words, this`fifo, this`slots, this`order, this`units, this`tops
      ensures Valid()
      ensures given == old(GivenBack(p, S(), f, space)) && 0 <= given
      ensures f in nodes && nodes[f].body.Frag? && HEADER_SIZE <= nodes[f].body.extra <= 255
      // what is kept beyond need is no useful hole
      ensures nodes[f].body.extra < p.align + MIN_FCACHE_SLOT_SIZE
                + if old(AtUnitEnd(f)) then p.MinUnitEndHole() else p.minEmptyHole
      ensures var a, b := old(HdrStart(nodes[f].body)), nodes[f].body;
        && GaveUp(old(S()), S(), f, a, given, b) && WentTo(old(S()), S(), live[0], a, given, e)
        && b == old(nodes[f].body).(size := old(nodes[f].body.size) - space, extra := b.extra)
    {
      hide Inv, AllLive, Book, OtherSlots, SurplusAt, WorthReleasing, WentTo, GaveUp;
      ghost var o := S();
      PlacedSurplus(p, o, f, space);
      NodeSlot(p, o, {}, f);
      var b := nodes[f].body;
      var a, r := HdrStart(b), SurplusOf(p, b, space);
      var u := LookupUnit(b.startPc, a);
      BookFacts(units, live);
      var kept := b.(size := b.size - space, extra := HEADER_SIZE + r.slotPadding + r.minPadding);
      KeptFits(p, b, space, kept, 0);
      given := 0;
      if r.returnable > 0 {
        given := ReleaseSurplus(u, a, SlotSize(b), r.returnable, f, kept, e);
      }
      if given == 0 {
        kept := kept.(extra := kept.extra + r.returnable);
        KeptFits(p, b, space, kept, r.returnable);
        KeepStep(p, o, a, f, kept);
        GaveNothing(o, f, a, kept);
        nodes := nodes[f := nodes[f].(body := kept)];
        assert S() == Rewritten(o, f, kept);
        WentNowhere(o, S(), a, live[0], e);
      }
      GaveFacts(o, S(), f, a, given, kept);
    }

    // ----- more space

    /** Room left in the current unit's reservation. */
    ghost function Gap(): int
      requires |live| > 0 && live[0] in units
      reads this
    {
      units[live[0]].reservedEndPc - units[live[0]].curPc
    }

    /** extend_unit_end(0, true): the rest of the current unit becomes an empty slot. */
    method UseUpUnit(u: int, e: int)
      requires Valid() && u == live[0] && (!units[u].full ==> e != 0 && e !in nodes)
      modifies this`nodes, this`words, this`fifo, this`slots, this`order, this`units, this`tops
      ensures Valid() && u in units
      ensures units == old(units)[u := old(units)[u].(curPc := old(units)[u].endPc, full := true)]
      ensures GrownFrom(old(S()), S(), e)
      ensures old(units)[u].full ==> S() == old(S())
      ensures !old(units)[u].full ==> InEmpty(S(), old(units)[u].curPc, old(units)[u].endPc - old(units)[u].curPc)
    {
      hide Inv, AllLive, Emptied, InEmpty, GrownFrom;
      UnitPages(p, S(), u);
      FullMeans(p, S(), u);
      var left := units[u].endPc - units[u].curPc;
      if left < p.MinUnitEndHole() {
        // nothing is left: what remains at the end of a unit is none or enough for a slot
        NothingLeft(p, S(), u);
        NothingGrown(S(), e);
      } else {
        var pc := units[u].curPc;
        ghost var o := S();
        ghost var n := RestGrown(p, o, u, e);
        slots, tops := Append(slots, tops, u, left), tops[u := tops[u] + left];
        units := units[u := units[u].(curPc := units[u].curPc + left, full := true)];
        assert S() == Extended(o, u, left);
        FifoPrependEmpty(pc, left, e, {});
        BookExtended(o.units, live, u, units[u]);
      }
    }

    /** try_for_more_space, committing more of the current unit's reservation. */
    method ExtendCommitment(u: int, slot: int)
      requires Valid() && u == live[0] && 0 < slot
      requires units[u].endPc < units[u].reservedEndPc && units[u].endPc < units[u].curPc + slot
      modifies this`units, this`committed
      ensures Valid()
      ensures u in units && units == old(units)[u := old(units)[u].(endPc := units[u].endPc, full := false)]
      ensures committed == old(committed) + units[u].endPc - old(units)[u].endPc
      ensures old(units)[u].endPc < units[u].endPc <= units[u].reservedEndPc
      ensures units[u].endPc < units[u].curPc + slot ==> units[u].endPc == units[u].reservedEndPc
      ensures Recommitted(p, old(S()), S(), u, slot)
      ensures forall e :: GrownFrom(old(S()), S(), e)
    {
      hide Inv, AllLive, GrownFrom, Commits;
      UnitPages(p, S(), u);
      ghost var o := S();
      var commit := CommitSize(p.commitIncrement, units[u].curPc + slot, units[u].endPc, units[u].reservedEndPc);
      CommitStep(p, o, u, units[u].endPc + commit);
      units := units[u := units[u].(endPc := units[u].endPc + commit, full := false)];
      committed := committed + commit;
      BookExtended(o.units, live, u, units[u]);
      forall e ensures GrownFrom(o, S(), e) {
        CommitGrown(o, S(), u, e);
      }
    }

    /** The size of the cache once the current unit is committed to its end. */
    ghost function SizeThen(): int
      requires |live| > 0 && live[0] in units
      reads this
    {
      committed + units[live[0]].reservedEndPc - units[live[0]].endPc
    }

    /** The limit on the cache's size allows another unit for a slot of `slot` bytes. */
    ghost predicate MayAdd(slot: int)
      requires |live| > 0 && live[0] in units
      reads this
    {
      p.maxSize == 0 || SizeThen() + slot <= p.maxSize
    }

    /** What fcache_create_unit is asked for, and provides. */
    ghost predicate IsGrant(g: int, v: Unit, slot: int)
      requires |live| > 0 && live[0] in units
      reads this
    {
      var size := NewUnitSize(p.maxUnitSize, slot);
      var room := if p.maxSize > 0 && SizeThen() + size > p.maxSize then p.maxSize - SizeThen() else size;
      Grantable(S(), g, v) && room <= v.reservedEndPc - g
    }

    /** try_for_more_space, adding the new unit `g`. */
    method GrantUnit(g: int, v: Unit)
      requires Valid() && units[live[0]].full && Grantable(S(), g, v)
      modifies this`units, this`tops, this`live, this`committed
      ensures Valid()
      ensures g !in old(units) && units == old(units)[g := v] && live == [g] + old(live)
      ensures committed == old(committed) + v.endPc - g
      ensures forall e :: GrownFrom(old(S()), S(), e)
    {
      hide Inv, AllLive, GrownFrom;
      ghost var o := S();
      GrantStep(p, o, g, v);
      units, tops := units[g := v], tops[g := g];
      committed := committed + (v.endPc - g);
      live := [g] + live;
      forall e ensures GrownFrom(o, S(), e) {
        GrantGrown(o, S(), g, v, e);
      }
    }

    /** try_for_more_space in a cache whose units are not relocated: commit more of the current unit, or
        turn its rest into an empty slot and add a unit as far as the size limit allows. */
    method TryForMoreSpace(slot: int, g: int, v: Unit, e: int) returns (ok: bool)
      requires Valid() && 0 < slot && units[live[0]].endPc - units[live[0]].curPc < slot
      requires 0 < Gap() < slot ==> e != 0 && e !in nodes
      requires Gap() < slot && MayAdd(slot) ==> IsGrant(g, v, slot)
      modifies this
      ensures Valid() && GrownFrom(old(S()), S(), e)
      ensures ok <==> old(slot <= Gap() || MayAdd(slot))
      ensures ok ==> slot <= Gap()
      ensures old(slot <= Gap()) ==>
                slot <= units[live[0]].endPc - units[live[0]].curPc
                && Recommitted(p, old(S()), S(), live[0], slot)
                && committed == old(committed) + units[live[0]].endPc - old(units[live[0]].endPc)
      ensures live == if old(Gap() < slot && MayAdd(slot)) then [g] + old(live) else old(live)
      ensures !ok ==> Gap() < slot && !MayAdd(slot) && (0 < Gap() ==> S() == old(S()))
    {
      hide Inv, AllLive, GrownFrom, Recommitted;
      var u := live[0];
      UnitPages(p, S(), u);
      FullMeans(p, S(), u);
      ghost var o := S();
      NothingGrown(o, e);
      if units[u].endPc < units[u].reservedEndPc {
        ExtendCommitment(u, slot);
        if units[u].curPc + slot <= units[u].endPc {
          return true;
        }
        // must be a huge fragment: still worth committing, the rest becomes an empty slot
        ghost var m := S();
        UseUpUnit(u, e);
        GrownChain(o, m, S(), e);
      }
      if p.maxSize == 0 || committed + slot <= p.maxSize {
        ghost var m := S();
        UseUpUnit(u, e);
        GrownChain(o, m, S(), e);
        ghost var n := S();
        GrantUnit(g, v);
        GrownChain(o, n, S(), e);
        return true;
      }
      return false;
    }

    // ----- adding a fragment

    /** trace_abort, as far as it concerns the cache: the fragments of the trace in progress can be
        deleted again. */
    method AbortTrace(trace: set<int>)
      requires Valid()
      modifies this`nodes
      ensures Valid() && nodes == MadeDeletable(old(nodes), trace)
    {
      DeletableStep(p, S(), trace);
      nodes := MadeDeletable(nodes, trace);
    }

    /** How many more rounds add_fragment_common makes. */
    ghost function Rounds(slot: int): nat
      requires |live| > 0 && live[0] in units
      reads this
    {
      if Gap() < slot then 2 else if units[live[0]].endPc - units[live[0]].curPc < slot then 1 else 0
    }

    /** Something can make room for `slot` bytes: the current unit, a further one, or an entry of the FIFO. */
    ghost predicate CanPlace(slot: int)
      requires |live| > 0 && live[0] in units
      reads this
    {
      slot <= Gap() || MayAdd(slot) || !NoneReplaceable(S(), 0, |order|, slot)
    }

    /** The cache has to be given another unit. */
    ghost predicate MustGrow(slot: int)
      requires |live| > 0 && live[0] in units
      reads this
    {
      Gap() < slot && MayAdd(slot) && NoneReplaceable(S(), 0, |order|, slot)
    }

    /** What the system provides on behalf of `f` if asked: the unit `g` and two heap addresses. */
    ghost predicate Provided(f: int, slot: int, g: int, v: Unit, e1: int, e2: int)
      requires |live| > 0 && live[0] in units
      reads this
    {
      && f != e1 && e1 != e2 && e2 != 0 && e2 !in nodes
      && (0 < Gap() < slot ==> e1 != 0 && e1 !in nodes)
      && (Gap() < slot && MayAdd(slot) ==> IsGrant(g, v, slot))
    }

    /** The regeneration ratio and the limit on the cache's size warrant growth. */
    ghost predicate Warranted(slot: int, verdict: nat -> bool, round: nat)
      reads this
    {
      (p.maxSize == 0 || committed + slot <= p.maxSize) && verdict(round)
    }

    /** add_fragment_common: an empty slot, then the end of the newest unit, then whatever makes room. In
        round `i` `verdict(i)` says whether the regeneration ratio warrants growth; the fragments in
        `trace` can be deleted once the trace in progress is aborted. */
    method AddFragmentCommon(f: int, slot: int, verdict: nat -> bool, round: nat, g: int, v: Unit,
                             e1: int, e2: int, trace: set<int>) returns (ok: bool, ghost c: Choice)
      requires Valid() && Request(p, S(), f, slot) && f !in trace && Provided(f, slot, g, v, e1, e2)
      modifies this
      ensures Valid()
      ensures ok ==> Placed(p, S(), f, old(nodes)[f].body, slot)
      ensures old(CanPlace(slot)) ==> ok
      ensures !ok ==> !CanPlace(slot) && Waiting(S(), f) && AllStayed(S(), old(S()))
      ensures OthersStayed(old(S()), S(), f)
      ensures nodes.Keys <= old(nodes.Keys) + {e1, e2} && SameReserved(old(units), units)
      ensures live == old(live) || (old(Gap() < slot && MayAdd(slot)) && live == [g] + old(live))
      ensures old(MustGrow(slot)) ==> live == [g] + old(live)
      ensures ok ==> Chose(p, c, S(), f, e2, slot)
      ensures Picked(p, old(S()), old(live[0]), old(Warranted(slot, verdict, round)), old(MayAdd(slot)), c, slot)
      ensures c.way != AfterAbort ==> GrownFrom(old(S()), c.st, e1)
      ensures old(Fixed(S(), live[0], Warranted(slot, verdict, round), slot)) ==>
                live == old(live) && committed == old(committed)
      decreases Rounds(slot), 2
    {
      hide Inv, AllLive, Waiting, Replaceable, Placed, Book, NoneReplaceable;
      hide IsGrant, AllStayed, OthersStayed, SameReserved, Replaced, GrownFrom, FirstOf, NoneOf;
      NothingGrown(S(), e1);
      ghost var o := S();
      ReservedChain(units, units);
      BookFacts(units, live);
      FifoFacts(p, o, {});
      FullMeans(p, o, live[0]);
      var rest;
      ghost var at;
      ok, rest, at := ReplaceFifo(f, slot, e2, fifo, true, 0);
      if ok {
        SomeReplaceable(o, at, slot);
        c := Choice(AnEmpty, o, live[0], at);
        ChoseEmpty(p, o, S(), f, e2, at, live[0], slot);
        return;
      }
      var u := live[0];
      NoEmpties(p, o, at, slot);
      if !units[u].full && units[u].endPc - units[u].curPc >= slot {
        UnitPages(p, o, u);
        var _ := AppendFragment(u, f, slot);
        AppendedPlaced(p, o, S(), f, u, slot);
        AppendedStayed(o, S(), f, u);
        return true, Choice(AtEnd, o, u, 0);
      }
      ok, c := MakeRoom(f, slot, verdict, round, g, v, e1, e2, trace, rest, at);
    }

    /** add_fragment_common from its third step on: `rest` is the first entry that is not empty. */
    method MakeRoom(f: int, slot: int, verdict: nat -> bool, round: nat, g: int, v: Unit,
                    e1: int, e2: int, trace: set<int>, rest: int, ghost at: int)
        returns (ok: bool, ghost c: Choice)
      requires Valid() && Request(p, S(), f, slot) && f !in trace && Provided(f, slot, g, v, e1, e2)
      requires units[live[0]].endPc - units[live[0]].curPc < slot
      requires Frontier(S(), at) && rest == At(order, at) && NoneReplaceable(S(), 0, at, slot)
      modifies this
      ensures Valid()
      ensures ok ==> Placed(p, S(), f, old(nodes)[f].body, slot)
      ensures old(CanPlace(slot)) ==> ok
      ensures !ok ==> !CanPlace(slot) && Waiting(S(), f) && AllStayed(S(), old(S()))
      ensures OthersStayed(old(S()), S(), f)
      ensures nodes.Keys <= old(nodes.Keys) + {e1, e2} && SameReserved(old(units), units)
      ensures live == old(live) || (old(Gap() < slot && MayAdd(slot)) && live == [g] + old(live))
      ensures old(MustGrow(slot)) ==> live == [g] + old(live)
      ensures ok ==> Chose(p, c, S(), f, e2, slot)
      ensures Picked(p, old(S()), old(live[0]), old(Warranted(slot, verdict, round)), old(MayAdd(slot)), c, slot)
      ensures c.way != AfterAbort ==> GrownFrom(old(S()), c.st, e1)
      ensures old(Fixed(S(), live[0], Warranted(slot, verdict, round), slot)) ==>
                live == old(live) && committed == old(committed)
      decreases Rounds(slot), 1
    {
      hide Inv, AllLive, Waiting, Replaceable, Placed, Book, NoneReplaceable;
      hide GrownFrom, IsGrant, AllStayed, OthersStayed, SameReserved, Chose, NoneOf, Recommitted;
      NoEmpties(p, S(), at, slot);
      ghost var o := S();
      ghost var from := at;
      ReservedChain(units, units);
      BookFacts(units, live);
      if (p.maxSize == 0 || committed + slot <= p.maxSize) && verdict(round) {
        var more := TryForMoreSpace(slot, g, v, e1);
        GrownRequest(p, o, S(), f, slot, e1);
        BookFacts(units, live);
        UnitPages(p, S(), live[0]);
        ghost var m := S();
        if more {
          ghost var w, add := Warranted(slot, verdict, round + 1), MayAdd(slot);
          ghost var cur, oadd := live[0], old(MayAdd(slot));
          ok, c := AddFragmentCommon(f, slot, verdict, round + 1, g, v, e1, e2, trace);
          PickedGrown(p, o, m, old(live[0]), cur, true, w, oadd, add, c, e1, slot);
          ReservedChain(o.units, m.units);
          StayedChain(o, m, S(), f);
          return;
        }
        from := GrownFrontier(o, S(), e1, at, slot);
      } else {
        NoneJoined(o, at, slot);
      }
      NothingMoved(o, f);
      ghost var m := S();
      ok, c := ReplaceOldest(f, slot, verdict, round, g, v, e1, e2, trace, rest, from);
      ReservedChain(o.units, m.units);
      StayedChain(o, m, S(), f);
      StayedChain(S(), m, o, f);
    }

    /** add_fragment_common from its fourth step on: the oldest fragments, more space anyway, and the
        oldest fragments again once the trace in progress is aborted. */
    method ReplaceOldest(f: int, slot: int, verdict: nat -> bool, round: nat, g: int, v: Unit,
                         e1: int, e2: int, trace: set<int>, rest: int, ghost at: int)
        returns (ok: bool, ghost c: Choice)
      requires Valid() && Request(p, S(), f, slot) && f !in trace && Provided(f, slot, g, v, e1, e2)
      requires units[live[0]].endPc - units[live[0]].curPc < slot
      requires Frontier(S(), at) && rest == At(order, at)
      modifies this
      ensures Valid()
      ensures ok ==> Placed(p, S(), f, old(nodes)[f].body, slot)
      ensures old(slot <= Gap() || MayAdd(slot) || !NoneReplaceable(S(), at, |order|, slot)) ==> ok
      ensures !ok ==> !CanPlace(slot) && Waiting(S(), f) && AllStayed(S(), old(S()))
      ensures OthersStayed(old(S()), S(), f)
      ensures nodes.Keys <= old(nodes.Keys) + {e1, e2} && SameReserved(old(units), units)
      ensures live == old(live) || (old(Gap() < slot && MayAdd(slot)) && live == [g] + old(live))
      ensures old(MustGrow(slot)) ==> live == [g] + old(live)
      ensures ok ==> Chose(p, c, S(), f, e2, slot)
      ensures old(!NoneOf(S(), slot, false)) ==>
                c.way == OfOldest && c.st == old(S()) && c.cur == old(live[0])
                && live == old(live) && committed == old(committed)
      ensures old(NoneOf(S(), slot, false) && slot <= Gap()) ==>
                (c.way == AnEmpty || c.way == AtEnd) && c.cur == old(live[0])
                && Recommitted(p, old(S()), c.st, c.cur, slot)
      ensures old(NoneOf(S(), slot, false) && Gap() < slot) ==>
                if old(MayAdd(slot)) then c.way != AfterAbort else c.way == AfterAbort
      ensures c.way != AfterAbort ==> GrownFrom(old(S()), c.st, e1)
      decreases Rounds(slot), 0
    {
      hide Inv, AllLive, Waiting, Replaceable, Placed, Book, NoneReplaceable;
      hide GrownFrom, IsGrant, AllStayed, OthersStayed, SameReserved, Chose, NoneOf, Recommitted, Replaced;
      NothingGrown(S(), e1);
      ghost var o := S();
      ReservedChain(units, units);
      BookFacts(units, live);
      var rest', more;
      ghost var at';
      ok, rest', at' := ReplaceFifo(f, slot, e2, rest, false, at);
      if ok {
        SomeReplaceable(o, at', slot);
        c := Choice(OfOldest, o, live[0], at');
        ChoseOldest(p, o, S(), f, e2, at, at', live[0], slot);
        return;
      }
      NoOthers(p, o, at, at', slot);
      more := TryForMoreSpace(slot, g, v, e1);
      GrownRequest(p, o, S(), f, slot, e1);
      BookFacts(units, live);
      ghost var m := S();
      if more {
        ghost var w, add := Warranted(slot, verdict, round + 1), MayAdd(slot);
        ghost var cur, oadd := live[0], old(MayAdd(slot));
        ok, c := AddFragmentCommon(f, slot, verdict, round + 1, g, v, e1, e2, trace);
        RegrownOldest(p, o, m, old(live[0]), cur, w, oadd, add, c, e1, slot);
        ReservedChain(o.units, m.units);
        StayedChain(o, m, S(), f);
        return;
      }
      ok, c := AbortAndReplace(f, slot, e2, trace);
      ReservedChain(o.units, m.units);
      StayedChain(o, m, S(), f);
      StayedChain(S(), m, o, f);
    }

    /** The end of add_fragment_common: the trace in progress is aborted and the FIFO tried again. */
    method AbortAndReplace(f: int, slot: int, e: int, trace: set<int>)
        returns (ok: bool, ghost c: Choice)
      requires Valid() && Request(p, S(), f, slot) && f !in trace && e != 0 && e !in nodes
      modifies this`nodes, this`words, this`fifo, this`slots, this`order, this`units, this`tops
      ensures Valid()
      ensures ok ==> Placed(p, S(), f, old(nodes)[f].body, slot)
      ensures !ok ==>
          NoneReplaceable(S(), 0, |order|, slot) && Waiting(S(), f) && AllStayed(S(), old(S())) && units == old(units)
      ensures OthersStayed(old(S()), S(), f)
      ensures c.way == AfterAbort && c.st == old(S()).(nodes := MadeDeletable(old(nodes), trace))
      ensures ok ==> Chose(p, c, S(), f, e, slot)
      ensures nodes.Keys <= old(nodes.Keys) + {e} && SameReserved(old(units), units)
    {
      hide Inv, AllLive, Replaceable, Placed, Book, NoneReplaceable, AllStayed, OthersStayed, SameReserved, Replaced;
      ghost var o := S();
      DeletableRequest(p, o, f, slot, trace);
      DeletableStayed(o, trace);
      AbortTrace(trace);
      ghost var m := S();
      FifoFacts(p, m, {});
      NothingMoved(m, f);
      var rest;
      ghost var at;
      ok, rest, at := ReplaceFifo(f, slot, e, fifo, false, 0);
      StayedChain(o, m, S(), f);
      c := Choice(AfterAbort, m, 0, at);
    }

    /** replace_fifo, or with `emptyOnly` the walk of add_fragment_common over the empty slots: the first
        entry of the FIFO from `start` on that can make room does. */
    method ReplaceFifo(f: int, size: int, e: int, start: int, emptyOnly: bool, ghost from: int)
        returns (ok: bool, rest: int, ghost at: int)
      requires Valid() && Request(p, S(), f, size) && e != 0 && e !in nodes
      requires 0 <= from <= |order| && start == At(order, from)
      modifies this`nodes, this`words, this`fifo, this`slots, this`order, this`units, this`tops
      ensures Valid() && from <= at <= |old(order)| && old(NoneReplaceable(S(), from, at, size))
      ensures ok ==> Placed(p, S(), f, old(nodes)[f].body, size) && OthersStayed(old(S()), S(), f)
      ensures nodes.Keys <= old(nodes.Keys) + {e} && SameReserved(old(units), units)
      ensures ok ==> at < |old(order)| && old(Replaceable(S(), order[at], size))
      ensures !ok ==> S() == old(S()) && rest == At(order, at)
      ensures !ok && at < |order| ==> emptyOnly && !IsEmpty(nodes, order[at])
      ensures emptyOnly ==> (forall i {:trigger old(order)[i]} :: from <= i < at ==> old(IsEmpty(nodes, order[i])))
      ensures ok && emptyOnly ==> old(IsEmpty(nodes, order[at]))
      ensures ok ==> Replaced(p, old(S()), S(), f, e, old(order)[at], size)
    {
      hide Inv, AllLive, EvictedTo, Evictable, Replaceable, ReplacedAt, OthersStayed, SameReserved, Replaced;
      ghost var o := S();
      ReservedChain(units, units);
      TilingOf(p, o);
      FifoFacts(p, o, {});
      ghost var m, k, gap;
      ok, rest, at, m, k, gap := ReplaceFirst(f, size, e, start, emptyOnly, from);
      if ok {
        ReplacedPlaced(p, o, m, S(), f, e, o.order[at], size, k, gap);
        ReplacedStayed(p, o, m, S(), f, e, o.order[at], size, k, gap);
        WasReplaced(p, o, m, S(), f, e, o.order[at], size, k, gap);
      }
    }

    /** fcache_add_fragment */
    method AddFragment(f: int, verdict: nat -> bool, g: int, v: Unit, e1: int, e2: int, trace: set<int>)
        returns (ok: bool, ghost c: Choice)
      requires Valid() && Waiting(S(), f) && f !in trace && Provided(f, SlotFor(f), g, v, e1, e2)
      modifies this
      ensures Valid()
      ensures ok ==> Placed(p, S(), f, old(nodes)[f].body, old(SlotFor(f)))
      ensures old(CanPlace(SlotFor(f))) ==> ok
      ensures !ok ==> !CanPlace(old(SlotFor(f))) && Waiting(S(), f) && AllStayed(S(), old(S()))
      ensures OthersStayed(old(S()), S(), f)
      ensures nodes.Keys <= old(nodes.Keys) + {e1, e2} && SameReserved(old(units), units)
      ensures live == old(live) || (old(Gap() < SlotFor(f) && MayAdd(SlotFor(f))) && live == [g] + old(live))
      ensures old(MustGrow(SlotFor(f))) ==> live == [g] + old(live)
      ensures ok ==> Chose(p, c, S(), f, e2, old(SlotFor(f)))
      ensures Picked(p, old(S()), old(live[0]), old(Warranted(SlotFor(f), verdict, 0)), old(MayAdd(SlotFor(f))), c,
                     old(SlotFor(f)))
      ensures c.way != AfterAbort ==> GrownFrom(old(S()), c.st, e1)
      ensures old(Fixed(S(), live[0], Warranted(SlotFor(f), verdict, 0), SlotFor(f))) ==>
                live == old(live) && committed == old(committed)
    {
      ok, c := AddFragmentCommon(f, SlotFor(f), verdict, 0, g, v, e1, e2, trace);
    }

    /** The slot size asked for on behalf of `f`. */
    function SlotFor(f: int): int
      requires p.Valid() && f in nodes && nodes[f].body.Frag? && 0 <= nodes[f].body.size
      reads this
    {
      SlotRequest(p.align, nodes[f].body.size)
    }

    /** A new fragment_t is allocated at heap address `f`. */
    method AllocFragment(f: int, size: int, cannotDelete: bool)
      requires Valid() && f != 0 && f !in nodes && 0 <= size <= 65535
      modifies this`nodes
      ensures Valid() && Waiting(S(), f)
      ensures nodes == old(nodes)[f := Node(Frag(0, size, 0, cannotDelete), 0, 0)]
    {
      AllocStep(p, S(), f, Node(Frag(0, size, 0, cannotDelete), 0, 0));
      nodes := nodes[f := Node(Frag(0, size, 0, cannotDelete), 0, 0)];
    }

    /** fragment_free, once the fragment has left the cache. */
    method FreeFragment(f: int)
      requires Valid() && f !in order
      modifies this`nodes
      ensures Valid() && nodes == old(nodes) - {f}
    {
      HeapStep(p, S(), f, nodes - {f});
      nodes := nodes - {f};
    }

    /** fcache_fragment_pclookup: walks the unit header by header over fragments and empty slots, stopping
        at the first header at or past `pc`. Returns the fragment whose body contains `pc`, or 0. */
    method FragmentPcLookup(pc: int) returns (found: int)
      requires Valid()
      ensures found != 0 ==> exists a :: BodyHas(S(), a, found, pc)
      ensures found == 0 ==> forall a, f {:trigger BodyHas(S(), a, f, pc)} :: !BodyHas(S(), a, f, pc)
    {
      hide Inv;
      if unit :| unit in units && unit <= pc < units[unit].reservedEndPc {
        UnitStart(p, S(), unit);
        forall a, f | BodyHas(S(), a, f, pc) ensures unit <= a < pc && a < tops[unit] && slots[a].unit == unit {
          BodyUnit(p, S(), a, f, pc, unit);
        }
        var at := unit;
        while at < units[unit].curPc && at < pc
          invariant unit <= at <= tops[unit]
          invariant at == tops[unit] || (at in slots && slots[at].unit == unit)
          invariant forall a, f {:trigger BodyHas(S(), a, f, pc)} :: BodyHas(S(), a, f, pc) ==> at <= a
          decreases tops[unit] - at
        {
          SlotAt(p, S(), unit, at);
          var f := words[at];
          if nodes[f].body.Frag? && nodes[f].body.startPc <= pc < nodes[f].body.startPc + nodes[f].body.size {
            assert BodyHas(S(), at, f, pc);
            return f;
          }
          forall a, g | BodyHas(S(), a, g, pc) ensures End(slots, at) <= a {
            NextBody(p, S(), at, a, g, pc);
          }
          at := at + SlotSize(nodes[f].body);
        }
      } else {
        forall a, f ensures !BodyHas(S(), a, f, pc) {
          if BodyHas(S(), a, f, pc) {
            BodyInUnit(p, S(), a, f, pc);
          }
        }
      }
      found := 0;
    }
  }

  /** A cache with one unit of one page, most of it taken by a fragment. */
  method OneFragment(u: int, f: int) returns (c: Cache)
    requires 0 < u && u % PAGE_SIZE == 0 && f > 1000
    ensures fresh(c) && c.Valid() && c.p == Params(64, 16, PAGE_SIZE, PAGE_SIZE, 0)
    ensures c.live == [u] && c.units.Keys == {u} && c.units[u].reservedEndPc == u + PAGE_SIZE
    ensures c.nodes.Keys <= {f, 1, 2}
  {
    hide Inv, AllLive, Placed, OthersStayed, AllStayed, NoneReplaceable;
    c := new Cache(Params(64, 16, PAGE_SIZE, PAGE_SIZE, 0), u, Unit(u, u + PAGE_SIZE, u + PAGE_SIZE, false));
    c.AllocFragment(f, 3000, false);
    assert SlotRequest(16, 3000) == 3008;
    var ok, _ := c.AddFragment(f, _ => true, 0, Unit(0, 0, 0, false), 1, 2, {});
    forall w | w in c.units ensures w == u {
      assert c.units[w].full || w == c.live[0];
    }
  }

  /** A run that fills a unit, needs a second one and removes a fragment again: the FIFO spans both units. */
  method TwoUnits() returns (c: Cache)
    ensures c.Valid() && |c.live| == 2
    ensures exists n :: IsEmpty(c.nodes, n) && n in c.order
  {
    hide Inv, AllLive, OthersStayed, AllStayed, NoneReplaceable, OtherSlots, SameReserved, Book;
    var u1, u2, f, g := 0x10000, 0x20000, 0x100000, 0x200000;
    c := OneFragment(u1, f);
    c.AllocFragment(g, 5000, false);
    TooLarge(c.p, c.S(), u1, 5008);
    assert SlotRequest(16, 5000) == 5008;
    var ok, _ := c.AddFragment(g, _ => true, u2, Unit(u2, u2 + PAGE_SIZE, u2 + 3 * PAGE_SIZE, false), 3, 4, {});
    var b := c.nodes[g].body;
    c.RemoveFragment(g, 5);
    ghost var n := SomeEmpty(c.p, c.S(), HdrStart(b), SlotSize(b));
    c.FreeFragment(g);
    assert IsEmpty(c.nodes, n) && n in c.order;
  }
}
