/**
  Returning the unneeded end of a fragment's slot in a private cache: to the append point, to the
  empty slot after it, or as an empty slot of its own.
 */
module PrivateSurplus {
  import opened Alignment
  import opened Layout
  import opened PrivateState
  import opened PrivateSteps
  import opened PrivateSpec

  /** What fcache_return_extra_space computes for a private fragment. */
  function SurplusOf(p: Params, b: Body, space: int): Surplus
    requires HasSurplus(p, b, space)
  {
    SurplusAt(p.align, HdrStart(b), SlotSize(b), b.extra, space)
  }

  ghost predicate HasSurplus(p: Params, b: Body, space: int) {
    && p.Valid() && b.Frag? && 0 <= space <= b.size && HEADER_SIZE <= b.extra
    && HdrStart(b) % p.align == 0 && SlotSize(b) % p.align == 0 && MIN_FCACHE_SLOT_SIZE <= SlotSize(b)
  }

  /** A placed fragment can be asked for its surplus. */
  lemma PlacedSurplus(p: Params, st: State, f: int, space: int)
    requires Inv(p, st, {}) && f in st.order && f in st.nodes && st.nodes[f].body.Frag?
    requires 0 <= space <= st.nodes[f].body.size
    ensures p.Valid() && HasSurplus(p, st.nodes[f].body, space) && st.nodes[f].body.extra <= 255
  {
    NodeSlot(p, st, {}, f);
    assert SlotOk(p, st, HdrStart(st.nodes[f].body));
  }

  /** The fragment that remains, with `k` of the returnable bytes kept: its spare bytes fit their field. */
  lemma KeptFits(p: Params, b: Body, space: int, c: Body, k: int)
    requires HasSurplus(p, b, space)
    requires var r := SurplusOf(p, b, space);
      && c == b.(size := b.size - space, extra := HEADER_SIZE + r.slotPadding + r.minPadding + k)
      && (k == 0 || (k == r.returnable && k < p.MinUnitEndHole()))
    ensures HdrStart(c) == HdrStart(b) && 0 <= c.size && HEADER_SIZE <= c.extra <= 255
    ensures SlotSize(c) == SlotSize(b) - SurplusOf(p, b, space).returnable + k
  {
  }

  /** The slot after the one at `a` is empty. */
  ghost predicate EmptyNext(st: State, a: int)
    requires a in st.slots
  {
    HasNext(st.slots, a) && st.slots[End(st.slots, a)].kind.Live?
    && IsEmpty(st.nodes, st.slots[End(st.slots, a)].kind.node)
  }

  /** Releasing the last `k` bytes of the slot at `a` is worth it. */
  ghost predicate WorthReleasing(p: Params, st: State, a: int, k: int)
    requires a in st.slots && st.slots[a].unit in st.units
  {
    var v, end := st.units[st.slots[a].unit], End(st.slots, a);
    if end == v.endPc then p.MinUnitEndHole() <= k
    else end == v.curPc || EmptyNext(st, a) || p.minEmptyHole <= k
  }

  /** How much of its slot the fragment `f` gives back. */
  ghost function GivenBack(p: Params, st: State, f: int, space: int): int {
    if f in st.nodes && HasSurplus(p, st.nodes[f].body, space) then
      var a, k := HdrStart(st.nodes[f].body), SurplusOf(p, st.nodes[f].body, space).returnable;
      if 0 < k && a in st.slots && st.slots[a].unit in st.units && WorthReleasing(p, st, a, k) then k else 0
    else 0
  }

  /** Where the `k` bytes that the fragment at `a` gave up went: to the append point of the current unit,
      `cur`; to the empty slot after it; or to a new empty slot, for node `e`, at the front of the FIFO. */
  ghost predicate WentTo(o: State, n: State, cur: int, a: int, k: int, e: int)
    requires a in o.slots && a in n.slots
  {
    var u := o.slots[a].unit;
    && u in o.units
    && if k == 0 then n.units == o.units && n.order == o.order
       else if u == cur && End(o.slots, a) == o.units[u].curPc then
         n.order == o.order && n.units == o.units[u := o.units[u].(curPc := End(n.slots, a), full := false)]
       else
         && n.units == o.units && InEmpty(n, End(n.slots, a), k)
         && n.order == (if EmptyNext(o, a) then [] else [e]) + o.order
  }

  /** What comes after the slot at `a`. */
  lemma EndFacts(p: Params, st: State, live: seq<int>, a: int)
    requires Inv(p, st, {}) && AllLive(st.slots) && Book(st.units, live) && a in st.slots
    ensures p.Valid() && st.slots[a].unit in st.units && |live| > 0
    ensures var v, end := st.units[st.slots[a].unit], End(st.slots, a);
      && end <= v.curPc <= v.endPc && (HasNext(st.slots, a) <==> end < v.curPc)
      && (end == v.curPc < v.endPc ==> st.slots[a].unit == live[0] && p.MinUnitEndHole() <= v.endPc - end)
      && (HasNext(st.slots, a) ==>
           var e := st.slots[end].kind;
           e.Live? && e.node in st.nodes && end in st.words && st.words[end] == e.node)
  {
    var u, end := st.slots[a].unit, End(st.slots, a);
    assert Inside(st.slots, st.tops, a) && Chained(st.slots, st.tops, a) && UnitOk(p, st, u);
    if HasNext(st.slots, a) {
      assert Inside(st.slots, st.tops, end) && SlotOk(p, st, end) && st.slots[end].kind.Live?;
    }
    assert st.units[u].full || u == live[0];
  }

  // ----- the steps

  /** The record of `f` is rewritten in place. */
  ghost function Rewritten(st: State, f: int, body: Body): State
    requires f in st.nodes
  {
    st.(nodes := st.nodes[f := st.nodes[f].(body := body)])
  }

  /** A fragment's new record keeps the FIFO and its empties. */
  lemma RewrittenFifo(st: State, f: int, body: Body)
    requires IsFifo(st.nodes, st.fifo, st.order) && EmptiesFirst(st.nodes, st.order)
    requires f in st.nodes && st.nodes[f].body.Frag? && body.Frag?
    ensures IsFifo(Rewritten(st, f, body).nodes, st.fifo, st.order)
    ensures EmptiesFirst(Rewritten(st, f, body).nodes, st.order)
  {
    var nodes := Rewritten(st, f, body).nodes;
    forall i ensures Linked(nodes, st.order, i) {
      assert Linked(st.nodes, st.order, i);
    }
    forall i, j | 0 <= i < j < |st.order| && IsEmpty(nodes, st.order[j]) ensures IsEmpty(nodes, st.order[i]) {
      assert IsEmpty(st.nodes, st.order[j]) && IsEmpty(st.nodes, st.order[i]);
    }
  }

  /** A record that fits the slot at `a`. */
  ghost predicate Fitting(body: Body, a: int, n: int) {
    && body.Frag? && HdrStart(body) == a && SlotSize(body) == n
    && 0 <= body.size && HEADER_SIZE <= body.extra <= 255
  }

  /** The fragment's record changes but not its slot. */
  lemma KeepStep(p: Params, st: State, a: int, f: int, body: Body)
    requires Inv(p, st, {}) && a in st.slots && st.slots[a].kind == Live(f) && f in st.nodes && st.nodes[f].body.Frag?
    requires Fitting(body, a, st.slots[a].size)
    ensures Inv(p, Rewritten(st, f, body), {}) && OtherSlots(st, Rewritten(st, f, body), f)
  {
    var st' := Rewritten(st, f, body);
    SameUnits(p, st, st', {});
    RewrittenFifo(st, f, body);
    assert SlotOk(p, st, a);
    forall x ensures SlotOk(p, st', x) && Queued(st', x) && Housed(st', {}, x) {
      assert SlotOk(p, st, x) && Queued(st, x) && Housed(st, {}, x);
    }
  }

  /** The fragment shrinks to `n` bytes; the tail of its slot is in limbo. */
  ghost function Shortened(st: State, a: int, n: int, f: int, body: Body): State
    requires f in st.nodes && a in st.slots
  {
    Rewritten(st, f, body).(slots := Split(st.slots, a, n))
  }

  lemma ShrinkStep(p: Params, st: State, a: int, n: int, f: int, body: Body)
    requires Inv(p, st, {}) && AllLive(st.slots)
    requires a in st.slots && st.slots[a].kind == Live(f) && f in st.nodes && st.nodes[f].body.Frag?
    requires MIN_FCACHE_SLOT_SIZE <= n < st.slots[a].size && n % p.align == 0 && Fitting(body, a, n)
    ensures a + n !in st.slots && Inv(p, Shortened(st, a, n, f, body), {})
    ensures AllLive(Shortened(st, a, n, f, body).slots - {a + n})
    ensures OtherSlots(st, Shortened(st, a, n, f, body), f)
  {
    var st' := Shortened(st, a, n, f, body);
    SplitTiled(st.slots, st.tops, a, n);
    SameUnits(p, st, st', {});
    RewrittenFifo(st, f, body);
    assert SlotOk(p, st, a);
    AlignedSum(a, n, p.align);
    AlignedSum(st.slots[a].size, n, p.align);
    forall x ensures SlotOk(p, st', x) && Queued(st', x) && Housed(st', {}, x) {
      assert SlotOk(p, st, x) && Queued(st, x) && Housed(st, {}, x);
    }
    var rest := st'.slots - {a + n};
    forall x | x in rest ensures rest[x].kind.Live? {
      assert st.slots[x].kind.Live?;
    }
  }

  /** The slot in limbo at the end of unit `u` goes back to the append point. */
  ghost function Retracted(st: State, b: int): State
    requires b in st.slots && st.slots[b].unit in st.units
  {
    var u := st.slots[b].unit;
    st.(slots := st.slots - {b}, tops := st.tops[u := b],
        units := st.units[u := st.units[u].(curPc := b, full := false)])
  }

  lemma RetractStep(p: Params, st: State, b: int)
    requires Inv(p, st, {}) && b in st.slots && st.slots[b].kind.Limbo?
    requires var u := st.slots[b].unit;
      u in st.units && End(st.slots, b) == st.units[u].curPc && p.MinUnitEndHole() <= st.units[u].endPc - b
    ensures Inv(p, Retracted(st, b), {})
  {
    var u, st' := st.slots[b].unit, Retracted(st, b);
    assert UnitOk(p, st, u) && Inside(st.slots, st.tops, b);
    TruncateTiled(st.slots, st.tops, b);
    assert st'.tops.Keys == st'.units.Keys;
    forall v ensures UnitOk(p, st', v) {
      assert UnitOk(p, st, v);
    }
    forall v, w ensures UnitsApart(st', v, w) {
      assert UnitsApart(st, v, w);
    }
    forall x ensures SlotOk(p, st', x) && Queued(st', x) && Housed(st', {}, x) {
      assert SlotOk(p, st, x) && Queued(st, x) && Housed(st, {}, x);
    }
  }

  // ----- what is left

  /** From `o` to `n` the fragment `f` at `a` gave up the last `k` bytes of its slot, and no other moved. */
  ghost predicate GaveUp(o: State, n: State, f: int, a: int, k: int, body: Body) {
    && a in o.slots && a in n.slots && n.slots[a] == o.slots[a].(size := o.slots[a].size - k)
    && f in n.nodes && n.nodes[f].body == body && OtherSlots(o, n, f)
  }

  lemma OthersChain(o: State, m: State, n: State, f: int)
    requires OtherSlots(o, m, f) && OtherSlots(m, n, f)
    ensures OtherSlots(o, n, f)
  {
    forall x | x in o.nodes && o.nodes[x].body.Frag? && x != f
      ensures x in n.nodes && n.nodes[x].body == o.nodes[x].body
    {
      assert x in m.nodes && m.nodes[x].body == o.nodes[x].body;
    }
    forall a | a in o.slots && HoldsFrag(o, a) && o.slots[a].kind != Live(f)
      ensures a in n.slots && n.slots[a] == o.slots[a]
    {
      assert a in m.slots && m.slots[a] == o.slots[a] && HoldsFrag(m, a);
    }
  }

  lemma GaveFacts(o: State, n: State, f: int, a: int, k: int, body: Body)
    requires GaveUp(o, n, f, a, k, body)
    ensures a in o.slots && a in n.slots && f in n.nodes && n.nodes[f].body == body
  {
  }

  lemma GaveNothing(o: State, f: int, a: int, body: Body)
    requires f in o.nodes && a in o.slots && OtherSlots(o, Rewritten(o, f, body), f)
    ensures GaveUp(o, Rewritten(o, f, body), f, a, 0, body)
  {
  }

  lemma WentBack(o: State, n: State, f: int, a: int, k: int, body: Body, cur: int, e: int)
    requires GaveUp(o, n, f, a, k, body) && 0 < k && o.slots[a].unit == cur && cur in o.units && n.order == o.order
    requires var end := End(o.slots, a);
      end == o.units[cur].curPc && n.units == o.units[cur := o.units[cur].(curPc := end - k, full := false)]
    ensures WentTo(o, n, cur, a, k, e)
  {
  }

  lemma WentEmpty(o: State, n: State, f: int, a: int, k: int, body: Body, cur: int, e: int)
    requires GaveUp(o, n, f, a, k, body) && 0 < k && o.slots[a].unit in o.units && n.units == o.units
    requires !(o.slots[a].unit == cur && End(o.slots, a) == o.units[cur].curPc)
    requires InEmpty(n, End(o.slots, a) - k, k) && n.order == (if EmptyNext(o, a) then [] else [e]) + o.order
    ensures WentTo(o, n, cur, a, k, e)
  {
  }

  lemma WentNowhere(o: State, n: State, a: int, cur: int, e: int)
    requires a in o.slots && a in n.slots && o.slots[a].unit in o.units && n.units == o.units && n.order == o.order
    ensures WentTo(o, n, cur, a, 0, e)
  {
  }

  /** The tail in limbo at `b` goes to the append point. */
  lemma RetractedGave(o: State, m: State, f: int, a: int, b: int, body: Body)
    requires f in o.nodes && a in o.slots && o.slots[a].kind == Live(f) && 0 < b - a < o.slots[a].size && b !in o.slots
    requires m == Shortened(o, a, b - a, f, body) && OtherSlots(o, m, f) && AllLive(m.slots - {b})
    requires o.slots[a].unit in m.units
    ensures GaveUp(o, Retracted(m, b), f, a, End(o.slots, a) - b, body) && AllLive(Retracted(m, b).slots)
  {
    var n := Retracted(m, b);
    OthersChain(o, m, n, f);
  }

  /** The tail in limbo at `b` goes to the empty slot after it. */
  lemma MergedGave(p: Params, o: State, m: State, f: int, a: int, b: int, body: Body, e: int)
    requires f in o.nodes && a in o.slots && o.slots[a].kind == Live(f) && 0 < b - a < o.slots[a].size && b !in o.slots
    requires m == Shortened(o, a, b - a, f, body) && OtherSlots(o, m, f) && AllLive(m.slots - {b})
    requires Inv(p, m, {}) && HasNext(m.slots, b) && m.slots[End(m.slots, b)].kind == Live(e) && IsEmpty(m.nodes, e)
    requires m.nodes[f].body.Frag?
    ensures var n, k := GrownBack(m, b, e), End(o.slots, a) - b;
      GaveUp(o, n, f, a, k, body) && AllLive(n.slots) && InEmpty(n, b, k)
  {
    var n, k, x := GrownBack(m, b, e), End(o.slots, a) - b, End(m.slots, b);
    assert Inside(m.slots, m.tops, b) && Inside(m.slots, m.tops, x) && Inside(m.slots, m.tops, a);
    assert End(m.slots, b) == End(o.slots, a);
    OthersChain(o, m, n, f);
    forall y | y in n.slots ensures n.slots[y].kind.Live? {
      assert y in m.slots - {b} ==> (m.slots - {b})[y].kind.Live?;
    }
    assert n.slots[b].kind.Live? && IsEmpty(n.nodes, e);
  }

  lemma BackFields(m: State, b: int, e: int)
    requires b in m.slots && End(m.slots, b) in m.slots && e in m.nodes && m.nodes[e].body.Empty?
    ensures var r, n := GrownBack(m, b, e), m.slots[b].size;
      && r == m.(slots := r.slots, words := r.words, nodes := r.nodes) && r.words == m.words[b := e]
      && r.nodes == m.nodes[e := m.nodes[e].(body := Empty(b + HEADER_SIZE, m.nodes[e].body.fcacheSize + n))]
  {
  }

  /** All of it at once. */
  lemma MergeReady(p: Params, o: State, a: int, n: int, f: int, body: Body, e: int)
    requires Inv(p, o, {}) && AllLive(o.slots)
    requires a in o.slots && o.slots[a].kind == Live(f) && f in o.nodes && o.nodes[f].body.Frag?
    requires MIN_FCACHE_SLOT_SIZE <= n < o.slots[a].size && n % p.align == 0 && Fitting(body, a, n)
    requires EmptyNext(o, a) && o.slots[End(o.slots, a)].kind == Live(e)
    ensures var m, b, k := Shortened(o, a, n, f, body), a + n, o.slots[a].size - n;
      && e != f && b in m.slots && m.slots[b].size == k && End(m.slots, b) in m.slots
      && e in m.nodes && m.nodes[e] == o.nodes[e] && o.nodes[e].body.Empty?
      && var r := GrownBack(m, b, e);
      Inv(p, r, {}) && GaveUp(o, r, f, a, k, body) && AllLive(r.slots) && InEmpty(r, b, k)
  {
    ShrinkStep(p, o, a, n, f, body);
    var m := Shortened(o, a, n, f, body);
    assert Inside(o.slots, o.tops, a) && HasNext(m.slots, a + n) && m.slots[End(m.slots, a + n)].kind == Live(e);
    MergeNextStep(p, m, {}, a + n, e);
    MergedGave(p, o, m, f, a, a + n, body, e);
  }

  /** Behind a fragment, and not before the front of the FIFO, the tail is an empty slot of its own. */
  lemma OwnEmpty(p: Params, m: State, a: int, b: int, e: int)
    requires Inv(p, m, {}) && a in m.slots && HoldsFrag(m, a) && End(m.slots, a) == b && b in m.slots
    requires m.slots[b].kind.Limbo? && MIN_FCACHE_SLOT_SIZE <= m.slots[b].size && e != 0 && e !in m.nodes
    requires !EmptyNext(m, b)
    ensures !FrontAfter(m, End(m.slots, b)) && !FrontBefore(m, b)
    ensures m.fifo != 0 ==> m.fifo in m.nodes
  {
    if m.fifo != 0 {
      FrontSlot(p, m, {});
      var q := HdrStart(m.nodes[m.fifo].body);
      assert Inside(m.slots, m.tops, a) && Inside(m.slots, m.tops, q);
      assert Apart(m.slots, a, q) && Apart(m.slots, q, a);
      if FrontAfter(m, End(m.slots, b)) {
        TouchingUnits(p, m, {}, b);
      }
    }
  }

  lemma PrependedGave(p: Params, o: State, m: State, n: State, f: int, a: int, b: int, body: Body, e: int)
    requires f in o.nodes && a in o.slots && o.slots[a].kind == Live(f) && 0 < b - a < o.slots[a].size && b !in o.slots
    requires m == Shortened(o, a, b - a, f, body) && OtherSlots(o, m, f) && AllLive(m.slots - {b})
    requires Inv(p, m, {}) && body.Frag? && e != 0 && e !in m.nodes
    requires MIN_FCACHE_SLOT_SIZE <= m.slots[b].size && !EmptyNext(o, a)
    requires EmptiedTo(m, n, b, e)
    ensures var k := End(o.slots, a) - b; GaveUp(o, n, f, a, k, body) && InEmpty(n, b, k)
    ensures AllLive(n.slots) && n.order == [e] + o.order && n.units == o.units && n.tops == o.tops
  {
    assert Inside(m.slots, m.tops, b) && (HasNext(m.slots, b) ==> Inside(m.slots, m.tops, End(m.slots, b)));
    OwnEmpty(p, m, a, b, e);
    EmptiedOthers(p, m, {}, b, e, f);
    EmptiedWhere(p, m, {}, b, e);
    EmptiedLive(p, m, {}, b, e);
    OthersChain(o, m, n, f);
    assert n == Prepended(m, b, e);
  }
}
