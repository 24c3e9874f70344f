/**
  The elementary steps of the private cache. Each keeps the invariant.
 */
module PrivateSteps {
  import opened Alignment
  import opened Layout
  import opened Lists
  import opened PrivateState

  ghost predicate Unplaced(s: Slots, n: int) {
    forall x {:trigger s[x]} :: x in s ==> s[x].kind != Live(n)
  }

  /** Units did not change and neither did what they contain up to their tops. */
  lemma SameUnits(p: Params, st: State, st': State, loose: set<int>)
    requires Inv(p, st, loose) && st'.units == st.units && st'.tops == st.tops
    ensures forall u {:trigger UnitOk(p, st', u)} :: UnitOk(p, st', u)
    ensures forall u, v {:trigger UnitsApart(st', u, v)} :: UnitsApart(st', u, v)
  {
    forall u ensures UnitOk(p, st', u) {
      assert UnitOk(p, st, u);
    }
    forall u, v ensures UnitsApart(st', u, v) {
      assert UnitsApart(st, u, v);
    }
  }

  /** A slot is put in limbo; its node stays on the FIFO for the moment. */
  lemma LooseStep(p: Params, st: State, loose: set<int>, a: int)
    requires Inv(p, st, loose) && a in st.slots && st.slots[a].kind.Live?
    ensures Inv(p, st.(slots := Retag(st.slots, a, Limbo)), loose + {st.slots[a].kind.node})
    ensures Unplaced(Retag(st.slots, a, Limbo), st.slots[a].kind.node)
  {
    var n, st' := st.slots[a].kind.node, st.(slots := Retag(st.slots, a, Limbo));
    RetagTiled(st.slots, st.tops, a, Limbo);
    SameUnits(p, st, st', loose);
    assert SlotOk(p, st, a);
    forall x ensures SlotOk(p, st', x) && Queued(st', x) {
      assert SlotOk(p, st, x) && Queued(st, x);
    }
    forall x | x in st'.slots ensures st'.slots[x].kind != Live(n) {
      assert SlotOk(p, st, x);
    }
    forall m ensures Housed(st', loose + {n}, m) {
      assert Housed(st, loose, m);
    }
  }

  lemma EmptiesWithout(nodes: map<int, Node>, l: seq<int>, k: int)
    requires EmptiesFirst(nodes, l) && 0 <= k < |l|
    ensures EmptiesFirst(nodes, Without(l, k))
  {
    var l' := Without(l, k);
    forall i, j | 0 <= i < j < |l'| && IsEmpty(nodes, l'[j]) ensures IsEmpty(nodes, l'[i]) {
      var i', j' := if i < k then i else i + 1, if j < k then j else j + 1;
      assert l[i'] == l'[i] && l[j'] == l'[j];
      assert IsEmpty(nodes, l[j']) && IsEmpty(nodes, l[i']);
    }
  }

  /** A node without a slot leaves the FIFO; `drop` if it is freed as well. */
  ghost function Removed(st: State, k: int, drop: bool): State
    requires 0 <= k < |st.order| && IsFifo(st.nodes, st.fifo, st.order)
  {
    RemoveFifo(st.nodes, st.fifo, st.order, k);
    var n, r := st.order[k], Unlinked(st.nodes, st.fifo, st.order[k]);
    st.(nodes := if drop then r.0 - {n} else r.0, fifo := r.1, order := Without(st.order, k))
  }

  lemma RemoveStep(p: Params, st: State, loose: set<int>, k: int, drop: bool)
    requires Inv(p, st, loose) && 0 <= k < |st.order| && Unplaced(st.slots, st.order[k])
    ensures Inv(p, Removed(st, k, drop), loose - {st.order[k]})
    ensures SameBodies(st.nodes - {st.order[k]}, Removed(st, k, drop).nodes - {st.order[k]})
    ensures !drop ==> SameBodies(st.nodes, Removed(st, k, drop).nodes)
  {
    var n, st' := st.order[k], Removed(st, k, drop);
    RemoveFifo(st.nodes, st.fifo, st.order, k);
    var r := Unlinked(st.nodes, st.fifo, n);
    SameUnits(p, st, st', loose);
    forall i ensures Linked(st'.nodes, st'.order, i) {
      assert Linked(r.0, st'.order, i);
    }
    forall x ensures SlotOk(p, st', x) && Queued(st', x) {
      RemoveSlot(p, st, loose, k, st'.nodes, x);
    }
    forall m ensures Housed(st', loose - {n}, m) {
      assert Housed(st, loose, m);
    }
    EmptiesWithout(st.nodes, st.order, k);
    forall i, j | 0 <= i < j < |st'.order| && IsEmpty(st'.nodes, st'.order[j])
      ensures IsEmpty(st'.nodes, st'.order[i])
    {
      assert IsEmpty(st.nodes, st'.order[j]) && IsEmpty(st.nodes, st'.order[i]);
    }
  }

  lemma RemoveSlot(p: Params, st: State, loose: set<int>, k: int, nodes: map<int, Node>, x: int)
    requires Inv(p, st, loose) && 0 <= k < |st.order| && Unplaced(st.slots, st.order[k])
    requires SameBodies(st.nodes - {st.order[k]}, nodes - {st.order[k]})
    ensures SlotOk(p, st.(nodes := nodes, order := Without(st.order, k)), x)
    ensures Queued(st.(nodes := nodes, order := Without(st.order, k)), x)
  {
    assert SlotOk(p, st, x) && Queued(st, x);
    if x in st.slots && st.slots[x].kind.Live? {
      var n := st.slots[x].kind.node;
      StillIn(st.order, k, n);
      assert n in (nodes - {st.order[k]}) && (nodes - {st.order[k]})[n].body == (st.nodes - {st.order[k]})[n].body;
    }
  }

  lemma StillIn(l: seq<int>, k: int, x: int)
    requires 0 <= k < |l| && x in l && x != l[k]
    ensures x in Without(l, k)
  {
    var i :| 0 <= i < |l| && l[i] == x;
    assert Without(l, k)[if i < k then i else i - 1] == x;
  }

  // ----- edits of slots in limbo

  lemma JoinStep(p: Params, st: State, loose: set<int>, a: int)
    requires Inv(p, st, loose) && a in st.slots && HasNext(st.slots, a)
    requires st.slots[a].kind.Limbo? && st.slots[End(st.slots, a)].kind.Limbo?
    ensures Inv(p, st.(slots := Join(st.slots, a)), loose)
  {
    var st' := st.(slots := Join(st.slots, a));
    JoinTiled(st.slots, st.tops, a);
    SameUnits(p, st, st', loose);
    assert SlotOk(p, st, a) && SlotOk(p, st, End(st.slots, a)) && Inside(st.slots, st.tops, a);
    AlignedSum(st.slots[a].size, st.slots[End(st.slots, a)].size, p.align);
    forall x ensures SlotOk(p, st', x) && Queued(st', x) {
      assert SlotOk(p, st, x) && Queued(st, x);
    }
    forall m ensures Housed(st', loose, m) {
      assert Housed(st, loose, m);
    }
  }

  lemma SplitStep(p: Params, st: State, loose: set<int>, a: int, n: int)
    requires Inv(p, st, loose) && a in st.slots && st.slots[a].kind.Limbo?
    requires 0 < n < st.slots[a].size && n % p.align == 0
    ensures a + n !in st.slots
    ensures Inv(p, st.(slots := Split(st.slots, a, n)), loose)
  {
    var st' := st.(slots := Split(st.slots, a, n));
    SplitTiled(st.slots, st.tops, a, n);
    SameUnits(p, st, st', loose);
    assert SlotOk(p, st, a);
    AlignedSum(a, n, p.align);
    AlignedSum(st.slots[a].size, n, p.align);
    forall x ensures SlotOk(p, st', x) && Queued(st', x) {
      assert SlotOk(p, st, x) && Queued(st, x);
    }
    forall m ensures Housed(st', loose, m) {
      assert Housed(st, loose, m);
    }
  }

  ghost function Extended(st: State, u: int, k: int): State
    requires u in st.tops && u in st.units
  {
    var v := st.units[u];
    st.(slots := Append(st.slots, st.tops, u, k), tops := st.tops[u := st.tops[u] + k],
        units := st.units[u := v.(curPc := v.curPc + k, full := v.curPc + k == v.endPc)])
  }

  /** The next `k` bytes of a unit are claimed. */
  lemma ExtendStep(p: Params, st: State, loose: set<int>, u: int, k: int)
    requires Inv(p, st, loose) && u in st.units && 0 < k && st.units[u].curPc + k <= st.units[u].endPc
    requires k % p.align == 0 && st.units[u].curPc % p.align == 0
    requires var left := st.units[u].endPc - st.units[u].curPc - k; left == 0 || p.MinUnitEndHole() <= left
    ensures st.tops[u] == st.units[u].curPc && st.tops[u] !in st.slots
    ensures Inv(p, Extended(st, u, k), loose)
  {
    var st' := Extended(st, u, k);
    assert UnitOk(p, st, u);
    forall a | a in st.slots ensures End(st.slots, a) <= st.tops[u] || st.tops[u] + k <= a {
      assert Inside(st.slots, st.tops, a);
      var v := st.slots[a].unit;
      assert UnitOk(p, st, v) && UnitsApart(st, u, v) && UnitsApart(st, v, u);
    }
    AppendTiled(st.slots, st.tops, u, k);
    assert st'.tops.Keys == st'.units.Keys;
    forall v ensures UnitOk(p, st', v) {
      assert UnitOk(p, st, v);
    }
    forall v, w ensures UnitsApart(st', v, w) {
      assert UnitsApart(st, v, w);
    }
    forall x ensures SlotOk(p, st', x) && Queued(st', x) {
      assert SlotOk(p, st, x) && Queued(st, x);
    }
    forall m ensures Housed(st', loose, m) {
      assert Housed(st, loose, m);
    }
  }

  // ----- more space

  /** More of a unit's reservation is committed. */
  lemma CommitStep(p: Params, st: State, u: int, end: int)
    requires Inv(p, st, {}) && u in st.units && end % PAGE_SIZE == 0
    requires st.units[u].endPc < end <= st.units[u].reservedEndPc
    ensures Inv(p, st.(units := st.units[u := st.units[u].(endPc := end, full := false)]), {})
  {
    var st' := st.(units := st.units[u := st.units[u].(endPc := end, full := false)]);
    forall v ensures UnitOk(p, st', v) {
      assert UnitOk(p, st, v);
    }
    forall v, w ensures UnitsApart(st', v, w) {
      assert UnitsApart(st, v, w);
    }
    SameFifo(p, st, st');
  }

  /** Slots, nodes and FIFO did not change. */
  lemma SameFifo(p: Params, st: State, st': State)
    requires Inv(p, st, {}) && st'.slots == st.slots && st'.words == st.words
    requires st'.nodes == st.nodes && st'.order == st.order
    ensures forall x {:trigger SlotOk(p, st', x)} :: SlotOk(p, st', x)
    ensures forall x {:trigger Queued(st', x)} :: Queued(st', x)
    ensures forall n {:trigger Housed(st', {}, n)} :: Housed(st', {}, n)
  {
    forall x ensures SlotOk(p, st', x) && Queued(st', x) && Housed(st', {}, x) {
      assert SlotOk(p, st, x) && Queued(st, x) && Housed(st, {}, x);
    }
  }

  /** A unit that can be added: unused, and with a guard page between it and every other. */
  ghost predicate Grantable(st: State, g: int, v: Unit) {
    && 0 < g && g % PAGE_SIZE == 0
    && v.curPc == g < v.endPc <= v.reservedEndPc && !v.full
    && v.endPc % PAGE_SIZE == 0 && v.reservedEndPc % PAGE_SIZE == 0
    && (forall w {:trigger st.units[w]} :: w in st.units ==> st.units[w].reservedEndPc < g || v.reservedEndPc < w)
  }

  lemma GrantStep(p: Params, st: State, g: int, v: Unit)
    requires Inv(p, st, {}) && Grantable(st, g, v)
    ensures g !in st.units
    ensures Inv(p, st.(units := st.units[g := v], tops := st.tops[g := g]), {})
  {
    assert UnitOk(p, st, g);
    var st' := st.(units := st.units[g := v], tops := st.tops[g := g]);
    forall w ensures UnitOk(p, st', w) {
      assert UnitOk(p, st, w);
    }
    forall w, x ensures UnitsApart(st', w, x) {
      assert UnitsApart(st, w, x) && UnitOk(p, st, w) && UnitOk(p, st, x);
      assert w in st.units ==> st.units[w].reservedEndPc < g || v.reservedEndPc < w;
      assert x in st.units ==> st.units[x].reservedEndPc < g || v.reservedEndPc < x;
    }
    forall x
      ensures Inside(st'.slots, st'.tops, x) && Chained(st'.slots, st'.tops, x) && Anchored(st'.slots, st'.tops, x)
    {
      assert Inside(st.slots, st.tops, x) && Chained(st.slots, st.tops, x) && Anchored(st.slots, st.tops, x);
    }
    SameFifo(p, st, st');
  }

  // ----- fragments outside the cache

  /** A fragment_t that is not in the cache is allocated or freed. */
  lemma HeapStep(p: Params, st: State, f: int, nodes: map<int, Node>)
    requires Inv(p, st, {}) && f !in st.order && nodes - {f} == st.nodes - {f}
    ensures Inv(p, st.(nodes := nodes), {})
  {
    var st' := st.(nodes := nodes);
    SameUnits(p, st, st', {});
    forall m | m != f ensures m in nodes <==> m in st.nodes {
      assert m in nodes - {f} <==> m in st.nodes - {f};
    }
    forall m | m != f && m in nodes ensures nodes[m] == st.nodes[m] {
      assert (nodes - {f})[m] == (st.nodes - {f})[m];
    }
    forall i ensures Linked(nodes, st.order, i) {
      assert Linked(st.nodes, st.order, i);
    }
    forall x ensures SlotOk(p, st', x) && Queued(st', x) && Housed(st', {}, x) {
      assert SlotOk(p, st, x) && Queued(st, x) && Housed(st, {}, x);
    }
    forall i, j | 0 <= i < j < |st.order| && IsEmpty(nodes, st.order[j]) ensures IsEmpty(nodes, st.order[i]) {
      assert IsEmpty(st.nodes, st.order[j]) && IsEmpty(st.nodes, st.order[i]);
    }
  }

  // ----- turning a slot in limbo into empty space

  ghost function GrownBack(st: State, s: int, e: int): State
    requires s in st.slots && End(st.slots, s) in st.slots && e in st.nodes && st.nodes[e].body.Empty?
  {
    var n := st.slots[s].size;
    st.(slots := Join(Retag(st.slots, s, Live(e)), s),
        words := st.words[s := e],
        nodes := st.nodes[e := st.nodes[e].(body := Empty(s + HEADER_SIZE, st.nodes[e].body.fcacheSize + n))])
  }

  /** The empty slot after `s` takes it in. */
  lemma MergeNextStep(p: Params, st: State, loose: set<int>, s: int, e: int)
    requires Inv(p, st, loose) && s in st.slots && st.slots[s].kind.Limbo? && HasNext(st.slots, s)
    requires st.slots[End(st.slots, s)].kind == Live(e) && e in st.nodes && st.nodes[e].body.Empty? && e !in loose
    ensures Inv(p, GrownBack(st, s, e), loose)
  {
    var b, st' := End(st.slots, s), GrownBack(st, s, e);
    RetagTiled(st.slots, st.tops, s, Live(e));
    JoinTiled(Retag(st.slots, s, Live(e)), st.tops, s);
    SameUnits(p, st, st', loose);
    assert SlotOk(p, st, s) && SlotOk(p, st, b) && Queued(st, b) && Inside(st.slots, st.tops, s);
    AlignedSum(st.slots[s].size, st.slots[b].size, p.align);
    forall x ensures SlotOk(p, st', x) && Queued(st', x) {
      assert SlotOk(p, st, x) && Queued(st, x);
    }
    forall m ensures Housed(st', loose, m) {
      assert Housed(st, loose, m);
    }
    RebodyFifo(st, e, st'.nodes[e].body);
  }

  /** Changing where an empty slot is and how large keeps the FIFO. */
  lemma RebodyFifo(st: State, e: int, body: Body)
    requires IsFifo(st.nodes, st.fifo, st.order) && EmptiesFirst(st.nodes, st.order)
    requires e in st.nodes && st.nodes[e].body.Empty? && body.Empty?
    ensures IsFifo(st.nodes[e := st.nodes[e].(body := body)], st.fifo, st.order)
    ensures EmptiesFirst(st.nodes[e := st.nodes[e].(body := body)], st.order)
  {
    var nodes := st.nodes[e := st.nodes[e].(body := body)];
    forall i ensures Linked(nodes, st.order, i) {
      assert Linked(st.nodes, st.order, i);
    }
    forall i, j | 0 <= i < j < |st.order| && IsEmpty(nodes, st.order[j]) ensures IsEmpty(nodes, st.order[i]) {
      assert IsEmpty(st.nodes, st.order[j]) && IsEmpty(st.nodes, st.order[i]);
    }
  }

  ghost function GrownOn(st: State, q: int, e: int): State
    requires q in st.slots && End(st.slots, q) in st.slots && e in st.nodes && st.nodes[e].body.Empty?
  {
    var n := st.slots[End(st.slots, q)].size;
    st.(slots := Join(st.slots, q),
        nodes := st.nodes[e := st.nodes[e].(body := Empty(st.nodes[e].body.startPc, st.nodes[e].body.fcacheSize + n))])
  }

  /** The empty slot at `q` takes in the slot after it. */
  lemma MergePrevStep(p: Params, st: State, loose: set<int>, q: int, e: int)
    requires Inv(p, st, loose) && q in st.slots && HasNext(st.slots, q) && st.slots[End(st.slots, q)].kind.Limbo?
    requires st.slots[q].kind == Live(e) && e in st.nodes && st.nodes[e].body.Empty?
    ensures Inv(p, GrownOn(st, q, e), loose)
  {
    var s, st' := End(st.slots, q), GrownOn(st, q, e);
    JoinTiled(st.slots, st.tops, q);
    SameUnits(p, st, st', loose);
    assert SlotOk(p, st, s) && SlotOk(p, st, q) && Inside(st.slots, st.tops, s) && Inside(st.slots, st.tops, q);
    AlignedSum(st.slots[q].size, st.slots[s].size, p.align);
    forall x ensures SlotOk(p, st', x) && Queued(st', x) {
      assert SlotOk(p, st, x) && Queued(st, x);
    }
    forall m ensures Housed(st', loose, m) {
      assert Housed(st, loose, m);
    }
    RebodyFifo(st, e, st'.nodes[e].body);
  }

  lemma OnHeap(nodes: map<int, Node>, fifo: int, l: seq<int>)
    requires IsFifo(nodes, fifo, l)
    ensures forall x :: x in l ==> x in nodes
  {
    forall x | x in l ensures x in nodes {
      var i :| 0 <= i < |l| && l[i] == x;
      assert Linked(nodes, l, i);
    }
  }

  ghost function Prepended(st: State, s: int, e: int): State
    requires s in st.slots && (st.fifo != 0 ==> st.fifo in st.nodes)
  {
    var body := Empty(s + HEADER_SIZE, st.slots[s].size);
    st.(slots := Retag(st.slots, s, Live(e)),
        words := st.words[s := e],
        nodes := if st.fifo == 0 then st.nodes[e := Node(body, 0, e)]
                 else SetPrev(st.nodes, st.fifo, e)[e := Node(body, st.fifo, st.nodes[st.fifo].prev)],
        fifo := e,
        order := [e] + st.order)
  }

  /** A new empty slot goes on the front of the FIFO. */
  lemma PrependStep(p: Params, st: State, loose: set<int>, s: int, e: int)
    requires Inv(p, st, loose) && s in st.slots && st.slots[s].kind.Limbo? && MIN_FCACHE_SLOT_SIZE <= st.slots[s].size
    requires e != 0 && e !in st.nodes && e !in loose
    ensures st.fifo != 0 ==> st.fifo in st.nodes
    ensures Inv(p, Prepended(st, s, e), loose)
  {
    assert Linked(st.nodes, st.order, 0);
    var st' := Prepended(st, s, e);
    OnHeap(st.nodes, st.fifo, st.order);
    PrependFifo(st.nodes, st.fifo, st.order, e, st'.nodes[e].body);
    RetagTiled(st.slots, st.tops, s, Live(e));
    SameUnits(p, st, st', loose);
    assert st.fifo == 0 ==> [e] + st.order == [e];
    forall x ensures SlotOk(p, st', x) && Queued(st', x) {
      assert SlotOk(p, st, x) && Queued(st, x);
    }
    forall m ensures Housed(st', loose, m) {
      assert Housed(st, loose, m);
    }
    forall i, j | 0 <= i < j < |st'.order| && IsEmpty(st'.nodes, st'.order[j])
      ensures IsEmpty(st'.nodes, st'.order[i])
    {
      if i > 0 {
        assert IsEmpty(st.nodes, st.order[j - 1]) && IsEmpty(st.nodes, st.order[i - 1]);
      }
    }
  }

  // ----- giving a slot in limbo to a fragment

  ghost function Appended(nodes: map<int, Node>, fifo: int, f: int, body: Body): map<int, Node>
    requires fifo != 0 ==> fifo in nodes && nodes[fifo].prev in nodes
  {
    if fifo == 0 then nodes[f := Node(body, 0, f)]
    else
      var t := nodes[fifo].prev;
      var n1 := SetNext(nodes[f := Node(body, 0, t)], t, f);
      if fifo in n1 then SetPrev(n1, fifo, f) else n1
  }

  ghost function PlacedAt(st: State, s: int, f: int, body: Body): State
    requires s in st.slots && (st.fifo != 0 ==> st.fifo in st.nodes && st.nodes[st.fifo].prev in st.nodes)
  {
    st.(slots := Retag(st.slots, s, Live(f)),
        words := st.words[s := f],
        nodes := Appended(st.nodes, st.fifo, f, body),
        fifo := if st.fifo == 0 then f else st.fifo,
        order := st.order + [f])
  }

  lemma PlaceStep(p: Params, st: State, loose: set<int>, s: int, f: int, body: Body)
    requires Inv(p, st, loose) && s in st.slots && st.slots[s].kind.Limbo? && MIN_FCACHE_SLOT_SIZE <= st.slots[s].size
    requires f != 0 && f !in st.order && f !in loose && f in st.nodes && Unplaced(st.slots, f)
    requires body.Frag? && HdrStart(body) == s && SlotSize(body) == st.slots[s].size
    requires 0 <= body.size && HEADER_SIZE <= body.extra <= 255
    ensures st.fifo != 0 ==> st.fifo in st.nodes && st.nodes[st.fifo].prev in st.nodes
    ensures Inv(p, PlacedAt(st, s, f, body), loose)
  {
    assert Linked(st.nodes, st.order, 0) && Linked(st.nodes, st.order, |st.order| - 1);
    var st' := PlacedAt(st, s, f, body);
    PlaceFifo(st, f, body);
    RetagTiled(st.slots, st.tops, s, Live(f));
    SameUnits(p, st, st', loose);
    forall x ensures SlotOk(p, st', x) && Queued(st', x) {
      assert SlotOk(p, st, x) && Queued(st, x);
    }
    forall m ensures Housed(st', loose, m) {
      assert Housed(st, loose, m);
    }
  }

  /** What fifo_append does, write by write. */
  lemma AppendedIs(nodes: map<int, Node>, fifo: int, l: seq<int>, f: int, body: Body)
    requires IsFifo(nodes, fifo, l) && f != 0 && f !in l && f in nodes && body.Frag?
    ensures fifo != 0 ==> fifo in nodes && nodes[fifo].prev in nodes
    ensures var n0, r := nodes[f := Node(body, 0, 0)], Appended(nodes, fifo, f, body);
      if l == [] then r == n0[f := n0[f].(next := 0, prev := f)]
      else
        var t := l[|l| - 1];
        l[0] in n0 && t in n0 && r == SetPrev(SetNext(SetPrev(SetNext(n0, f, 0), f, t), t, f), l[0], f)
  {
    assert Linked(nodes, l, 0) && Linked(nodes, l, |l| - 1);
  }

  /** Only links and the record of `f` change. */
  lemma AppendedBodies(nodes: map<int, Node>, fifo: int, f: int, body: Body)
    requires f in nodes
    requires fifo != 0 ==> fifo in nodes && nodes[fifo].prev in nodes && f != fifo && f != nodes[fifo].prev
    ensures var r := Appended(nodes, fifo, f, body);
      && f in r && r[f].body == body && r.Keys == nodes.Keys
      && forall m {:trigger r[m]} :: m in r && m != f ==> r[m].body == nodes[m].body
  {
  }

  lemma PlaceFifo(st: State, f: int, body: Body)
    requires IsFifo(st.nodes, st.fifo, st.order) && EmptiesFirst(st.nodes, st.order)
    requires f != 0 && f !in st.order && f in st.nodes && body.Frag?
    requires st.fifo != 0 ==> st.fifo in st.nodes && st.nodes[st.fifo].prev in st.nodes
    ensures var nodes := Appended(st.nodes, st.fifo, f, body);
      && IsFifo(nodes, if st.fifo == 0 then f else st.fifo, st.order + [f])
      && EmptiesFirst(nodes, st.order + [f])
      && f in nodes && nodes[f].body == body
      && nodes.Keys == st.nodes.Keys
      && forall m {:trigger nodes[m]} :: m in nodes && m != f ==> nodes[m].body == st.nodes[m].body
  {
    hide Appended;
    var l, l' := st.order, st.order + [f];
    var nodes := Appended(st.nodes, st.fifo, f, body);
    assert Linked(st.nodes, l, 0) && Linked(st.nodes, l, |l| - 1);
    AppendedIs(st.nodes, st.fifo, l, f, body);
    AppendedBodies(st.nodes, st.fifo, f, body);
    var n0 := st.nodes[f := Node(body, 0, 0)];
    forall i ensures Linked(n0, l, i) {
      assert Linked(st.nodes, l, i);
    }
    AppendFifo(n0, st.fifo, l, f);
    assert l == [] ==> l' == [f];
    forall i, j | 0 <= i < j < |l'| && IsEmpty(nodes, l'[j]) ensures IsEmpty(nodes, l'[i]) {
      assert IsEmpty(st.nodes, l[j]) && IsEmpty(st.nodes, l[i]);
    }
  }

  lemma PlaceBodies(p: Params, st: State, f: int, body: Body)
    requires Inv(p, st, {}) && f != 0 && f !in st.order && f in st.nodes && body.Frag?
    ensures st.fifo != 0 ==> st.fifo in st.nodes && st.nodes[st.fifo].prev in st.nodes
    ensures var nodes := Appended(st.nodes, st.fifo, f, body);
      && f in nodes && nodes[f].body == body && nodes.Keys == st.nodes.Keys
      && forall m {:trigger nodes[m]} :: m in nodes && m != f ==> nodes[m].body == st.nodes[m].body
  {
    assert Linked(st.nodes, st.order, 0) && Linked(st.nodes, st.order, |st.order| - 1);
    PlaceFifo(st, f, body);
  }
}
