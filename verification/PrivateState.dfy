/**
  The state of a private cache: slots that hold fragments or empties, all threaded on one FIFO
  whose head points back at its tail while the tail's next is NULL.
 */
module PrivateState {
  import opened Layout
  import opened Lists

  /** The options one cache is created with; a `maxSize` of 0 means no limit. */
  datatype Params = Params(minEmptyHole: int, align: int, maxUnitSize: int, commitIncrement: int, maxSize: int)
  {
    predicate Valid() {
      && 1 <= align <= 64 && PAGE_SIZE % align == 0
      && 26 <= minEmptyHole <= 64
      && 0 < commitIncrement && commitIncrement % PAGE_SIZE == 0
      && 0 < maxUnitSize && 0 <= maxSize
    }

    /** MIN_UNIT_END_HOLE */
    function MinUnitEndHole(): int {
      2 * minEmptyHole
    }
  }

  datatype Body =
    | Empty(startPc: int, fcacheSize: int)
    | Frag(startPc: int, size: int, extra: int, cannotDelete: bool)

  /** An entry of the FIFO: an empty_slot_t or a private fragment_t, with its links. */
  datatype Node = Node(body: Body, next: int, prev: int)

  /** FRAG_HDR_START */
  function HdrStart(b: Body): int {
    b.startPc - HEADER_SIZE
  }

  /** FRAG_SIZE */
  function SlotSize(b: Body): int {
    if b.Empty? then b.fcacheSize else b.size + b.extra
  }

  datatype State = State(
    units: map<int, Unit>, words: map<int, int>, nodes: map<int, Node>, fifo: int,
    slots: Slots, tops: Tops, order: seq<int>)

  // ----- the FIFO

  /** Entry `i` is linked to its neighbours; the head's prev is the tail. */
  ghost predicate Linked(nodes: map<int, Node>, l: seq<int>, i: int) {
    0 <= i < |l| ==>
      && l[i] in nodes
      && nodes[l[i]].next == At(l, i + 1)
      && nodes[l[i]].prev == (if i == 0 then l[|l| - 1] else l[i - 1])
  }

  ghost predicate IsFifo(nodes: map<int, Node>, fifo: int, l: seq<int>) {
    && fifo == At(l, 0)
    && 0 !in l
    && (forall i, j :: 0 <= i < j < |l| ==> l[i] != l[j])
    && (forall i {:trigger Linked(nodes, l, i)} :: Linked(nodes, l, i))
  }

  ghost predicate IsEmpty(nodes: map<int, Node>, n: int) {
    n in nodes && nodes[n].body.Empty?
  }

  /** All empty slots come first. */
  ghost predicate EmptiesFirst(nodes: map<int, Node>, l: seq<int>) {
    forall i, j {:trigger IsEmpty(nodes, l[i]), IsEmpty(nodes, l[j])} ::
      0 <= i < j < |l| && IsEmpty(nodes, l[j]) ==> IsEmpty(nodes, l[i])
  }

  // ----- slots and their nodes

  ghost predicate SlotOk(p: Params, st: State, a: int) {
    a in st.slots ==>
      && (p.align != 0 ==> a % p.align == 0 && st.slots[a].size % p.align == 0)
      && (st.slots[a].kind.Live? ==> Holds(st.words, st.nodes, a, st.slots[a].size, st.slots[a].kind.node))
      && !st.slots[a].kind.Free?
  }

  /** The slot of `size` bytes at `a` belongs to node `n`, in memory and on the heap. */
  ghost predicate Holds(words: map<int, int>, nodes: map<int, Node>, a: int, size: int, n: int) {
    && n != 0 && a in words && words[a] == n
    && n in nodes && HdrStart(nodes[n].body) == a && SlotSize(nodes[n].body) == size
    && MIN_FCACHE_SLOT_SIZE <= size
    && (nodes[n].body.Frag? ==> 0 <= nodes[n].body.size && HEADER_SIZE <= nodes[n].body.extra <= 255)
  }

  /** A node on the FIFO has its slot, unless it is one of the `loose` ones an operation is moving. */
  ghost predicate Housed(st: State, loose: set<int>, n: int) {
    && (n in st.order && n !in loose ==>
          n in st.nodes && HdrStart(st.nodes[n].body) in st.slots
            && st.slots[HdrStart(st.nodes[n].body)].kind == Live(n))
  }

  ghost predicate Queued(st: State, a: int) {
    a in st.slots && st.slots[a].kind.Live? ==> st.slots[a].kind.node in st.order
  }

  ghost predicate UnitOk(p: Params, st: State, u: int) {
    u in st.units ==>
      && u in st.tops
      && 0 < u <= st.tops[u] == st.units[u].curPc <= st.units[u].endPc <= st.units[u].reservedEndPc
      && (st.units[u].full <==> st.units[u].curPc == st.units[u].endPc)
      && (st.units[u].full || p.MinUnitEndHole() <= st.units[u].endPc - st.units[u].curPc)
      && u % PAGE_SIZE == 0 && st.units[u].endPc % PAGE_SIZE == 0 && st.units[u].reservedEndPc % PAGE_SIZE == 0
  }

  /** Guard pages keep units from touching. */
  ghost predicate UnitsApart(st: State, u: int, v: int) {
    u in st.units && v in st.units && u < v ==> st.units[u].reservedEndPc < v
  }

  ghost predicate Inv(p: Params, st: State, loose: set<int>) {
    && p.Valid()
    && Tiled(st.slots, st.tops)
    && st.tops.Keys == st.units.Keys
    && (forall u {:trigger UnitOk(p, st, u)} :: UnitOk(p, st, u))
    && (forall u, v {:trigger UnitsApart(st, u, v)} :: UnitsApart(st, u, v))
    && (forall a {:trigger SlotOk(p, st, a)} :: SlotOk(p, st, a))
    && (forall n {:trigger Housed(st, loose, n)} :: Housed(st, loose, n))
    && (forall a {:trigger Queued(st, a)} :: Queued(st, a))
    && IsFifo(st.nodes, st.fifo, st.order)
    && EmptiesFirst(st.nodes, st.order)
  }

  // ----- FIFO surgery

  function SetNext(nodes: map<int, Node>, n: int, v: int): map<int, Node>
    requires n in nodes
  {
    nodes[n := nodes[n].(next := v)]
  }

  function SetPrev(nodes: map<int, Node>, n: int, v: int): map<int, Node>
    requires n in nodes
  {
    nodes[n := nodes[n].(prev := v)]
  }

  /** Two heaps whose nodes differ in their links only. */
  ghost predicate SameBodies(o: map<int, Node>, n: map<int, Node>) {
    && n.Keys == o.Keys
    && forall x {:trigger n[x]} :: x in o && x in n ==> n[x].body == o[x].body
  }

  /** fifo_append */
  lemma AppendFifo(nodes: map<int, Node>, fifo: int, l: seq<int>, f: int)
    requires IsFifo(nodes, fifo, l) && f in nodes && f != 0 && f !in l
    ensures l == [] ==> IsFifo(nodes[f := nodes[f].(next := 0, prev := f)], f, [f])
    ensures l != [] ==>
              var t := l[|l| - 1];
              && l[0] in nodes && t in nodes && nodes[l[0]].prev == t
              && var n1 := SetNext(SetPrev(SetNext(nodes, f, 0), f, t), t, f);
              IsFifo(SetPrev(n1, l[0], f), fifo, l + [f])
  {
    if l != [] {
      assert Linked(nodes, l, 0) && Linked(nodes, l, |l| - 1);
      var t := l[|l| - 1];
      var n2 := SetPrev(SetNext(SetPrev(SetNext(nodes, f, 0), f, t), t, f), l[0], f);
      var l' := l + [f];
      forall i ensures Linked(n2, l', i) {
        assert Linked(nodes, l, i);
      }
    } else {
      var n2 := nodes[f := nodes[f].(next := 0, prev := f)];
      forall i ensures Linked(n2, [f], i) {
      }
    }
  }

  /** The link writes of fifo_remove. */
  function Unlinked(nodes: map<int, Node>, fifo: int, f: int): (r: (map<int, Node>, int))
    requires f in nodes
    requires f != fifo ==> nodes[f].prev in nodes
    requires nodes[f].next != 0 ==> nodes[f].next in nodes
    requires nodes[f].next == 0 && f != fifo ==> fifo in nodes
  {
    var fifo' := if f == fifo then nodes[f].next else fifo;
    var n1 := if f == fifo then nodes else SetNext(nodes, nodes[f].prev, nodes[f].next);
    var n2 := if nodes[f].next == 0
              then if fifo' != 0 then SetPrev(n1, fifo', nodes[f].prev) else n1
              else SetPrev(n1, nodes[f].next, nodes[f].prev);
    (n2, fifo')
  }

  /** What fifo_remove needs to find, and what it writes. */
  lemma UnlinkFacts(nodes: map<int, Node>, fifo: int, l: seq<int>, k: int)
    requires IsFifo(nodes, fifo, l) && 0 <= k < |l|
    ensures l[k] in nodes && fifo in nodes && (l[k] == fifo <==> k == 0)
    ensures nodes[l[k]].next == At(l, k + 1) && (nodes[l[k]].next == 0 <==> k == |l| - 1)
    ensures 0 < k ==> nodes[l[k]].prev == l[k - 1] && l[k - 1] in nodes
    ensures k == 0 ==> nodes[l[k]].prev == l[|l| - 1]
    ensures nodes[l[k]].next != 0 ==> nodes[l[k]].next in nodes
    ensures var r := Unlinked(nodes, fifo, l[k]);
      && r.1 == At(Without(l, k), 0) && SameBodies(nodes, r.0)
      && (forall x {:trigger r.0[x]} :: x in l && x != l[k] ==>
            && x in r.0 && x in nodes
            && r.0[x].next == (if 0 < k && x == l[k - 1] then At(l, k + 1) else nodes[x].next)
            && r.0[x].prev == (if x == At(if k < |l| - 1 then l else Without(l, k), if k < |l| - 1 then k + 1 else 0)
                               then nodes[l[k]].prev else nodes[x].prev))
  {
    assert Linked(nodes, l, k) && Linked(nodes, l, k - 1) && Linked(nodes, l, k + 1) && Linked(nodes, l, 0);
    assert At(l, k + 1) == 0 <==> k == |l| - 1;
    assert k == 0 && |l| > 1 ==> Without(l, k)[0] == l[1];
    assert k > 0 ==> Without(l, k)[0] == l[0];
    forall x | x in l ensures x in nodes {
      var i :| 0 <= i < |l| && l[i] == x;
      assert Linked(nodes, l, i);
    }
  }

  lemma WithoutAt(l: seq<int>, k: int, i: int)
    requires 0 <= k < |l| && 0 <= i
    ensures At(Without(l, k), i) == At(l, if i < k then i else i + 1)
  {
  }

  /** After the removal entry `i` is linked to its neighbours. */
  lemma StillLinked(nodes: map<int, Node>, fifo: int, l: seq<int>, k: int, i: int)
    requires IsFifo(nodes, fifo, l) && 0 <= k < |l|
    requires l[k] in nodes && (l[k] != fifo ==> nodes[l[k]].prev in nodes)
    requires nodes[l[k]].next != 0 ==> nodes[l[k]].next in nodes
    requires nodes[l[k]].next == 0 && l[k] != fifo ==> fifo in nodes
    ensures Linked(Unlinked(nodes, fifo, l[k]).0, Without(l, k), i)
  {
    UnlinkFacts(nodes, fifo, l, k);
    hide Unlinked;
    var r, l' := Unlinked(nodes, fifo, l[k]), Without(l, k);
    if 0 <= i < |l'| {
      var j := if i < k then i else i + 1;
      assert l'[i] == l[j] && l[j] in l && Linked(nodes, l, j) && l[j] != l[k];
      WithoutAt(l, k, i + 1);
      WithoutAt(l, k, if i == 0 then |l'| - 1 else i - 1);
      assert r.0[l[j]].next == At(l', i + 1);
      assert r.0[l[j]].prev == if i == 0 then l'[|l'| - 1] else l'[i - 1];
    }
  }

  lemma RemoveFifo(nodes: map<int, Node>, fifo: int, l: seq<int>, k: int)
    requires IsFifo(nodes, fifo, l) && 0 <= k < |l|
    ensures l[k] in nodes
    ensures l[k] != fifo ==> nodes[l[k]].prev in nodes
    ensures nodes[l[k]].next != 0 ==> nodes[l[k]].next in nodes
    ensures nodes[l[k]].next == 0 && l[k] != fifo ==> fifo in nodes
    ensures var r := Unlinked(nodes, fifo, l[k]); IsFifo(r.0, r.1, Without(l, k)) && SameBodies(nodes, r.0)
  {
    UnlinkFacts(nodes, fifo, l, k);
    hide Unlinked, Linked;
    var r, l' := Unlinked(nodes, fifo, l[k]), Without(l, k);
    forall i ensures Linked(r.0, l', i) {
      StillLinked(nodes, fifo, l, k, i);
    }
  }

  /** Sticking a new node on the front. */
  lemma PrependFifo(nodes: map<int, Node>, fifo: int, l: seq<int>, s: int, body: Body)
    requires IsFifo(nodes, fifo, l) && s != 0 && s !in l
    ensures fifo == 0 ==> l == [] && IsFifo(nodes[s := Node(body, 0, s)], s, [s])
    ensures fifo != 0 ==>
              && fifo in nodes
              && IsFifo(SetPrev(nodes, fifo, s)[s := Node(body, fifo, nodes[fifo].prev)], s, [s] + l)
  {
    if fifo != 0 {
      assert Linked(nodes, l, 0);
      var n2, l' := SetPrev(nodes, fifo, s)[s := Node(body, fifo, nodes[fifo].prev)], [s] + l;
      forall i ensures Linked(n2, l', i) {
        assert Linked(nodes, l, i - 1);
      }
    } else {
      var n2 := nodes[s := Node(body, 0, s)];
      forall i ensures Linked(n2, [s], i) {
      }
    }
  }
}
