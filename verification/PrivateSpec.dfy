/**
  What evicting contiguous victims means.
 */
module PrivateSpec {
  import opened Alignment
  import opened Layout
  import opened Lists
  import opened PrivateState
  import opened PrivateSteps

  ghost predicate AllLive(s: Slots) {
    forall a {:trigger s[a]} :: a in s ==> s[a].kind.Live?
  }

  ghost predicate Deletable(st: State, a: int) {
    a in st.slots && st.slots[a].kind.Live? && st.slots[a].kind.node in st.nodes ==>
      var b := st.nodes[st.slots[a].kind.node].body; b.Empty? || !b.cannotDelete
  }

  /** Where the victims end that make room for `need` bytes from the slot at `a` on. */
  ghost function Reach(s: Slots, t: Tops, a: int, need: int): (hi: int)
    requires Tiled(s, t) && a in s && s[a].unit in t
    ensures a < hi <= t[s[a].unit]
    decreases t[s[a].unit] - a
  {
    assert Inside(s, t, a) && Chained(s, t, a);
    if need <= s[a].size || End(s, a) == t[s[a].unit] then End(s, a)
    else Reach(s, t, End(s, a), need - s[a].size)
  }

  /** The victims end at the first slot boundary that leaves room enough, else where the unit's
      slots end. */
  lemma {:induction false} ReachLeast(s: Slots, t: Tops, a: int, need: int)
    requires Tiled(s, t) && a in s && s[a].unit in t
    ensures var hi := Reach(s, t, a, need);
      && (hi == t[s[a].unit] || (hi in s && s[hi].unit == s[a].unit && a + need <= hi))
      && (forall x :: x in s && a < x < hi ==> x < a + need)
    decreases t[s[a].unit] - a
  {
    assert Inside(s, t, a) && Chained(s, t, a);
    if s[a].size < need && End(s, a) != t[s[a].unit] {
      ReachLeast(s, t, End(s, a), need - s[a].size);
    }
    forall x | x in s && a < x < Reach(s, t, a, need) ensures x < a + need {
      assert Apart(s, a, x);
    }
  }

  /** The victims, in address order. */
  ghost function Victims(s: Slots, t: Tops, a: int, need: int): seq<int>
    requires Tiled(s, t) && a in s && s[a].unit in t
    decreases t[s[a].unit] - a
  {
    assert Inside(s, t, a) && Chained(s, t, a);
    if need <= s[a].size || End(s, a) == t[s[a].unit] then [a]
    else [a] + Victims(s, t, End(s, a), need - s[a].size)
  }

  /** The victims are the slots from `a` up to where they end, and their sizes add up to that. */
  lemma {:induction false} VictimBytes(s: Slots, t: Tops, a: int, need: int)
    requires Tiled(s, t) && a in s && s[a].unit in t
    ensures var w := Victims(s, t, a, need);
      && (forall i :: 0 <= i < |w| ==> w[i] in s)
      && Bytes(s, w) == Reach(s, t, a, need) - a
      && (forall x :: x in w <==> x in s && a <= x < Reach(s, t, a, need))
    decreases t[s[a].unit] - a
  {
    assert Inside(s, t, a) && Chained(s, t, a);
    forall x | x in s && a < x ensures End(s, a) <= x {
      assert Apart(s, a, x);
    }
    if s[a].size < need && End(s, a) != t[s[a].unit] {
      VictimBytes(s, t, End(s, a), need - s[a].size);
      assert Victims(s, t, a, need)[1..] == Victims(s, t, End(s, a), need - s[a].size);
    } else {
      assert Bytes(s, [a]) == s[a].size + Bytes(s, []);
    }
  }

  /** The empty slots are the first entries of the FIFO and no others. */
  lemma EmptiesArePrefix(p: Params, st: State, loose: set<int>) returns (k: nat)
    requires Inv(p, st, loose)
    ensures k <= |st.order| && forall i :: 0 <= i < |st.order| ==> (IsEmpty(st.nodes, st.order[i]) <==> i < k)
  {
    k := 0;
    while k < |st.order| && IsEmpty(st.nodes, st.order[k])
      invariant k <= |st.order| && forall i :: 0 <= i < k ==> IsEmpty(st.nodes, st.order[i])
    {
      k := k + 1;
    }
  }

  /** Every victim may be deleted. */
  ghost predicate Evictable(st: State, a: int, hi: int) {
    forall x {:trigger Deletable(st, x)} :: x in st.slots && a <= x < hi ==> Deletable(st, x)
  }

  /** The slots in [a, hi) become one slot in limbo. */
  ghost function Hollow(s: Slots, a: int, u: int, hi: int): Slots {
    (map x | x in s && !(a <= x < hi) :: s[x])[a := Slot(hi - a, u, Limbo)]
  }

  lemma HollowFirst(s: Slots, t: Tops, a: int)
    requires Tiled(s, t) && a in s
    ensures Retag(s, a, Limbo) == Hollow(s, a, s[a].unit, End(s, a))
  {
    var r, h := Retag(s, a, Limbo), Hollow(s, a, s[a].unit, End(s, a));
    assert Inside(s, t, a);
    forall x ensures x in r <==> x in h {
      assert Apart(s, a, x);
    }
  }

  lemma HollowNext(s: Slots, t: Tops, a: int, u: int, pc: int)
    requires Tiled(s, t) && pc in s && a < pc && s[pc].unit == u
    ensures var h := Hollow(s, a, u, pc);
      && pc in h && End(h, a) == pc
      && Join(Retag(h, pc, Limbo), a) == Hollow(s, a, u, End(s, pc))
  {
    var h := Hollow(s, a, u, pc);
    var r, h' := Join(Retag(h, pc, Limbo), a), Hollow(s, a, u, End(s, pc));
    assert Inside(s, t, pc);
    forall x ensures x in r <==> x in h' {
      assert Apart(s, pc, x) && Apart(s, x, pc);
    }
  }

  // ----- the FIFO after an eviction

  /** `l` without the members of `gone`. */
  ghost function Keep(l: seq<int>, gone: set<int>): seq<int> {
    if l == [] then [] else (if l[0] in gone then [] else [l[0]]) + Keep(l[1..], gone)
  }

  lemma {:induction false} KeepAll(l: seq<int>, gone: set<int>)
    requires forall i :: 0 <= i < |l| ==> l[i] !in gone
    ensures Keep(l, gone) == l
  {
    if l != [] {
      KeepAll(l[1..], gone);
      assert Keep(l, gone) == [l[0]] + l[1..];
    }
  }

  /** Taking more away later or at once. */
  lemma {:induction false} KeepTwice(l: seq<int>, gone: set<int>, more: set<int>)
    ensures Keep(Keep(l, gone), more) == Keep(l, gone + more)
  {
    if l != [] {
      KeepTwice(l[1..], gone, more);
      var r := Keep(l[1..], gone);
      if l[0] !in gone {
        assert Keep(l, gone) == [l[0]] + r && ([l[0]] + r)[1..] == r;
      } else {
        assert Keep(l, gone) == r;
      }
    }
  }

  lemma {:induction false} KeepDistinct(l: seq<int>, gone: set<int>)
    requires forall i, j :: 0 <= i < j < |l| ==> l[i] != l[j]
    ensures forall i, j :: 0 <= i < j < |Keep(l, gone)| ==> Keep(l, gone)[i] != Keep(l, gone)[j]
  {
    if l != [] {
      var r := Keep(l[1..], gone);
      KeepDistinct(l[1..], gone);
      KeepIn(l[1..], gone);
      forall i | 0 <= i < |r| ensures r[i] != l[0] {
        assert r[i] in r;
      }
    }
  }

  /** Without repetitions, removing an entry is dropping its value. */
  lemma {:induction false} DropOne(l: seq<int>, k: int)
    requires 0 <= k < |l| && forall i, j :: 0 <= i < j < |l| ==> l[i] != l[j]
    ensures Without(l, k) == Keep(l, {l[k]})
  {
    var t := l[1..];
    if k == 0 {
      KeepAll(t, {l[0]});
      assert Without(l, 0) == t;
    } else {
      assert t[k - 1] == l[k];
      DropOne(t, k - 1);
      assert Without(l, k) == [l[0]] + Without(t, k - 1);
    }
  }

  /** Removing one more entry. */
  lemma KeepOne(l: seq<int>, gone: set<int>, k: int)
    requires 0 <= k < |Keep(l, gone)|
    requires forall i, j :: 0 <= i < j < |l| ==> l[i] != l[j]
    ensures Without(Keep(l, gone), k) == Keep(l, gone + {Keep(l, gone)[k]})
  {
    KeepDistinct(l, gone);
    DropOne(Keep(l, gone), k);
    KeepTwice(l, gone, {Keep(l, gone)[k]});
  }

  /** What is kept is what is not gone. */
  lemma {:induction false} KeepIn(l: seq<int>, gone: set<int>)
    ensures forall x :: x in Keep(l, gone) <==> x in l && x !in gone
  {
    if l != [] {
      KeepIn(l[1..], gone);
    }
  }

  /** The nodes whose slots lie in [a, hi). */
  ghost function NodesIn(s: Slots, a: int, hi: int): set<int> {
    set x | x in s && a <= x < hi && s[x].kind.Live? :: s[x].kind.node
  }

  lemma NodesInNext(s: Slots, t: Tops, a: int, pc: int)
    requires Tiled(s, t) && pc in s && a <= pc && s[pc].kind.Live?
    ensures NodesIn(s, a, End(s, pc)) == NodesIn(s, a, pc) + {s[pc].kind.node}
  {
    assert Inside(s, t, pc);
    forall n ensures n in NodesIn(s, a, End(s, pc)) <==> n in NodesIn(s, a, pc) + {s[pc].kind.node} {
      if n in NodesIn(s, a, End(s, pc)) {
        var x :| x in s && a <= x < End(s, pc) && s[x].kind == Live(n);
        assert Apart(s, pc, x);
      }
    }
  }

  /** The heap after the nodes in `gone` were freed: nothing else but links changed. */
  ghost predicate Freed(o: map<int, Node>, n: map<int, Node>, gone: set<int>) {
    SameBodies(o - gone, n)
  }

  // ----- units

  /** A slot that starts where another ends is in the same unit. */
  lemma TouchingUnits(p: Params, st: State, loose: set<int>, a: int)
    requires Inv(p, st, loose) && a in st.slots && End(st.slots, a) in st.slots
    ensures HasNext(st.slots, a)
  {
    var b := End(st.slots, a);
    var u, v := st.slots[a].unit, st.slots[b].unit;
    assert Inside(st.slots, st.tops, a) && Inside(st.slots, st.tops, b);
    assert UnitOk(p, st, u) && UnitOk(p, st, v) && UnitsApart(st, u, v) && UnitsApart(st, v, u);
  }

  lemma NodeSlot(p: Params, st: State, loose: set<int>, n: int)
    requires Inv(p, st, loose) && n in st.order && n !in loose
    ensures n in st.nodes
    ensures var a := HdrStart(st.nodes[n].body);
      && a in st.slots && st.slots[a].kind == Live(n) && st.slots[a].size == SlotSize(st.nodes[n].body)
      && MIN_FCACHE_SLOT_SIZE <= st.slots[a].size
  {
    assert Housed(st, loose, n);
    assert SlotOk(p, st, HdrStart(st.nodes[n].body));
  }

  lemma FifoFacts(p: Params, st: State, loose: set<int>)
    requires Inv(p, st, loose)
    ensures IsFifo(st.nodes, st.fifo, st.order)
  {
  }

  lemma TilingOf(p: Params, st: State)
    requires Inv(p, st, {})
    ensures p.Valid() && Tiled(st.slots, st.tops)
  {
  }

  // ----- the front of the FIFO

  ghost predicate FrontEmpty(st: State) {
    st.fifo != 0 && IsEmpty(st.nodes, st.fifo)
  }

  ghost predicate FrontAfter(st: State, pc: int) {
    FrontEmpty(st) && HdrStart(st.nodes[st.fifo].body) == pc
  }

  ghost predicate FrontBefore(st: State, pc: int) {
    FrontEmpty(st) && HdrStart(st.nodes[st.fifo].body) + SlotSize(st.nodes[st.fifo].body) == pc
  }

  lemma FrontSlot(p: Params, st: State, loose: set<int>)
    requires Inv(p, st, loose) && st.fifo != 0
    ensures st.fifo in st.nodes && st.fifo in st.order && st.fifo == st.order[0]
    ensures st.fifo !in loose ==>
              var a := HdrStart(st.nodes[st.fifo].body);
              a in st.slots && st.slots[a] == Slot(SlotSize(st.nodes[st.fifo].body), st.slots[a].unit, Live(st.fifo))
  {
    assert Linked(st.nodes, st.order, 0) && Housed(st, loose, st.fifo);
    assert SlotOk(p, st, HdrStart(st.nodes[st.fifo].body));
  }

  /** The state in which the slot in limbo at `s` has become empty space. */
  ghost function Emptied(st: State, s: int, e: int): State
    requires s in st.slots && (st.fifo != 0 ==> st.fifo in st.nodes)
    requires FrontAfter(st, End(st.slots, s)) ==> End(st.slots, s) in st.slots
    requires FrontBefore(st, s) ==> var q := HdrStart(st.nodes[st.fifo].body); q in st.slots && End(st.slots, q) == s
  {
    if FrontAfter(st, End(st.slots, s)) then GrownBack(st, s, st.fifo)
    else if FrontBefore(st, s) then GrownOn(st, HdrStart(st.nodes[st.fifo].body), st.fifo)
    else Prepended(st, s, e)
  }

  lemma EmptiedStep(p: Params, st: State, loose: set<int>, s: int, e: int)
    requires Inv(p, st, loose) && s in st.slots && st.slots[s].kind.Limbo? && MIN_FCACHE_SLOT_SIZE <= st.slots[s].size
    requires e != 0 && e !in st.nodes && e !in loose && (FrontEmpty(st) ==> st.fifo !in loose)
    ensures st.fifo != 0 ==> st.fifo in st.nodes
    ensures FrontAfter(st, End(st.slots, s)) ==> End(st.slots, s) in st.slots
    ensures FrontBefore(st, s) ==> var q := HdrStart(st.nodes[st.fifo].body); q in st.slots && End(st.slots, q) == s
    ensures Inv(p, Emptied(st, s, e), loose)
  {
    if st.fifo != 0 {
      FrontSlot(p, st, loose);
    }
    if FrontAfter(st, End(st.slots, s)) {
      TouchingUnits(p, st, loose, s);
      MergeNextStep(p, st, loose, s, st.fifo);
    } else if FrontBefore(st, s) {
      var q := HdrStart(st.nodes[st.fifo].body);
      TouchingUnits(p, st, loose, q);
      MergePrevStep(p, st, loose, q, st.fifo);
    } else {
      PrependStep(p, st, loose, s, e);
    }
  }

  /** The bytes [a, a + n) are part of an empty slot. */
  ghost predicate InEmpty(st: State, a: int, n: int) {
    exists q {:trigger st.slots[q]} ::
      && q in st.slots && q <= a && a + n <= End(st.slots, q)
      && st.slots[q].kind.Live? && IsEmpty(st.nodes, st.slots[q].kind.node)
  }

  lemma EmptiedFacts(p: Params, st: State, loose: set<int>, s: int, e: int, f: int)
    requires Inv(p, st, loose) && s in st.slots && st.slots[s].kind.Limbo? && MIN_FCACHE_SLOT_SIZE <= st.slots[s].size
    requires e != 0 && e !in st.nodes && e !in loose && (FrontEmpty(st) ==> st.fifo !in loose)
    requires f in st.nodes && !IsEmpty(st.nodes, f) && Unplaced(st.slots, f)
    ensures st.fifo != 0 ==> st.fifo in st.nodes
    ensures FrontAfter(st, End(st.slots, s)) ==> End(st.slots, s) in st.slots
    ensures FrontBefore(st, s) ==> var q := HdrStart(st.nodes[st.fifo].body); q in st.slots && End(st.slots, q) == s
    ensures Unplaced(Emptied(st, s, e).slots, f)
    ensures f in Emptied(st, s, e).nodes && !IsEmpty(Emptied(st, s, e).nodes, f)
    ensures Emptied(st, s, e).nodes[f].body == st.nodes[f].body
  {
    EmptiedStep(p, st, loose, s, e);
    if st.fifo != 0 {
      FrontSlot(p, st, loose);
      assert st.fifo != f || !FrontEmpty(st);
    }
  }

  lemma EmptiedOrder(p: Params, st: State, loose: set<int>, s: int, e: int)
    requires Inv(p, st, loose) && s in st.slots && st.slots[s].kind.Limbo? && MIN_FCACHE_SLOT_SIZE <= st.slots[s].size
    requires e != 0 && e !in st.nodes && e !in loose && (FrontEmpty(st) ==> st.fifo !in loose)
    ensures st.fifo != 0 ==> st.fifo in st.nodes
    ensures FrontAfter(st, End(st.slots, s)) ==> End(st.slots, s) in st.slots
    ensures FrontBefore(st, s) ==> var q := HdrStart(st.nodes[st.fifo].body); q in st.slots && End(st.slots, q) == s
    ensures Emptied(st, s, e).order
        == (if FrontAfter(st, End(st.slots, s)) || FrontBefore(st, s) then [] else [e]) + st.order
  {
    EmptiedStep(p, st, loose, s, e);
  }

  /** Where the bytes of the slot went. */
  lemma EmptiedWhere(p: Params, st: State, loose: set<int>, s: int, e: int)
    requires Inv(p, st, loose) && s in st.slots && st.slots[s].kind.Limbo? && MIN_FCACHE_SLOT_SIZE <= st.slots[s].size
    requires e != 0 && e !in st.nodes && e !in loose && (FrontEmpty(st) ==> st.fifo !in loose)
    ensures st.fifo != 0 ==> st.fifo in st.nodes
    ensures FrontAfter(st, End(st.slots, s)) ==> End(st.slots, s) in st.slots
    ensures FrontBefore(st, s) ==> var q := HdrStart(st.nodes[st.fifo].body); q in st.slots && End(st.slots, q) == s
    ensures InEmpty(Emptied(st, s, e), s, st.slots[s].size)
  {
    EmptiedStep(p, st, loose, s, e);
    assert Inside(st.slots, st.tops, s) && Inside(st.slots, st.tops, End(st.slots, s));
    if st.fifo != 0 {
      FrontSlot(p, st, loose);
      assert Inside(st.slots, st.tops, HdrStart(st.nodes[st.fifo].body));
    }
    hide Inv;
    var st' := Emptied(st, s, e);
    var q := if FrontAfter(st, End(st.slots, s)) || !FrontBefore(st, s) then s else HdrStart(st.nodes[st.fifo].body);
    assert q in st'.slots && st'.slots[q].kind.Live? && IsEmpty(st'.nodes, st'.slots[q].kind.node);
  }

  /** The slots of fragments other than `f` are as they were, and so are their records. */
  ghost predicate OtherSlots(o: State, n: State, f: int) {
    && OtherFrags(o.nodes, n.nodes, f)
    && forall a {:trigger o.slots[a]} :: a in o.slots && HoldsFrag(o, a) && o.slots[a].kind != Live(f) ==>
         a in n.slots && n.slots[a] == o.slots[a]
  }

  ghost predicate HoldsFrag(st: State, a: int)
    requires a in st.slots
  {
    st.slots[a].kind.Live? && st.slots[a].kind.node in st.nodes && st.nodes[st.slots[a].kind.node].body.Frag?
  }

  /** Only links changed since. */
  lemma OthersRelinked(o: State, m: State, n: State, f: int)
    requires OtherSlots(o, m, f) && SameBodies(m.nodes, n.nodes) && n.slots == m.slots
    ensures OtherSlots(o, n, f)
  {
    forall x | x in o.nodes && o.nodes[x].body.Frag? && x != f
      ensures x in n.nodes && n.nodes[x].body == o.nodes[x].body
    {
      assert x in m.nodes && m.nodes[x].body == o.nodes[x].body;
    }
  }

  lemma OthersLoosened(o: State, n: State, f: int, a: int)
    requires a in o.slots && o.slots[a].kind == Live(f) && OtherSlots(o.(slots := Retag(o.slots, a, Limbo)), n, f)
    ensures OtherSlots(o, n, f)
  {
    var r := Retag(o.slots, a, Limbo);
    forall x | x in o.slots && HoldsFrag(o, x) && o.slots[x].kind != Live(f)
      ensures x in n.slots && n.slots[x] == o.slots[x]
    {
      assert r[x] == o.slots[x];
    }
  }

  lemma EmptiedOthers(p: Params, st: State, loose: set<int>, s: int, e: int, f: int)
    requires Inv(p, st, loose) && s in st.slots && st.slots[s].kind.Limbo? && MIN_FCACHE_SLOT_SIZE <= st.slots[s].size
    requires e != 0 && e !in st.nodes && e !in loose && (FrontEmpty(st) ==> st.fifo !in loose)
    ensures st.fifo != 0 ==> st.fifo in st.nodes
    ensures FrontAfter(st, End(st.slots, s)) ==> End(st.slots, s) in st.slots
    ensures FrontBefore(st, s) ==> var q := HdrStart(st.nodes[st.fifo].body); q in st.slots && End(st.slots, q) == s
    ensures OtherSlots(st, Emptied(st, s, e), f)
  {
    EmptiedStep(p, st, loose, s, e);
    if st.fifo != 0 {
      FrontSlot(p, st, loose);
    }
  }

  lemma RestLive(s: Slots, a: int)
    requires AllLive(s) && a in s
    ensures AllLive(Retag(s, a, Limbo) - {a})
  {
    var r := Retag(s, a, Limbo) - {a};
    forall x | x in r ensures r[x].kind.Live? {
      assert r[x] == s[x];
    }
  }

  /** In `n` the slot in limbo at `s` of `st` has become empty space. */
  ghost predicate EmptiedTo(st: State, n: State, s: int, e: int) {
    && s in st.slots && (st.fifo != 0 ==> st.fifo in st.nodes)
    && (FrontAfter(st, End(st.slots, s)) ==> End(st.slots, s) in st.slots)
    && (FrontBefore(st, s) ==> var q := HdrStart(st.nodes[st.fifo].body); q in st.slots && End(st.slots, q) == s)
    && n == Emptied(st, s, e)
  }

  /** The first half of fcache_remove_fragment: the slot of `f`, in limbo at `s`, is empty space. */
  lemma RemoveEmptied(p: Params, st: State, n: State, s: int, e: int, f: int)
    requires Inv(p, st, {f}) && s in st.slots && st.slots[s].kind.Limbo? && MIN_FCACHE_SLOT_SIZE <= st.slots[s].size
    requires e != 0 && e !in st.nodes && f in st.nodes && !IsEmpty(st.nodes, f) && Unplaced(st.slots, f)
    requires AllLive(st.slots - {s}) && EmptiedTo(st, n, s, e)
    ensures AllLive(n.slots) && Unplaced(n.slots, f) && !IsEmpty(n.nodes, f)
    ensures n.order == (if FrontAfter(st, End(st.slots, s)) || FrontBefore(st, s) then [] else [e]) + st.order
    ensures InEmpty(n, s, st.slots[s].size) && OtherSlots(st, n, f)
    ensures f in n.nodes && n.nodes[f].body == st.nodes[f].body
  {
    hide Inv, Emptied;
    EmptiedFacts(p, st, {f}, s, e, f);
    EmptiedOrder(p, st, {f}, s, e);
    EmptiedWhere(p, st, {f}, s, e);
    EmptiedLive(p, st, {f}, s, e);
    EmptiedOthers(p, st, {f}, s, e, f);
  }

  /** The second half: `f`, in position `k`, leaves the FIFO. */
  lemma RemoveUnlinked(p: Params, st: State, k: int, f: int, pre: seq<int>, l: seq<int>, i: int)
    requires Inv(p, st, {f}) && st.order == pre + l && k == |pre| + i && 0 <= i < |l| && l[i] == f && f !in pre
    requires Unplaced(st.slots, f)
    ensures IsFifo(st.nodes, st.fifo, st.order)
    ensures f !in Removed(st, k, false).order && Removed(st, k, false).order == pre + Keep(l, {f})
    ensures SameBodies(st.nodes, Removed(st, k, false).nodes)
  {
    hide Inv, Unlinked, Keep;
    FifoFacts(p, st, {f});
    RemoveStep(p, st, {f}, k, false);
    DropBehind(pre, l, i);
  }

  /** Without repetitions, removing an entry behind `pre`. */
  lemma DropBehind(pre: seq<int>, l: seq<int>, i: int)
    requires 0 <= i < |l| && forall x, y :: 0 <= x < y < |pre + l| ==> (pre + l)[x] != (pre + l)[y]
    ensures Without(pre + l, |pre| + i) == pre + Keep(l, {l[i]}) && l[i] !in pre + Keep(l, {l[i]})
  {
    hide Keep;
    var w := pre + l;
    assert Without(w, |pre| + i) == pre + Without(l, i) by {
      assert w[..|pre| + i] == pre + l[..i] && w[|pre| + i + 1..] == l[i + 1..];
    }
    forall x, y | 0 <= x < y < |l| ensures l[x] != l[y] {
      assert w[|pre| + x] == l[x] && w[|pre| + y] == l[y];
    }
    DropOne(l, i);
    KeepIn(l, {l[i]});
    forall x | 0 <= x < |pre| ensures pre[x] != l[i] {
      assert w[x] == pre[x] && w[|pre| + i] == l[i];
    }
  }

  lemma EmptyRelinked(st: State, n: State, a: int, k: int)
    requires InEmpty(st, a, k) && n.slots == st.slots && SameBodies(st.nodes, n.nodes)
    ensures InEmpty(n, a, k)
  {
    var q :| q in st.slots && q <= a && a + k <= End(st.slots, q)
             && st.slots[q].kind.Live? && IsEmpty(st.nodes, st.slots[q].kind.node);
    assert n.slots[q].kind.Live? && IsEmpty(n.nodes, n.slots[q].kind.node);
  }

  lemma EmptiedLive(p: Params, st: State, loose: set<int>, s: int, e: int)
    requires Inv(p, st, loose) && s in st.slots && st.slots[s].kind.Limbo? && MIN_FCACHE_SLOT_SIZE <= st.slots[s].size
    requires e != 0 && e !in st.nodes && e !in loose && (FrontEmpty(st) ==> st.fifo !in loose)
    requires AllLive(st.slots - {s})
    ensures st.fifo != 0 ==> st.fifo in st.nodes
    ensures FrontAfter(st, End(st.slots, s)) ==> End(st.slots, s) in st.slots
    ensures FrontBefore(st, s) ==> var q := HdrStart(st.nodes[st.fifo].body); q in st.slots && End(st.slots, q) == s
    ensures AllLive(Emptied(st, s, e).slots)
  {
    EmptiedStep(p, st, loose, s, e);
    var st' := Emptied(st, s, e);
    forall x | x in st'.slots ensures st'.slots[x].kind.Live? {
      assert x in st.slots - {s} ==> (st.slots - {s})[x].kind.Live?;
    }
  }

  // ----- one more victim

  /** The slots in [a, hi) of `o` have been evicted. */
  ghost predicate EvictedTo(o: State, n: State, a: int, hi: int)
    requires a in o.slots
  {
    && n.slots == (if hi == a then o.slots else Hollow(o.slots, a, o.slots[a].unit, hi))
    && n.tops == o.tops && n.units == o.units && n.words == o.words
    && n.order == Keep(o.order, NodesIn(o.slots, a, hi))
    && Freed(o.nodes, n.nodes, NodesIn(o.slots, a, hi))
  }

  lemma EvictStart(p: Params, o: State, a: int)
    requires Inv(p, o, {}) && a in o.slots
    ensures EvictedTo(o, o, a, a)
  {
    KeepAll(o.order, {});
    assert NodesIn(o.slots, a, a) == {};
    assert o.nodes - {} == o.nodes;
  }

  /** The slot in limbo that grows to hold victim `pc` as well. */
  ghost function Swallow(s: Slots, a: int, pc: int): Slots
    requires a in s && pc in s && (a == pc || End(s, a) == pc)
  {
    if a == pc then Retag(s, a, Limbo) else Join(Retag(s, pc, Limbo), a)
  }

  lemma SwallowStep(p: Params, st: State, a: int, pc: int, k: int)
    requires Inv(p, st, {}) && a in st.slots && pc in st.slots && 0 <= k < |st.order|
    requires a != pc ==> st.slots[a].kind.Limbo? && End(st.slots, a) == pc
    requires st.slots[pc].kind == Live(st.order[k])
    ensures Inv(p, st.(slots := Retag(st.slots, pc, Limbo)), {st.order[k]})
    ensures Unplaced(Retag(st.slots, pc, Limbo), st.order[k])
    ensures Inv(p, Removed(st, k, true).(slots := Swallow(st.slots, a, pc)), {})
  {
    var n := st.order[k];
    LooseStep(p, st, {}, pc);
    assert {} + {n} == {n} && {n} - {n} == {};
    var st1 := st.(slots := Retag(st.slots, pc, Limbo));
    RemoveStep(p, st1, {n}, k, true);
    var st2 := Removed(st1, k, true);
    assert st2 == Removed(st, k, true).(slots := Retag(st.slots, pc, Limbo));
    if a != pc {
      TouchingUnits(p, st, {}, a);
      JoinStep(p, st2, {}, a);
    }
  }

  /** The next victim, at `pc`, and what comes after it. */
  lemma VictimFacts(p: Params, o: State, st: State, a: int, pc: int, victim: int) returns (k: int)
    requires Inv(p, o, {}) && AllLive(o.slots) && Inv(p, st, {}) && a in o.slots && a <= pc && pc in o.slots
    requires EvictedTo(o, st, a, pc) && o.slots[pc].kind == Live(victim)
    ensures 0 <= k < |st.order| && st.order[k] == victim
    ensures victim in st.nodes && SlotSize(st.nodes[victim].body) == o.slots[pc].size
    ensures st.words == o.words && st.units == o.units
    ensures var u, hi := o.slots[pc].unit, End(o.slots, pc);
      && u in o.units && u in o.tops && o.tops[u] == o.units[u].curPc && pc < hi <= o.tops[u]
      && (hi < o.tops[u] ==>
           hi in o.slots && o.slots[hi].unit == u && hi in o.words && o.slots[hi].kind == Live(o.words[hi]))
  {
    var u, hi := o.slots[pc].unit, End(o.slots, pc);
    assert pc in st.slots && st.slots[pc] == o.slots[pc];
    assert Queued(st, pc) && SlotOk(p, st, pc);
    k :| 0 <= k < |st.order| && st.order[k] == victim;
    assert Inside(o.slots, o.tops, pc) && Chained(o.slots, o.tops, pc) && UnitOk(p, o, u);
    assert hi in o.slots ==> SlotOk(p, o, hi) && o.slots[hi].kind.Live?;
  }

  lemma EvictStep(p: Params, o: State, st: State, a: int, pc: int, k: int)
    requires Inv(p, o, {}) && Inv(p, st, {}) && a in o.slots
    requires pc in o.slots && a <= pc && o.slots[pc].unit == o.slots[a].unit
    requires EvictedTo(o, st, a, pc) && 0 <= k < |st.order| && o.slots[pc].kind == Live(st.order[k])
    ensures a in st.slots && pc in st.slots && (a != pc ==> st.slots[a].kind.Limbo? && End(st.slots, a) == pc)
    ensures st.slots[pc] == o.slots[pc]
    ensures EvictedTo(o, Removed(st, k, true).(slots := Swallow(st.slots, a, pc)), a, End(o.slots, pc))
  {
    var n, hi := st.order[k], End(o.slots, pc);
    assert Inside(o.slots, o.tops, pc);
    NodesInNext(o.slots, o.tops, a, pc);
    KeepOne(o.order, NodesIn(o.slots, a, pc), k);
    if a == pc {
      HollowFirst(o.slots, o.tops, a);
    } else {
      HollowNext(o.slots, o.tops, a, o.slots[a].unit, pc);
    }
    var st' := Removed(st, k, true);
    RemoveFifo(st.nodes, st.fifo, st.order, k);
    FreedOne(o.nodes, st.nodes, st'.nodes, NodesIn(o.slots, a, pc), n);
  }

  lemma FreedOne(o: map<int, Node>, m: map<int, Node>, r: map<int, Node>, gone: set<int>, n: int)
    requires Freed(o, m, gone) && SameBodies(m - {n}, r)
    ensures Freed(o, r, gone + {n})
  {
    assert o - (gone + {n}) == (o - gone) - {n};
    forall x | x in (o - (gone + {n})) && x in r ensures r[x].body == (o - (gone + {n}))[x].body {
      assert (m - {n})[x].body == m[x].body;
    }
  }

  // ----- the end of a unit

  /** The bytes at the end of a unit that are too few for another slot once `size` are claimed. */
  function Leftover(p: Params, v: Unit, size: int): int {
    var left := v.endPc - v.curPc - size;
    if left < p.MinUnitEndHole() then left else 0
  }

  lemma ClaimStep(p: Params, st: State, u: int, size: int)
    requires Inv(p, st, {}) && u in st.units && 0 < size && st.units[u].curPc + size <= st.units[u].endPc
    requires size % p.align == 0 && st.units[u].curPc % p.align == 0
    ensures p.Valid() && 0 <= Leftover(p, st.units[u], size) < p.MinUnitEndHole()
    ensures u in st.tops && st.tops[u] == st.units[u].curPc && st.tops[u] !in st.slots && !st.units[u].full
    ensures (size + Leftover(p, st.units[u], size)) % p.align == 0
    ensures Inv(p, Extended(st, u, size + Leftover(p, st.units[u], size)), {})
  {
    var v, extra := st.units[u], Leftover(p, st.units[u], size);
    assert UnitOk(p, st, u);
    AlignedChain(v.endPc, PAGE_SIZE, p.align);
    AlignedSum(v.curPc, size, p.align);
    AlignedSum(v.endPc, v.curPc + size, p.align);
    AlignedSum(size, v.endPc - (v.curPc + size), p.align);
    ExtendStep(p, st, {}, u, size + extra);
  }

  /** Only the most recent unit can have room at its end. */
  ghost predicate Book(us: map<int, Unit>, live: seq<int>) {
    && |live| > 0
    && (forall i :: 0 <= i < |live| ==> live[i] in us)
    && (forall i, j :: 0 <= i < j < |live| ==> live[i] != live[j])
    && (forall u {:trigger us[u]} :: u in us ==> u in live && (us[u].full || u == live[0]))
  }

  lemma BookExtended(us: map<int, Unit>, live: seq<int>, u: int, v: Unit)
    requires Book(us, live) && u in us && (u == live[0] || !us[u].full)
    ensures Book(us[u := v], live)
  {
  }

  /** Every unit is still there, with what is reserved for it. */
  ghost predicate SameReserved(o: map<int, Unit>, n: map<int, Unit>) {
    forall u {:trigger o[u]} {:trigger n[u]} :: u in o ==> u in n && n[u].reservedEndPc == o[u].reservedEndPc
  }

  lemma ReservedChain(o: map<int, Unit>, m: map<int, Unit>)
    ensures SameReserved(o, o)
    ensures SameReserved(o, m) ==> forall n {:trigger SameReserved(m, n)} :: SameReserved(m, n) ==> SameReserved(o, n)
  {
  }

  // ----- filling the hole the victims left

  /** From `m`, where the victims' bytes are one slot in limbo at `a`, to `n`: the slot was cut to
      `size` with the rest of it, `gap` bytes, made empty space. */
  ghost predicate Cut(m: State, n: State, a: int, size: int, e: int)
    requires a in m.slots
  {
    var hi, u := End(m.slots, a), m.slots[a].unit;
    var front := m.slots[a := Slot(size, u, Limbo)];
    && n.tops == m.tops && n.units == m.units
    && if FrontAfter(m, hi) then
        && hi in m.slots && n.order == m.order
        && n.slots == (front - {hi})[a + size := Slot(hi - (a + size) + m.slots[hi].size, u, Live(m.fifo))]
      else
        && n.order == [e] + m.order
        && n.slots == front[a + size := Slot(hi - (a + size), u, Live(e))]
  }

  lemma CutStep(p: Params, m: State, a: int, size: int, e: int)
    requires Inv(p, m, {}) && a in m.slots && m.slots[a].kind.Limbo?
    requires 0 < size && size + p.minEmptyHole <= m.slots[a].size
    requires size % p.align == 0 && e != 0 && e !in m.nodes
    ensures a + size !in m.slots
    ensures var m1 := m.(slots := Split(m.slots, a, size));
      && Inv(p, m1, {}) && m1.slots[a + size] == Slot(m.slots[a].size - size, m.slots[a].unit, Limbo)
      && MIN_FCACHE_SLOT_SIZE <= m1.slots[a + size].size
      && (m1.fifo != 0 ==> m1.fifo in m1.nodes)
      && (FrontAfter(m1, End(m1.slots, a + size)) ==> End(m1.slots, a + size) in m1.slots)
      && (FrontBefore(m1, a + size) ==>
            var q := HdrStart(m1.nodes[m1.fifo].body); q in m1.slots && End(m1.slots, q) == a + size)
      && Cut(m, Emptied(m1, a + size, e), a, size, e)
      && Emptied(m1, a + size, e).nodes.Keys == m.nodes.Keys + (if FrontAfter(m, End(m.slots, a)) then {} else {e})
      && SameFrags(m.nodes, Emptied(m1, a + size, e).nodes) && SameFrags(Emptied(m1, a + size, e).nodes, m.nodes)
  {
    SplitStep(p, m, {}, a, size);
    var m1 := m.(slots := Split(m.slots, a, size));
    EmptiedStep(p, m1, {}, a + size, e);
    NotBefore(p, m1, a, a + size);
    var hi, u := End(m.slots, a), m.slots[a].unit;
    if FrontAfter(m, hi) {
      FrontSlot(p, m1, {});
      TouchingUnits(p, m, {}, a);
      assert Inside(m.slots, m.tops, a);
      var rest := Slot(hi - (a + size) + m.slots[hi].size, u, Live(m.fifo));
      assert Emptied(m1, a + size, e).slots == (m.slots[a := Slot(size, u, Limbo)] - {hi})[a + size := rest];
    }
  }

  /** The slot before `b` is in limbo, so the front of the FIFO does not end at `b`. */
  lemma NotBefore(p: Params, st: State, a: int, b: int)
    requires Inv(p, st, {}) && a in st.slots && st.slots[a].kind.Limbo? && End(st.slots, a) == b
    ensures !FrontBefore(st, b)
  {
    if st.fifo != 0 {
      FrontSlot(p, st, {});
      var q := HdrStart(st.nodes[st.fifo].body);
      assert Inside(st.slots, st.tops, a) && Inside(st.slots, st.tops, q);
      assert Apart(st.slots, a, q) && Apart(st.slots, q, a);
    }
  }

  lemma GrowHole(p: Params, m: State, a: int, size: int)
    requires Inv(p, m, {}) && a in m.slots && m.slots[a].kind.Limbo? && m.slots[a].size < size && size % p.align == 0
    requires m.slots[a].unit in m.units && m.slots[a].unit in m.tops
    requires End(m.slots, a) == m.tops[m.slots[a].unit] && a + size <= m.units[m.slots[a].unit].endPc
    ensures 0 <= Leftover(p, m.units[m.slots[a].unit], size - m.slots[a].size) < p.MinUnitEndHole()
    ensures var u, n := m.slots[a].unit, size - m.slots[a].size;
      && m.units[u].curPc == End(m.slots, a)
      && n % p.align == 0 && m.units[u].curPc % p.align == 0
      && m.tops[u] !in m.slots
      && var m1 := Extended(m, u, n + Leftover(p, m.units[u], n));
      && Inv(p, m1, {}) && HasNext(m1.slots, a)
      && Inv(p, m1.(slots := Join(m1.slots, a)), {})
      && Join(m1.slots, a) == m.slots[a := Slot(size + Leftover(p, m.units[u], n), u, Limbo)]
  {
    var u, n := m.slots[a].unit, size - m.slots[a].size;
    assert UnitOk(p, m, u) && SlotOk(p, m, a) && Inside(m.slots, m.tops, a);
    AlignedSum(a, m.slots[a].size, p.align);
    AlignedSum(size, m.slots[a].size, p.align);
    ClaimStep(p, m, u, n);
    var m1 := Extended(m, u, n + Leftover(p, m.units[u], n));
    JoinStep(p, m1, {}, a);
  }

  /** A fragment that waits for a place in the cache. */
  ghost predicate Waiting(st: State, f: int) {
    f != 0 && f in st.nodes && f !in st.order && st.nodes[f].body.Frag? && 0 <= st.nodes[f].body.size
      && Unplaced(st.slots, f)
  }

  /** `size` is a slot size fcache_add_fragment asks for on behalf of `f`. */
  ghost predicate Request(p: Params, st: State, f: int, size: int) {
    && Waiting(st, f)
    && MIN_FCACHE_SLOT_SIZE <= size && p.align != 0 && size % p.align == 0
    && HEADER_SIZE <= size - st.nodes[f].body.size <= 89
  }

  /** The fragments other than `f` are as they were. */
  ghost predicate OtherFrags(o: map<int, Node>, n: map<int, Node>, f: int) {
    forall x {:trigger o[x]} {:trigger n[x]} :: x in o && o[x].body.Frag? && x != f ==> x in n && n[x].body == o[x].body
  }

  /** All fragments are as they were. */
  ghost predicate SameFrags(o: map<int, Node>, n: map<int, Node>) {
    forall x {:trigger o[x]} {:trigger n[x]} :: x in o && o[x].body.Frag? ==> x in n && n[x].body == o[x].body
  }

  /** The record of `f` after it was placed in a slot of `k` bytes at `a`. */
  ghost predicate RecordPlaced(o: map<int, Node>, n: map<int, Node>, f: int, a: int, k: int) {
    && f in o && o[f].body.Frag? && f in n
    && n[f].body == o[f].body.(startPc := a + HEADER_SIZE, extra := k - o[f].body.size)
    && HEADER_SIZE <= n[f].body.extra <= 255
    && OtherFrags(o, n, f) && OtherFrags(n, o, f)
  }

  /** From `m`, where the victims' bytes are one slot in limbo at `a`, to `n`, where `f` has `k` bytes
      there and the `gap` bytes after it are empty space. Nothing else moved. */
  ghost predicate Filled(p: Params, m: State, n: State, f: int, e: int, a: int, size: int, k: int, gap: int)
    requires a in m.slots && m.slots[a].unit in m.tops
  {
    var u, hi := m.slots[a].unit, End(m.slots, a);
    && RecordPlaced(m.nodes, n.nodes, f, a, k) && n.nodes.Keys <= m.nodes.Keys + {e} && SameReserved(m.units, n.units)
    && n.tops.Keys == m.tops.Keys && n.tops == m.tops[u := n.tops[u]] && m.tops[u] <= n.tops[u]
    && size <= k < size + p.MinUnitEndHole()
    && k + gap == m.slots[a].size + (n.tops[u] - m.tops[u])
    && (gap == 0 || (p.minEmptyHole <= gap && k == size && n.tops == m.tops))
    && (size <= m.slots[a].size ==>
         n.tops == m.tops
         && gap == if p.minEmptyHole <= m.slots[a].size - size then m.slots[a].size - size else 0)
    && (m.slots[a].size < size ==>
         u in m.units && gap == 0 && k == size + Leftover(p, m.units[u], size - m.slots[a].size))
    && var front := m.slots[a := Slot(k, u, Live(f))];
    if gap == 0 then n.slots == front && n.order == m.order + [f]
    else if FrontAfter(m, hi) then
      && hi in m.slots && n.order == m.order + [f]
      && n.slots == (front - {hi})[a + k := Slot(gap + m.slots[hi].size, u, Live(m.fifo))]
    else
      && n.order == [e] + m.order + [f]
      && n.slots == front[a + k := Slot(gap, u, Live(e))]
  }

  lemma PlaceRecord(p: Params, st: State, f: int, a: int, k: int)
    requires Inv(p, st, {}) && f != 0 && f !in st.order && f in st.nodes && st.nodes[f].body.Frag?
    requires HEADER_SIZE <= k - st.nodes[f].body.size <= 255
    ensures st.fifo != 0 ==> st.fifo in st.nodes && st.nodes[st.fifo].prev in st.nodes
    ensures var body := st.nodes[f].body.(startPc := a + HEADER_SIZE, extra := k - st.nodes[f].body.size);
      var nodes := Appended(st.nodes, st.fifo, f, body);
      RecordPlaced(st.nodes, nodes, f, a, k) && nodes.Keys == st.nodes.Keys
  {
    PlaceBodies(p, st, f, st.nodes[f].body.(startPc := a + HEADER_SIZE, extra := k - st.nodes[f].body.size));
    hide Inv, Appended;
  }

  lemma RecordChain(o: map<int, Node>, m: map<int, Node>, n: map<int, Node>, f: int, a: int, k: int)
    requires f != 0 && f in o && o[f].body.Frag? && SameFrags(o, m) && SameFrags(m, o) && RecordPlaced(m, n, f, a, k)
    ensures RecordPlaced(o, n, f, a, k)
  {
    assert m[f].body == o[f].body;
    forall x | x in n && n[x].body.Frag? && x != f ensures x in o && o[x].body == n[x].body {
      assert x in m && m[x].body == n[x].body;
    }
    forall x | x in o && o[x].body.Frag? && x != f ensures x in n && n[x].body == o[x].body {
      assert m[x].body == o[x].body;
    }
  }

  lemma NothingChanged(o: map<int, Node>)
    ensures SameFrags(o, o)
  {
  }

  lemma WaitingSame(st: State, nodes: map<int, Node>, f: int)
    requires Waiting(st, f) && SameFrags(st.nodes, nodes)
    ensures f in nodes && nodes[f].body == st.nodes[f].body
  {
    assert st.nodes[f].body.Frag?;
  }

  lemma FilledLive(p: Params, m: State, n: State, f: int, e: int, a: int, size: int, k: int, gap: int)
    requires a in m.slots && m.slots[a].unit in m.tops && AllLive(m.slots - {a})
    requires Filled(p, m, n, f, e, a, size, k, gap)
    ensures AllLive(n.slots)
  {
    forall x | x in n.slots ensures n.slots[x].kind.Live? {
      assert x in m.slots - {a} ==> (m.slots - {a})[x].kind.Live?;
    }
  }

  /** Node `n` can make room for `size` bytes: there are as many from its slot to the end of the
      unit, and no slot that starts within them is undeletable. */
  ghost predicate Replaceable(st: State, n: int, size: int) {
    && n in st.nodes
    && var a := HdrStart(st.nodes[n].body);
    && a in st.slots && st.slots[a].unit in st.units
    && a + size <= st.units[st.slots[a].unit].endPc
    && forall x {:trigger Deletable(st, x)} ::
         x in st.slots && st.slots[x].unit == st.slots[a].unit && a <= x < a + size ==> Deletable(st, x)
  }

  /** The victims are the slots that start within `size` bytes. */
  lemma EvictableRange(p: Params, st: State, a: int, size: int)
    requires Inv(p, st, {}) && a in st.slots && st.slots[a].unit in st.tops && 0 < size
    ensures Evictable(st, a, Reach(st.slots, st.tops, a, size)) <==>
            forall x {:trigger Deletable(st, x)} ::
              x in st.slots && st.slots[x].unit == st.slots[a].unit && a <= x < a + size ==> Deletable(st, x)
  {
    var u, hi := st.slots[a].unit, Reach(st.slots, st.tops, a, size);
    ReachLeast(st.slots, st.tops, a, size);
    forall x | x in st.slots ensures a <= x < hi <==> st.slots[x].unit == u && a <= x < a + size && x < st.tops[u] {
      assert Inside(st.slots, st.tops, x) && Inside(st.slots, st.tops, a);
      if a <= x < hi {
        var b := SlotOfByte(st.slots, st.tops, u, x);
      }
    }
    forall x | x in st.slots && st.slots[x].unit == u ensures x < st.tops[u] {
      assert Inside(st.slots, st.tops, x);
    }
  }

  lemma EvictedFacts(p: Params, o: State, m: State, a: int, hi: int, f: int)
    requires Inv(p, o, {}) && AllLive(o.slots) && a in o.slots && a < hi && EvictedTo(o, m, a, hi) && Waiting(o, f)
    ensures a in m.slots && m.slots[a] == Slot(hi - a, o.slots[a].unit, Limbo)
    ensures AllLive(m.slots - {a}) && Waiting(m, f) && m.nodes[f].body == o.nodes[f].body
    ensures m.nodes.Keys <= o.nodes.Keys
  {
    KeepIn(o.order, NodesIn(o.slots, a, hi));
    assert f !in NodesIn(o.slots, a, hi);
    assert f in o.nodes - NodesIn(o.slots, a, hi);
    forall x | x in m.slots - {a} ensures (m.slots - {a})[x].kind.Live? {
      assert m.slots[x] == o.slots[x];
    }
  }

  /** `o` became `n` by evicting from FIFO entry `first` on and placing `f` there. */
  ghost predicate ReplacedAt(p: Params, o: State, m: State, n: State, f: int, e: int, first: int, size: int, k: int,
                             gap: int)
    requires Tiled(o.slots, o.tops)
  {
    && Replaceable(o, first, size)
    && var a := HdrStart(o.nodes[first].body);
    && o.slots[a].unit in o.tops && EvictedTo(o, m, a, Reach(o.slots, o.tops, a, size))
    && a in m.slots && m.slots[a].unit == o.slots[a].unit && m.slots[a].unit in m.tops
    && Filled(p, m, n, f, e, a, size, k, gap)
  }

  /** No FIFO entry from `lo` to `hi` can make room. */
  ghost predicate NoneReplaceable(st: State, lo: int, hi: int, size: int) {
    forall i {:trigger st.order[i]} :: 0 <= lo <= i < hi <= |st.order| ==> !Replaceable(st, st.order[i], size)
  }

  /** The fragment is in the cache, at the end of the FIFO, in a slot large enough; `body` is what its
      record was before. */
  ghost predicate Placed(p: Params, st: State, f: int, body: Body, size: int) {
    && st.order != [] && st.order[|st.order| - 1] == f
    && f in st.nodes && body.Frag? && st.nodes[f].body.Frag? && HEADER_SIZE <= st.nodes[f].body.extra <= 255
    && st.nodes[f].body == body.(startPc := st.nodes[f].body.startPc, extra := st.nodes[f].body.extra)
    && var a := HdrStart(st.nodes[f].body);
      a in st.slots && st.slots[a].kind == Live(f)
      && size <= st.slots[a].size == SlotSize(st.nodes[f].body) < size + p.MinUnitEndHole()
  }

  lemma ReplacedPlaced(p: Params, o: State, m: State, n: State, f: int, e: int, first: int, size: int, k: int, gap: int)
    requires Tiled(o.slots, o.tops) && ReplacedAt(p, o, m, n, f, e, first, size, k, gap)
    requires 0 < size && f in o.nodes && f in m.nodes && m.nodes[f].body == o.nodes[f].body
    ensures Placed(p, n, f, o.nodes[f].body, size) && Replaceable(o, first, size)
    ensures n.nodes.Keys <= o.nodes.Keys + {e} && SameReserved(o.units, n.units)
  {
    var a := HdrStart(o.nodes[first].body);
    assert a in n.slots && n.slots[a].kind == Live(f);
  }

  /** The fragment in the slot at `a` of `n` was there in `o`; at most it has become deletable. */
  ghost predicate Stayed(o: State, n: State, a: int) {
    a in n.slots && HoldsFrag(n, a) ==>
      && a in o.slots && o.slots[a] == n.slots[a] && HoldsFrag(o, a)
      && var b := n.nodes[n.slots[a].kind.node].body;
           b == o.nodes[n.slots[a].kind.node].body.(cannotDelete := b.cannotDelete)
  }

  /** Every fragment of `n` was there in `o`. */
  ghost predicate AllStayed(o: State, n: State) {
    forall a {:trigger Stayed(o, n, a)} :: Stayed(o, n, a)
  }

  /** Every fragment of `n` but `f` was there in `o`: none other is new and none moved. */
  ghost predicate OthersStayed(o: State, n: State, f: int) {
    forall a {:trigger Stayed(o, n, a)} :: (a in n.slots && n.slots[a].kind == Live(f)) || Stayed(o, n, a)
  }

  lemma StayedChain(o: State, m: State, n: State, f: int)
    ensures AllStayed(o, m) && AllStayed(m, n) ==> AllStayed(o, n)
    ensures AllStayed(o, m) && OthersStayed(m, n, f) ==> OthersStayed(o, n, f)
  {
    forall a ensures Stayed(o, m, a) && Stayed(m, n, a) ==> Stayed(o, n, a) {
    }
    if AllStayed(o, m) && OthersStayed(m, n, f) {
      forall a ensures (a in n.slots && n.slots[a].kind == Live(f)) || Stayed(o, n, a) {
        assert Stayed(o, m, a) && (Stayed(m, n, a) || (a in n.slots && n.slots[a].kind == Live(f)));
      }
    }
    if AllStayed(o, m) && AllStayed(m, n) {
      forall a ensures Stayed(o, n, a) {
        assert Stayed(o, m, a) && Stayed(m, n, a);
      }
    }
  }

  /** Replacing fragments moves none of those that remain. */
  lemma ReplacedStayed(p: Params, o: State, m: State, n: State, f: int, e: int, first: int, size: int, k: int, gap: int)
    requires Tiled(o.slots, o.tops) && AllLive(o.slots) && ReplacedAt(p, o, m, n, f, e, first, size, k, gap)
    requires e !in o.nodes
    ensures OthersStayed(o, n, f)
  {
    var a, hi := HdrStart(o.nodes[first].body), Reach(o.slots, o.tops, HdrStart(o.nodes[first].body), size);
    var gone := NodesIn(o.slots, a, hi);
    forall x ensures (x in n.slots && n.slots[x].kind == Live(f)) || Stayed(o, n, x) {
      if x in n.slots && HoldsFrag(n, x) && n.slots[x].kind != Live(f) {
        var y := n.slots[x].kind.node;
        assert y in m.nodes && m.nodes[y].body == n.nodes[y].body;
        assert y in o.nodes - gone && (o.nodes - gone)[y].body == m.nodes[y].body;
        assert x in m.slots && n.slots[x] == m.slots[x];
        assert x in o.slots && o.slots[x] == m.slots[x];
      }
    }
  }

  // ----- more space

  /** From `o` to `n` the cache grew: at most one empty slot, for node `e`, was put in front. */
  ghost predicate GrownFrom(o: State, n: State, e: int) {
    && (n.order == o.order || n.order == [e] + o.order)
    && AllStayed(o, n) && AllStayed(n, o) && SameReserved(o.units, n.units)
    && SameFrags(o.nodes, n.nodes) && n.nodes.Keys <= o.nodes.Keys + {e}
    && (forall f {:trigger Waiting(o, f)} :: Waiting(o, f) && f != e ==> Waiting(n, f))
    && (forall x, size {:trigger Replaceable(o, x, size)} :: x in o.order && Replaceable(o, x, size) ==>
         Replaceable(n, x, size))
    && EmptiesGrown(o, n, e)
  }

  /** What was empty still is, and the new entry is empty. */
  ghost predicate EmptiesGrown(o: State, n: State, e: int) {
    && (forall x {:trigger IsEmpty(n.nodes, x)} {:trigger IsEmpty(o.nodes, x)} ::
          x in o.order ==> (IsEmpty(n.nodes, x) <==> IsEmpty(o.nodes, x)))
    && (n.order != o.order ==> IsEmpty(n.nodes, e))
  }

  lemma EmptiesChain(o: State, m: State, n: State, e: int)
    requires EmptiesGrown(o, m, e) && EmptiesGrown(m, n, e)
    requires (m.order == o.order || m.order == [e] + o.order) && (m.order == o.order || n.order == m.order)
    ensures EmptiesGrown(o, n, e)
  {
    forall x | x in o.order ensures IsEmpty(n.nodes, x) <==> IsEmpty(o.nodes, x) {
      assert x in m.order;
    }
    assert m.order != o.order ==> m.order[0] == e && IsEmpty(m.nodes, e);
  }

  lemma GrownChain(o: State, m: State, n: State, e: int)
    requires GrownFrom(o, m, e) && GrownFrom(m, n, e) && (m.order == o.order || n.order == m.order)
    ensures GrownFrom(o, n, e)
  {
    StayedChain(o, m, n, e);
    StayedChain(n, m, o, e);
    EmptiesChain(o, m, n, e);
  }

  lemma NothingGrown(o: State, e: int)
    ensures GrownFrom(o, o, e)
  {
  }

  lemma UnitPages(p: Params, st: State, u: int)
    requires Inv(p, st, {}) && u in st.units
    ensures p.Valid() && st.units[u].curPc <= st.units[u].endPc <= st.units[u].reservedEndPc
    ensures st.units[u].endPc % PAGE_SIZE == 0 && st.units[u].reservedEndPc % PAGE_SIZE == 0
  {
    assert UnitOk(p, st, u);
  }

  /** What remains at the end of a unit is none or enough for a slot. */
  lemma NothingLeft(p: Params, st: State, u: int)
    requires Inv(p, st, {}) && u in st.units && st.units[u].endPc - st.units[u].curPc < p.MinUnitEndHole()
    ensures st.units[u].full && st.units[u].curPc == st.units[u].endPc
    ensures st.units == st.units[u := st.units[u].(curPc := st.units[u].endPc, full := true)]
  {
    assert UnitOk(p, st, u);
  }

  /** Committing more of a unit. */
  lemma CommitGrown(o: State, n: State, u: int, e: int)
    requires u in o.units && u in n.units && n == o.(units := o.units[u := n.units[u]])
    requires o.units[u].endPc <= n.units[u].endPc && o.units[u].reservedEndPc == n.units[u].reservedEndPc
    ensures GrownFrom(o, n, e)
  {
    forall x, size | x in o.order && Replaceable(o, x, size) ensures Replaceable(n, x, size) {
      forall y | y in n.slots ensures Deletable(n, y) == Deletable(o, y) {
      }
    }
  }

  /** Adding a unit. */
  lemma GrantGrown(o: State, n: State, g: int, v: Unit, e: int)
    requires g !in o.units && n == o.(units := o.units[g := v], tops := n.tops)
    ensures GrownFrom(o, n, e)
  {
    forall x, size | x in o.order && Replaceable(o, x, size) ensures Replaceable(n, x, size) {
      forall y | y in n.slots ensures Deletable(n, y) == Deletable(o, y) {
      }
    }
  }

  /** The rest of unit `u` in limbo, about to become an empty slot. */
  lemma RestStep(p: Params, st: State, u: int)
    requires Inv(p, st, {}) && AllLive(st.slots) && u in st.units && !st.units[u].full
    ensures p.Valid() && u in st.tops
    ensures var v := st.units[u]; var left := v.endPc - v.curPc;
      && st.tops[u] == v.curPc && v.curPc !in st.slots && p.MinUnitEndHole() <= left
      && Inv(p, Extended(st, u, left), {}) && AllLive(Extended(st, u, left).slots - {v.curPc})
  {
    var v := st.units[u];
    var left := v.endPc - v.curPc;
    assert UnitOk(p, st, u);
    TopAligned(p, st, u);
    AlignedChain(v.endPc, PAGE_SIZE, p.align);
    AlignedSum(v.endPc, v.curPc, p.align);
    ExtendStep(p, st, {}, u, left);
    forall x | x in Extended(st, u, left).slots - {v.curPc}
      ensures (Extended(st, u, left).slots - {v.curPc})[x].kind.Live?
    {
      assert st.slots[x].kind.Live?;
    }
  }

  /** The cache with the rest of unit `u` made empty. */
  lemma RestGrown(p: Params, o: State, u: int, e: int) returns (n: State)
    requires Inv(p, o, {}) && AllLive(o.slots) && u in o.units && !o.units[u].full && e != 0 && e !in o.nodes
    ensures u in o.tops
    ensures var v := o.units[u]; var m := Extended(o, u, v.endPc - v.curPc);
      && v.curPc in m.slots && m.slots[v.curPc] == Slot(v.endPc - v.curPc, u, Limbo)
      && MIN_FCACHE_SLOT_SIZE <= v.endPc - v.curPc
      && Inv(p, m, {}) && EmptiedTo(m, n, v.curPc, e) && InEmpty(n, v.curPc, v.endPc - v.curPc)
    ensures AllLive(n.slots) && GrownFrom(o, n, e)
  {
    hide Inv, AllLive, InEmpty;
    RestStep(p, o, u);
    var v := o.units[u];
    var m, pc := Extended(o, u, v.endPc - v.curPc), v.curPc;
    EmptiedStep(p, m, {}, pc, e);
    EmptiedOrder(p, m, {}, pc, e);
    EmptiedWhere(p, m, {}, pc, e);
    EmptiedLive(p, m, {}, pc, e);
    n := Emptied(m, pc, e);
    TailStep(p, m, u, pc, e);
    EmptiedOthers(p, m, {}, pc, e, e);
    RestEmpties(p, o, m, n, pc, e);
    hide Emptied, TailEmptied, OtherSlots, AllStayed, EmptiesGrown;
    forall f | Waiting(o, f) && f != e ensures Waiting(n, f) {
      EmptiedFacts(p, m, {}, pc, e, f);
    }
    RestStayed(p, o, m, n, pc, e);
    forall x, size | x in o.order && Replaceable(o, x, size) ensures Replaceable(n, x, size) {
      RestReplaceable(o, m, n, u, pc, e, x, size);
    }
  }

  /** From `m` to `n` the last slot of a unit, at `pc`, became empty space: no other slot and no node
      moved. */
  ghost predicate TailEmptied(m: State, n: State, pc: int, e: int) {
    && n.units == m.units
    && SameFrags(m.nodes, n.nodes) && n.nodes.Keys <= m.nodes.Keys + {e}
    && (e in n.nodes && e !in m.nodes ==> n.nodes[e].body.Empty?)
    && (forall x {:trigger n.nodes[x]} {:trigger m.nodes[x]} :: x in m.nodes ==>
          x in n.nodes && HdrStart(n.nodes[x].body) == HdrStart(m.nodes[x].body)
            && (n.nodes[x].body.Empty? <==> m.nodes[x].body.Empty?))
    && (forall y {:trigger n.slots[y]} {:trigger m.slots[y]} :: y in m.slots && y != pc ==>
          y in n.slots && n.slots[y].unit == m.slots[y].unit && n.slots[y].kind == m.slots[y].kind)
    && (forall y {:trigger n.slots[y]} :: y in n.slots && (y !in m.slots || y == pc) ==>
          n.slots[y].kind == Live(e) && IsEmpty(n.nodes, e))
  }

  lemma TailStep(p: Params, m: State, u: int, pc: int, e: int)
    requires Inv(p, m, {}) && u in m.tops && pc in m.slots && m.slots[pc].unit == u && End(m.slots, pc) == m.tops[u]
    requires m.slots[pc].kind.Limbo? && MIN_FCACHE_SLOT_SIZE <= m.slots[pc].size && e != 0 && e !in m.nodes
    ensures m.fifo != 0 ==> m.fifo in m.nodes
    ensures FrontAfter(m, End(m.slots, pc)) ==> End(m.slots, pc) in m.slots
    ensures FrontBefore(m, pc) ==> var q := HdrStart(m.nodes[m.fifo].body); q in m.slots && End(m.slots, q) == pc
    ensures TailEmptied(m, Emptied(m, pc, e), pc, e)
  {
    EmptiedStep(p, m, {}, pc, e);
    if m.fifo != 0 {
      FrontSlot(p, m, {});
    }
    NotAfter(p, m, u, pc);
  }

  lemma NotAfter(p: Params, m: State, u: int, pc: int)
    requires Inv(p, m, {}) && u in m.tops && pc in m.slots && m.slots[pc].unit == u && End(m.slots, pc) == m.tops[u]
    ensures !FrontAfter(m, End(m.slots, pc))
  {
    assert Inside(m.slots, m.tops, End(m.slots, pc));
    if FrontAfter(m, End(m.slots, pc)) {
      FrontSlot(p, m, {});
      TouchingUnits(p, m, {}, pc);
      assert false;
    }
  }

  lemma RestEmpties(p: Params, o: State, m: State, n: State, pc: int, e: int)
    requires m.nodes == o.nodes && m.order == o.order && Inv(p, m, {}) && Inv(p, n, {}) && e !in m.nodes
    requires TailEmptied(m, n, pc, e) && (n.order == m.order || n.order == [e] + m.order)
    ensures EmptiesGrown(o, n, e)
  {
    FifoFacts(p, m, {});
    FifoFacts(p, n, {});
    OnHeap(m.nodes, m.fifo, m.order);
    OnHeap(n.nodes, n.fifo, n.order);
    forall x | x in o.order ensures IsEmpty(n.nodes, x) <==> IsEmpty(o.nodes, x) {
      assert x in m.nodes && (n.nodes[x].body.Empty? <==> m.nodes[x].body.Empty?);
    }
    assert n.order != m.order ==> n.order[0] == e && e in n.order;
  }

  lemma RestStayed(p: Params, o: State, m: State, n: State, pc: int, e: int)
    requires pc in m.slots && pc !in o.slots && m.slots == o.slots[pc := m.slots[pc]] && m.nodes == o.nodes
    requires m.slots[pc].kind.Limbo? && e !in m.nodes && TailEmptied(m, n, pc, e) && OtherSlots(m, n, e)
    ensures AllStayed(o, n) && AllStayed(n, o)
  {
    forall a ensures Stayed(n, o, a) {
      if a in o.slots && HoldsFrag(o, a) {
        assert m.slots[a] == o.slots[a] && HoldsFrag(m, a);
      }
    }
    forall a ensures Stayed(o, n, a) {
      if a in n.slots && HoldsFrag(n, a) {
        assert a in m.slots && n.slots[a].kind == m.slots[a].kind && HoldsFrag(m, a);
      }
    }
  }

  lemma RestReplaceable(o: State, m: State, n: State, u: int, pc: int, e: int, x: int, size: int)
    requires pc in m.slots && pc !in o.slots && m.slots == o.slots[pc := m.slots[pc]] && m.nodes == o.nodes
    requires u in o.units && u in m.units && m.units == o.units[u := m.units[u]] && m.units[u].endPc == o.units[u].endPc
    requires TailEmptied(m, n, pc, e) && Replaceable(o, x, size)
    ensures Replaceable(n, x, size)
  {
    var a := HdrStart(o.nodes[x].body);
    assert m.nodes[x] == o.nodes[x] && m.slots[a] == o.slots[a];
    forall y | y in n.slots && n.slots[y].unit == n.slots[a].unit && a <= y < a + size ensures Deletable(n, y) {
      if y in o.slots {
        assert Deletable(o, y) && n.slots[y].kind == o.slots[y].kind;
        if n.slots[y].kind.Live? && n.slots[y].kind.node in n.nodes && n.slots[y].kind.node in o.nodes {
          assert o.nodes[n.slots[y].kind.node].body.Frag? ==>
              n.nodes[n.slots[y].kind.node].body == o.nodes[n.slots[y].kind.node].body;
        }
      }
    }
  }

  lemma BookFacts(us: map<int, Unit>, live: seq<int>)
    requires Book(us, live)
    ensures |live| > 0 && live[0] in us
  {
  }

  /** A fragment that waited still does after the cache grew. */
  lemma GrownRequest(p: Params, o: State, n: State, f: int, size: int, e: int)
    requires Request(p, o, f, size) && GrownFrom(o, n, e) && f != e
    ensures Request(p, n, f, size) && n.nodes[f].body == o.nodes[f].body
    ensures n.nodes.Keys <= o.nodes.Keys + {e} && AllStayed(o, n) && AllStayed(n, o) && SameReserved(o.units, n.units)
  {
  }

  lemma NothingMoved(o: State, f: int)
    ensures AllStayed(o, o) && OthersStayed(o, o, f)
  {
    forall a ensures Stayed(o, o, a) {
    }
  }

  lemma AppendedStayed(o: State, n: State, f: int, u: int)
    requires u in o.units && f in o.nodes && o.units[u].curPc in n.slots && n.slots[o.units[u].curPc].kind == Live(f)
    requires n.slots == o.slots[o.units[u].curPc := n.slots[o.units[u].curPc]]
    requires RecordPlaced(o.nodes, n.nodes, f, o.units[u].curPc, n.slots[o.units[u].curPc].size)
    ensures OthersStayed(o, n, f)
  {
    forall x ensures (x in n.slots && n.slots[x].kind == Live(f)) || Stayed(o, n, x) {
      if x in n.slots && HoldsFrag(n, x) && n.slots[x].kind != Live(f) {
        assert n.nodes[n.slots[x].kind.node].body.Frag? && o.slots[x] == n.slots[x];
      }
    }
  }

  lemma DeletableStayed(o: State, trace: set<int>)
    ensures var n := o.(nodes := MadeDeletable(o.nodes, trace)); AllStayed(o, n) && AllStayed(n, o)
  {
    var n := o.(nodes := MadeDeletable(o.nodes, trace));
    forall a ensures Stayed(o, n, a) && Stayed(n, o, a) {
    }
  }

  lemma SomeReplaceable(st: State, i: int, size: int)
    requires 0 <= i < |st.order| && Replaceable(st, st.order[i], size)
    ensures !NoneReplaceable(st, 0, |st.order|, size)
  {
  }

  /** No entry makes room for more than the only unit holds. */
  lemma TooLarge(p: Params, st: State, u: int, size: int)
    requires Inv(p, st, {}) && st.units.Keys == {u} && st.units[u].reservedEndPc - u < size
    ensures NoneReplaceable(st, 0, |st.order|, size) && st.units[u].reservedEndPc - st.units[u].curPc < size
  {
    assert UnitOk(p, st, u);
    forall i | 0 <= i < |st.order| ensures !Replaceable(st, st.order[i], size) {
      if st.order[i] in st.nodes {
        assert Inside(st.slots, st.tops, HdrStart(st.nodes[st.order[i]].body));
      }
    }
  }

  lemma SomeEmpty(p: Params, st: State, a: int, k: int) returns (n: int)
    requires Inv(p, st, {}) && InEmpty(st, a, k)
    ensures IsEmpty(st.nodes, n) && n in st.order
  {
    var q :| q in st.slots && q <= a && a + k <= End(st.slots, q)
           && st.slots[q].kind.Live? && IsEmpty(st.nodes, st.slots[q].kind.node);
    n := st.slots[q].kind.node;
    assert Queued(st, q);
  }

  lemma NoneJoined(st: State, at: int, size: int)
    requires 0 <= at <= |st.order| && NoneReplaceable(st, 0, at, size)
    ensures NoneReplaceable(st, at, |st.order|, size) ==> NoneReplaceable(st, 0, |st.order|, size)
  {
  }

  /** The place in the FIFO a walk had come to, after the cache grew. */
  lemma GrownFrontier(o: State, n: State, e: int, at: int, size: int) returns (at': int)
    requires GrownFrom(o, n, e) && NoneReplaceable(o, 0, at, size) && Frontier(o, at)
    ensures Frontier(n, at') && At(n.order, at') == At(o.order, at)
    ensures NoneReplaceable(n, at', |n.order|, size) ==> NoneReplaceable(o, 0, |o.order|, size)
  {
    var k := |n.order| - |o.order|;
    at' := at + k;
    forall i | 0 <= i < at' ensures IsEmpty(n.nodes, n.order[i]) {
      assert i >= k ==> n.order[i] == o.order[i - k] && IsEmpty(o.nodes, o.order[i - k]);
    }
    assert at < |o.order| ==> n.order[at'] == o.order[at] && !IsEmpty(o.nodes, o.order[at]);
    if NoneReplaceable(n, at', |n.order|, size) {
      forall i | 0 <= i < |o.order| ensures !Replaceable(o, o.order[i], size) {
        if at <= i {
          assert n.order[i + k] == o.order[i] && o.order[i] in o.order;
        }
      }
    }
  }

  // ----- which place a fragment gets

  /** The entries before `at` are the empty ones. */
  ghost predicate Frontier(st: State, at: int) {
    && 0 <= at <= |st.order| && (at < |st.order| ==> !IsEmpty(st.nodes, st.order[at]))
    && (forall i {:trigger st.order[i]} :: 0 <= i < at ==> IsEmpty(st.nodes, st.order[i]))
  }

  /** No empty entry (`empty`), or none of the others, can make room. */
  ghost predicate NoneOf(st: State, size: int, empty: bool) {
    forall j {:trigger st.order[j]} :: 0 <= j < |st.order| && IsEmpty(st.nodes, st.order[j]) == empty ==>
      !Replaceable(st, st.order[j], size)
  }

  /** Entry `i` is the first of them that can. */
  ghost predicate FirstOf(st: State, i: int, size: int, empty: bool) {
    && 0 <= i < |st.order| && IsEmpty(st.nodes, st.order[i]) == empty && Replaceable(st, st.order[i], size)
    && forall j {:trigger st.order[j]} :: 0 <= j < i && IsEmpty(st.nodes, st.order[j]) == empty ==>
         !Replaceable(st, st.order[j], size)
  }

  /** From `o` to `n` the slots that start within `size` bytes of node `first` gave way to `f`. */
  ghost predicate Replaced(p: Params, o: State, n: State, f: int, e: int, first: int, size: int) {
    Tiled(o.slots, o.tops) && exists m, k, gap :: ReplacedAt(p, o, m, n, f, e, first, size, k, gap)
  }

  /** How add_fragment_common finds a place: in an empty entry, at the end of the current unit, of the oldest
      fragments, or of any entry once the trace in progress was aborted. */
  datatype Way = AnEmpty | AtEnd | OfOldest | AfterAbort

  /** The way it was found, the cache at that time, its current unit, and the entry of the FIFO. */
  datatype Choice = Choice(way: Way, st: State, cur: int, at: int)

  /** The end of the current unit has room. */
  ghost predicate Room(st: State, cur: int, size: int) {
    cur in st.units && st.units[cur].curPc + size <= st.units[cur].endPc
  }

  /** In `n` fragment `f` has the place that was chosen. */
  ghost predicate Chose(p: Params, c: Choice, n: State, f: int, e: int, size: int) {
    match c.way
    case AnEmpty => FirstOf(c.st, c.at, size, true) && Replaced(p, c.st, n, f, e, c.st.order[c.at], size)
    case AtEnd =>
      && NoneOf(c.st, size, true) && Room(c.st, c.cur, size) && n.order == c.st.order + [f]
      && var v := c.st.units[c.cur];
        n.slots == c.st.slots[v.curPc := Slot(size + Leftover(p, v, size), c.cur, Live(f))]
    case OfOldest =>
      && !Room(c.st, c.cur, size)
      && FirstOf(c.st, c.at, size, false) && Replaced(p, c.st, n, f, e, c.st.order[c.at], size)
    case AfterAbort =>
      && 0 <= c.at < |c.st.order| && NoneReplaceable(c.st, 0, c.at, size)
      && Replaced(p, c.st, n, f, e, c.st.order[c.at], size)
  }

  /** Only that more of the current unit was committed, as a request of `size` bytes makes it. */
  ghost predicate Recommitted(p: Params, o: State, m: State, cur: int, size: int) {
    && cur in o.units && cur in m.units
    && m == o.(units := o.units[cur := o.units[cur].(endPc := m.units[cur].endPc, full := false)])
    && var v := o.units[cur];
      Commits(p.commitIncrement, v.curPc + size, v.endPc, v.reservedEndPc, m.units[cur].endPc - v.endPc)
  }

  /** The way taken from `o`: the first empty entry that can make room, else the end of the current unit, else
      the first other entry unless growth is `warranted`, else the cache grows, and if its current unit can
      then hold the fragment, an empty entry or that unit takes it. */
  ghost predicate Picked(p: Params, o: State, cur: int, warranted: bool, mayAdd: bool, c: Choice, size: int) {
    if !NoneOf(o, size, true) then c.way == AnEmpty && c.st == o && c.cur == cur
    else if Room(o, cur, size) then c.way == AtEnd && c.st == o && c.cur == cur
    else if !warranted && !NoneOf(o, size, false) then c.way == OfOldest && c.st == o && c.cur == cur
    else if cur in o.units && o.units[cur].curPc + size <= o.units[cur].reservedEndPc then
      (c.way == AnEmpty || c.way == AtEnd) && c.cur == cur && Recommitted(p, o, c.st, cur, size)
    else if mayAdd then c.way != AfterAbort
    else c.way == OfOldest || c.way == AfterAbort
  }

  /** The cache does not grow. */
  ghost predicate Fixed(o: State, cur: int, warranted: bool, size: int) {
    !NoneOf(o, size, true) || Room(o, cur, size) || (!warranted && !NoneOf(o, size, false))
  }

  lemma FrontierRest(p: Params, st: State, at: int, i: int)
    requires Inv(p, st, {}) && Frontier(st, at) && at <= i < |st.order|
    ensures !IsEmpty(st.nodes, st.order[i])
  {
    assert !IsEmpty(st.nodes, st.order[at]);
  }

  /** A walk over the empties that found none. */
  lemma NoEmpties(p: Params, st: State, at: int, size: int)
    requires Inv(p, st, {}) && Frontier(st, at) && NoneReplaceable(st, 0, at, size)
    ensures NoneOf(st, size, true)
  {
    forall j | 0 <= j < |st.order| && IsEmpty(st.nodes, st.order[j]) ensures !Replaceable(st, st.order[j], size) {
      if at <= j {
        FrontierRest(p, st, at, j);
      }
    }
  }

  /** A walk over the others, from the first of them on. */
  lemma NoOthers(p: Params, st: State, from: int, at: int, size: int)
    requires Inv(p, st, {}) && Frontier(st, from) && from <= at <= |st.order| && NoneReplaceable(st, from, at, size)
    ensures at == |st.order| ==> NoneOf(st, size, false)
    ensures at < |st.order| && Replaceable(st, st.order[at], size) ==> FirstOf(st, at, size, false)
  {
    assert forall j {:trigger st.order[j]} :: 0 <= j < from ==> IsEmpty(st.nodes, st.order[j]);
    if at < |st.order| {
      FrontierRest(p, st, from, at);
    }
  }

  /** A walk over the empties that found one. */
  lemma ChoseEmpty(p: Params, o: State, n: State, f: int, e: int, at: int, cur: int, size: int)
    requires 0 <= at < |o.order| && IsEmpty(o.nodes, o.order[at]) && NoneReplaceable(o, 0, at, size)
    requires Replaceable(o, o.order[at], size) && Replaced(p, o, n, f, e, o.order[at], size)
    ensures Chose(p, Choice(AnEmpty, o, cur, at), n, f, e, size) && !NoneOf(o, size, true)
  {
    hide Replaceable, Replaced;
  }

  lemma ChoseOldest(p: Params, o: State, n: State, f: int, e: int, from: int, at: int, cur: int, size: int)
    requires Inv(p, o, {}) && Frontier(o, from) && from <= at < |o.order| && NoneReplaceable(o, from, at, size)
    requires Replaceable(o, o.order[at], size) && Replaced(p, o, n, f, e, o.order[at], size) && !Room(o, cur, size)
    ensures Chose(p, Choice(OfOldest, o, cur, at), n, f, e, size) && !NoneOf(o, size, false)
  {
    NoOthers(p, o, from, at, size);
    hide Replaceable, Replaced;
  }

  /** The place found after the cache grew from `o` to `m` is one the growth was for. */
  lemma PickedGrown(p: Params, o: State, m: State, cur: int, cur': int, w: bool, w': bool, add: bool, add': bool,
                    c: Choice, e: int, size: int)
    requires NoneOf(o, size, true) && !Room(o, cur, size) && (w || NoneOf(o, size, false)) && cur in o.units
    requires GrownFrom(o, m, e) && Picked(p, m, cur', w', add', c, size)
    requires cur' in m.units && m.units[cur'].curPc + size <= m.units[cur'].reservedEndPc
    requires if o.units[cur].curPc + size <= o.units[cur].reservedEndPc
             then cur' == cur && Room(m, cur', size) && Recommitted(p, o, m, cur, size) else add
    requires c.way != AfterAbort ==> GrownFrom(m, c.st, e)
    ensures Picked(p, o, cur, w, add, c, size) && c.way != AfterAbort && GrownFrom(o, c.st, e)
  {
    hide GrownFrom, NoneOf;
    RegrownOldest(p, o, m, cur, cur', w', add, add', c, e, size);
  }

  /** The same when no other entry can make room, without looking at the empty ones. */
  lemma RegrownOldest(p: Params, o: State, m: State, cur: int, cur': int, w: bool, add: bool, add': bool,
                      c: Choice, e: int, size: int)
    requires !Room(o, cur, size) && cur in o.units
    requires GrownFrom(o, m, e) && Picked(p, m, cur', w, add', c, size)
    requires cur' in m.units && m.units[cur'].curPc + size <= m.units[cur'].reservedEndPc
    requires if o.units[cur].curPc + size <= o.units[cur].reservedEndPc
             then cur' == cur && Room(m, cur', size) && Recommitted(p, o, m, cur, size) else add
    requires c.way != AfterAbort ==> GrownFrom(m, c.st, e)
    ensures c.way != AfterAbort && GrownFrom(o, c.st, e)
    ensures o.units[cur].curPc + size <= o.units[cur].reservedEndPc ==>
              (c.way == AnEmpty || c.way == AtEnd) && c.cur == cur && Recommitted(p, o, c.st, cur, size)
  {
    hide GrownFrom, NoneOf;
    assert c.st.order == m.order;
    GrownChain(o, m, c.st, e);
  }

  lemma WasReplaced(p: Params, o: State, m: State, n: State, f: int, e: int, first: int, size: int, k: int, gap: int)
    requires Tiled(o.slots, o.tops) && ReplacedAt(p, o, m, n, f, e, first, size, k, gap)
    ensures Replaced(p, o, n, f, e, first, size)
  {
  }

  /** A fragment added at the end of its unit. */
  lemma AppendedPlaced(p: Params, o: State, n: State, f: int, u: int, size: int)
    requires u in o.units && f in o.nodes && 0 < size
    requires var pc := o.units[u].curPc;
      && pc in n.slots && n.slots[pc].kind == Live(f) && size <= n.slots[pc].size < size + p.MinUnitEndHole()
      && RecordPlaced(o.nodes, n.nodes, f, pc, n.slots[pc].size)
    requires n.order == o.order + [f]
    ensures Placed(p, n, f, o.nodes[f].body, size)
  {
  }

  // ----- fragments outside the cache and flags

  function MadeDeletable(nodes: map<int, Node>, trace: set<int>): map<int, Node> {
    map n | n in nodes ::
      if n in trace && nodes[n].body.Frag? then nodes[n].(body := nodes[n].body.(cannotDelete := false)) else nodes[n]
  }

  /** Aborting the trace in progress makes its fragments deletable and changes nothing else. */
  lemma MadeDeletableIs(st: State, trace: set<int>, a: int)
    ensures var st' := st.(nodes := MadeDeletable(st.nodes, trace));
      && st'.nodes.Keys == st.nodes.Keys
      && (a in st.slots && st.slots[a].kind.Live? && st.slots[a].kind.node in trace ==> Deletable(st', a))
      && forall x {:trigger st'.nodes[x]} :: x in st.nodes ==>
           && st'.nodes[x].(body := st.nodes[x].body) == st.nodes[x]
           && (x !in trace || st.nodes[x].body.Empty? ==> st'.nodes[x].body == st.nodes[x].body)
           && (st.nodes[x].body.Frag? ==>
                && st'.nodes[x].body.Frag?
                && st'.nodes[x].body.(cannotDelete := st.nodes[x].body.cannotDelete) == st.nodes[x].body)
  {
  }

  lemma DeletableStep(p: Params, st: State, trace: set<int>)
    requires Inv(p, st, {})
    ensures Inv(p, st.(nodes := MadeDeletable(st.nodes, trace)), {})
  {
    var st' := st.(nodes := MadeDeletable(st.nodes, trace));
    SameUnits(p, st, st', {});
    forall i ensures Linked(st'.nodes, st.order, i) {
      assert Linked(st.nodes, st.order, i);
    }
    forall x ensures SlotOk(p, st', x) && Queued(st', x) && Housed(st', {}, x) {
      assert SlotOk(p, st, x) && Queued(st, x) && Housed(st, {}, x);
    }
    forall i, j | 0 <= i < j < |st.order| && IsEmpty(st'.nodes, st.order[j]) ensures IsEmpty(st'.nodes, st.order[i]) {
      assert IsEmpty(st.nodes, st.order[j]) && IsEmpty(st.nodes, st.order[i]);
    }
  }

  lemma DeletableRequest(p: Params, st: State, f: int, size: int, trace: set<int>)
    requires Request(p, st, f, size) && f !in trace
    ensures Request(p, st.(nodes := MadeDeletable(st.nodes, trace)), f, size)
    ensures MadeDeletable(st.nodes, trace)[f] == st.nodes[f]
  {
  }

  lemma AllocStep(p: Params, st: State, f: int, node: Node)
    requires Inv(p, st, {}) && f != 0 && f !in st.nodes && node.body.Frag? && 0 <= node.body.size
    ensures Inv(p, st.(nodes := st.nodes[f := node]), {}) && Waiting(st.(nodes := st.nodes[f := node]), f)
  {
    OnHeap(st.nodes, st.fifo, st.order);
    forall x | x in st.slots ensures st.slots[x].kind != Live(f) {
      assert SlotOk(p, st, x);
    }
    HeapStep(p, st, f, st.nodes[f := node]);
  }

  lemma FullMeans(p: Params, st: State, u: int)
    requires Inv(p, st, {}) && u in st.units
    ensures st.units[u].full <==> st.units[u].curPc == st.units[u].endPc
  {
    assert UnitOk(p, st, u);
  }

  lemma TopAligned(p: Params, st: State, u: int)
    requires Inv(p, st, {}) && u in st.units
    ensures p.Valid() && st.units[u].curPc % p.align == 0
  {
    assert UnitOk(p, st, u);
    AlignedChain(u, PAGE_SIZE, p.align);
    if u < st.tops[u] {
      var a := SlotOfByte(st.slots, st.tops, u, st.tops[u] - 1);
      assert SlotOk(p, st, a) && Inside(st.slots, st.tops, a);
      AlignedSum(a, st.slots[a].size, p.align);
    }
  }

  // ----- looking up an address

  /** The body of `f`, in the slot at `a`, contains `pc`. */
  ghost predicate BodyHas(st: State, a: int, f: int, pc: int) {
    && a in st.slots && st.slots[a].kind == Live(f) && f in st.nodes && st.nodes[f].body.Frag?
    && st.nodes[f].body.startPc <= pc < st.nodes[f].body.startPc + st.nodes[f].body.size
  }

  /** A fragment's body lies in its slot behind the header, so in its unit. */
  lemma BodyInUnit(p: Params, st: State, a: int, f: int, pc: int)
    requires Inv(p, st, {}) && BodyHas(st, a, f, pc)
    ensures a < pc < End(st.slots, a)
    ensures var u := st.slots[a].unit;
        u in st.units && u in st.tops && u <= a < st.tops[u] && pc < st.units[u].reservedEndPc
  {
    assert SlotOk(p, st, a) && Inside(st.slots, st.tops, a) && UnitOk(p, st, st.slots[a].unit);
  }

  lemma BodyUnit(p: Params, st: State, a: int, f: int, pc: int, u: int)
    requires Inv(p, st, {}) && BodyHas(st, a, f, pc) && u in st.units && u <= pc < st.units[u].reservedEndPc
    ensures u in st.tops && u <= a < pc && a < st.tops[u] && st.slots[a].unit == u
  {
    BodyInUnit(p, st, a, f, pc);
    var v := st.slots[a].unit;
    assert UnitOk(p, st, v) && UnitsApart(st, u, v) && UnitsApart(st, v, u);
  }

  lemma UnitStart(p: Params, st: State, u: int)
    requires Inv(p, st, {}) && u in st.units
    ensures u in st.tops && u <= st.tops[u] == st.units[u].curPc
    ensures u == st.tops[u] || (u in st.slots && st.slots[u].unit == u)
  {
    assert UnitOk(p, st, u) && Anchored(st.slots, st.tops, u);
  }

  /** What a walk reads at a slot, and where it goes on. */
  lemma SlotAt(p: Params, st: State, u: int, at: int)
    requires Inv(p, st, {}) && AllLive(st.slots) && u in st.tops && at in st.slots && st.slots[at].unit == u
    ensures at in st.words && st.words[at] in st.nodes && st.slots[at].kind == Live(st.words[at]) && st.words[at] != 0
    ensures at + SlotSize(st.nodes[st.words[at]].body) == End(st.slots, at) && at < End(st.slots, at) <= st.tops[u]
    ensures End(st.slots, at) == st.tops[u] || HasNext(st.slots, at)
  {
    assert st.slots[at].kind.Live?;
    assert SlotOk(p, st, at) && Inside(st.slots, st.tops, at) && Chained(st.slots, st.tops, at);
  }

  /** A body at or after `at` but not in the slot there is in a later one. */
  lemma NextBody(p: Params, st: State, at: int, a: int, f: int, pc: int)
    requires Inv(p, st, {}) && at in st.slots && at <= a && BodyHas(st, a, f, pc) && !BodyHas(st, at, f, pc)
    ensures End(st.slots, at) <= a
  {
    assert Apart(st.slots, at, a);
  }
}
