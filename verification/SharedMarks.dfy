/**
  The after-free marks of a shared cache and the free entries at its append point: when they say
  exactly what the layout is, and what the edits of the layout do to that.
 */
module SharedMarks {
  import opened Layout
  import opened SharedState
  import opened SharedSteps
  import opened SharedSpec

  /** A fragment is marked exactly when the slot before it is free. */
  ghost predicate MarksExact(fr: map<int, Fragment>, s: Slots) {
    forall q, a {:trigger Precedes(s, q, a)} :: Precedes(s, q, a) && s[a].kind.Live? ==>
      (IsMarked(fr, s[a].kind) <==> s[q].kind.Free?)
  }

  ghost predicate FreeEdge(fr: map<int, Fragment>, s: Slots, q: int) {
    q in s && s[q].kind.Free? ==> NextMarked(fr, s, q)
  }

  ghost predicate NextMarked(fr: map<int, Fragment>, s: Slots, a: int)
    requires a in s
  {
    HasNext(s, a) && s[End(s, a)].kind.Live? ==> IsMarked(fr, s[End(s, a)].kind)
  }

  /** Every fragment after a free slot is marked. */
  ghost predicate AllMarked(fr: map<int, Fragment>, s: Slots) {
    forall q {:trigger FreeEdge(fr, s, q)} :: FreeEdge(fr, s, q)
  }

  /** That a marked fragment follows a free slot is part of the invariant. */
  lemma MarksAre(p: Params, st: State)
    requires Inv(p, st) && forall a {:trigger st.slots[a]} :: a in st.slots ==> !st.slots[a].kind.Limbo?
    ensures MarksExact(st.mem.frags, st.slots) <==> AllMarked(st.mem.frags, st.slots)
  {
    var fr, s := st.mem.frags, st.slots;
    if MarksExact(fr, s) {
      forall q ensures FreeEdge(fr, s, q) {
        assert q in s && HasNext(s, q) ==> Precedes(s, q, End(s, q));
      }
    }
    if AllMarked(fr, s) {
      forall q, a | Precedes(s, q, a) && s[a].kind.Live? ensures IsMarked(fr, s[a].kind) <==> s[q].kind.Free? {
        assert FreeEdge(fr, s, q) && EdgeOk(st.units, fr, s, q);
      }
    }
  }

  /** Every slot of `n` that is not in limbo was there before. */
  ghost predicate NoneNew(o: Slots, n: Slots) {
    forall a {:trigger n[a]} :: a in n && !n[a].kind.Limbo? ==>
      && a in o && o[a].kind == n[a].kind && o[a].unit == n[a].unit
      && (n[a].kind.Free? ==> n[a].size == o[a].size)
  }

  ghost predicate MarksKept(fr: map<int, Fragment>, fr': map<int, Fragment>) {
    forall f {:trigger fr[f]} {:trigger fr'[f]} :: f in fr && fr[f].followsFree ==> f in fr' && fr'[f].followsFree
  }

  lemma FewerMarks(fr: map<int, Fragment>, fr': map<int, Fragment>, o: Slots, n: Slots)
    requires NoneNew(o, n) && MarksKept(fr, fr')
    ensures AllMarked(fr, o) ==> AllMarked(fr', n)
  {
    if AllMarked(fr, o) {
      forall q ensures FreeEdge(fr', n, q) {
        assert FreeEdge(fr, o, q);
        if q in n && n[q].kind.Free? && HasNext(n, q) && n[End(n, q)].kind.Live? {
          assert o[q].size == n[q].size && o[End(n, q)].kind == n[End(n, q)].kind;
        }
      }
    }
  }

  /** The marks of the placed fragments are the same. */
  lemma MarksSame(fr: map<int, Fragment>, fr': map<int, Fragment>, s: Slots)
    requires forall a {:trigger s[a]} :: a in s ==> (IsMarked(fr, s[a].kind) <==> IsMarked(fr', s[a].kind))
    ensures MarksExact(fr, s) <==> MarksExact(fr', s)
  {
  }

  /** The slot of a live fragment shrinks and its tail belongs to no slot. */
  lemma LostMarks(fr: map<int, Fragment>, fr': map<int, Fragment>, o: Slots, t: Tops, a: int, n: int)
    requires Tiled(o, t) && a in o && o[a].kind.Live? && 0 < n < o[a].size
    requires forall x {:trigger o[x]} :: x in o ==> (IsMarked(fr, o[x].kind) <==> IsMarked(fr', o[x].kind))
    ensures MarksExact(fr, o) ==> MarksExact(fr', o[a := o[a].(size := n)])
  {
    var r := o[a := o[a].(size := n)];
    forall q, x | Precedes(r, q, x) && r[x].kind.Live? && MarksExact(fr, o)
      ensures IsMarked(fr', r[x].kind) <==> r[q].kind.Free?
    {
      assert Apart(o, a, a + n);
      assert Precedes(o, q, x);
    }
  }

  // ----- freeing

  /** The slot after the freed one is merged with it or marked. */
  lemma AbsorbedMarks(fr: map<int, Fragment>, fr': map<int, Fragment>, o: Slots, t: Tops, s: int)
    requires Tiled(o, t) && s in o && o[s].kind.Limbo? && MarksKept(fr, fr')
    requires HasNext(o, s) && o[End(o, s)].kind.Live? ==> IsMarked(fr', o[End(o, s)].kind)
    ensures var n := AbsorbedNext(o, s);
      AllMarked(fr, o) ==> AllMarked(fr', n) && s in n && NextMarked(fr', n, s)
  {
    var n := AbsorbedNext(o, s);
    assert Inside(o, t, s) && (HasNext(o, s) ==> Inside(o, t, End(o, s)));
    FewerMarks(fr, fr', o, n);
    if AllMarked(fr, o) && Absorbs(o, s) {
      assert FreeEdge(fr, o, End(o, s));
    }
  }

  /** Merging with the entry before. */
  lemma MergedMarks(fr: map<int, Fragment>, o: Slots, s: int, q: int)
    requires Precedes(o, q, s) && 0 < o[q].size && 0 < o[s].size && NextMarked(fr, o, s)
    ensures var n := AbsorbedPrev(o, q); q in n && NextMarked(fr, n, q) && (AllMarked(fr, o) ==> AllMarked(fr, n))
  {
    FewerMarks(fr, fr, o, AbsorbedPrev(o, q));
  }

  /** The merged slot becomes an entry or goes back to the append point. */
  lemma FreedMarks(fr: map<int, Fragment>, o: Slots, s: int)
    requires s in o && o[s].kind.Limbo? && NextMarked(fr, o, s)
    ensures AllMarked(fr, o) ==> AllMarked(fr, Retag(o, s, Free)) && AllMarked(fr, o - {s})
  {
    FewerMarks(fr, fr, o, o - {s});
    var n := Retag(o, s, Free);
    if AllMarked(fr, o) {
      forall q ensures FreeEdge(fr, n, q) {
        assert FreeEdge(fr, o, q);
      }
    }
  }

  // ----- placing a fragment

  /** The fragment after the slot at `s` loses its mark. */
  lemma UnmarkedMarks(p: Params, st: State, s: int, g: int, frag: Fragment)
    requires Inv(p, st) && s in st.slots && !st.slots[s].kind.Free? && HasNext(st.slots, s)
    requires st.slots[End(st.slots, s)].kind == Live(g)
    ensures AllMarked(st.mem.frags, st.slots) ==> AllMarked(st.mem.frags[g := frag], st.slots)
  {
    var fr', sl := st.mem.frags[g := frag], st.slots;
    assert SlotOk(p, st.mem, sl, End(sl, s));
    if AllMarked(st.mem.frags, sl) {
      forall q ensures FreeEdge(fr', sl, q) {
        assert FreeEdge(st.mem.frags, sl, q);
        if q in sl && HasNext(sl, q) && sl[End(sl, q)].kind == Live(g) {
          assert SlotOk(p, st.mem, sl, End(sl, q));
          OneEnd(sl, st.tops, q, s);
        }
      }
    }
  }

  /** An unmarked fragment in the slot at `a`. */
  lemma PlacedMarks(fr: map<int, Fragment>, fr': map<int, Fragment>, s: Slots, a: int, f: int)
    requires a in s && s[a].kind.Limbo? && Unplaced(s, f)
    requires f in fr' && fr' == fr[f := fr'[f]] && !fr'[f].followsFree && s[a].size != 0
    ensures AllMarked(fr', Retag(s, a, Live(f))) <==> AllMarked(fr, s) && NoFreeBefore(s, a)
  {
    var n := Retag(s, a, Live(f));
    forall q
      ensures FreeEdge(fr', n, q) <==> FreeEdge(fr, s, q) && !(Precedes(s, q, a) && s[q].kind.Free?)
    {
      if q in s && s[q].kind.Free? && HasNext(s, q) {
        assert s[End(s, q)].kind != Live(f);
      }
    }
    if AllMarked(fr', n) {
      forall q ensures FreeEdge(fr, s, q) && (Precedes(s, q, a) ==> !s[q].kind.Free?) {
        assert FreeEdge(fr', n, q);
      }
    }
    if AllMarked(fr, s) && NoFreeBefore(s, a) {
      forall q ensures FreeEdge(fr', n, q) {
        assert FreeEdge(fr, s, q) && (Precedes(s, q, a) ==> !s[q].kind.Free?);
      }
    }
  }

  /** An unmarked fragment at the append point `pc` of unit `u`. */
  lemma AppendedMarks(fr: map<int, Fragment>, fr': map<int, Fragment>, o: Slots, n: Slots, u: int, pc: int, f: int)
    requires pc !in o && pc in n && n == o[pc := n[pc]] && n[pc].unit == u && n[pc].kind == Live(f) && Unplaced(o, f)
    requires f in fr' && fr' == fr[f := fr'[f]] && !fr'[f].followsFree
    ensures AllMarked(fr', n) <==> AllMarked(fr, o) && NoFreeAt(o, u, pc)
  {
    forall q ensures FreeEdge(fr', n, q) <==> FreeEdge(fr, o, q) && !EndsAt(o, u, pc, q) {
      if q in o && o[q].kind.Free? && HasNext(o, q) {
        assert o[End(o, q)].kind != Live(f);
      }
    }
    if AllMarked(fr', n) {
      forall q ensures FreeEdge(fr, o, q) && !EndsAt(o, u, pc, q) {
        assert FreeEdge(fr', n, q);
      }
    }
    if AllMarked(fr, o) && NoFreeAt(o, u, pc) {
      forall q ensures FreeEdge(fr', n, q) {
        assert FreeEdge(fr, o, q) && !EndsAt(o, u, pc, q);
      }
    }
  }

  /** What precedes a slot depends only on the slots below it. */
  lemma BelowSame(o: Slots, t: Tops, n: Slots, t': Tops, a: int)
    requires Tiled(o, t) && Tiled(n, t') && SameBelow(o, n, a) && a in o && a in n && o[a].unit == n[a].unit
    ensures NoFreeBefore(o, a) <==> NoFreeBefore(n, a)
  {
    forall q
      ensures Precedes(n, q, a) <==> Precedes(o, q, a)
      ensures Precedes(n, q, a) ==> n[q] == o[q]
    {
      assert Inside(o, t, q) && Inside(n, t', q);
      assert q < a ==> (q in o <==> q in n);
    }
  }

  // ----- the append point

  /** Nothing ends where a unit starts. */
  lemma NoFreeAtStart(s: Slots, t: Tops, u: int)
    requires Tiled(s, t)
    ensures NoFreeAt(s, u, u)
  {
    forall a ensures !EndsAt(s, u, u, a) {
      assert Inside(s, t, a);
    }
  }

  /** A slot that is not free ends where no free slot does. */
  lemma NoFreeWith(s: Slots, t: Tops, u: int, a: int)
    requires Tiled(s, t) && a in s && !s[a].kind.Free?
    ensures NoFreeAt(s, u, End(s, a))
  {
    forall b ensures !EndsAt(s, u, End(s, a), b) {
      if EndsAt(s, u, End(s, a), b) {
        OneEnd(s, t, a, b);
      }
    }
  }

  /** Putting a fragment's slot in limbo frees nothing. */
  lemma LimboAtAppend(o: Slots, a: int, u: int, pc: int)
    requires a in o && o[a].kind.Live?
    ensures NoFreeAt(Retag(o, a, Limbo), u, pc) <==> NoFreeAt(o, u, pc)
  {
    forall x ensures EndsAt(Retag(o, a, Limbo), u, pc, x) <==> EndsAt(o, u, pc, x) {
    }
  }

  lemma FewerAtAppend(o: Slots, n: Slots, u: int, pc: int)
    requires forall a {:trigger n[a]} :: a in n && n[a].kind.Free? ==> a in o && o[a] == n[a]
    ensures NoFreeAt(o, u, pc) ==> NoFreeAt(n, u, pc)
  {
    forall a ensures EndsAt(n, u, pc, a) ==> EndsAt(o, u, pc, a) {
    }
  }

  /** A slot that is not free is cut to `size` bytes and its tail freed. */
  lemma SplitAppend(us: map<int, Unit>, live: seq<int>, t: Tops, o: Slots, s: int, size: int, last: bool)
    requires Tiled(o, t) && s in o && !o[s].kind.Free? && 0 < size < o[s].size && o[s].unit in us
    requires |live| > 0 && live[0] in us && live[0] in t && t[live[0]] == us[live[0]].curPc
    requires var s1 := Split(o, s, size);
      last <==> IsCurrent(live, o[s].unit) && s + size + AbsorbedSize(s1, s + size) == us[o[s].unit].curPc
    ensures var n, pc := FreedSlots(Split(o, s, size), s + size, 0, false, last), us[live[0]].curPc;
      NoFreeAt(o, live[0], pc) ==> NoFreeAt(n, live[0], if last then s + size else pc)
  {
    var s1, u := Split(o, s, size), o[s].unit;
    SplitTiled(o, t, s, size);
    FreedAppend(us, live, t, s1, u, s + size, 0, false, last);
    FewerAtAppend(o, s1, live[0], us[live[0]].curPc);
    forall q | Precedes(s1, q, s + size) ensures !s1[q].kind.Free? {
      OneEnd(s1, t, q, s);
    }
  }

  /** What precedes a slot does not depend on what happens to it or to its successor. */
  lemma BeforeRetagged(o: Slots, t: Tops, a: int, x: int, k: Kind)
    requires Tiled(o, t) && a in o && x in o && (x == a || Precedes(o, x, a))
    ensures NoFreeBefore(Retag(o, a, k), x) <==> NoFreeBefore(o, x)
  {
    var n := Retag(o, a, k);
    assert Inside(o, t, a) && Inside(o, t, x);
    forall q ensures Precedes(n, q, x) <==> Precedes(o, q, x) {
    }
    forall q | Precedes(o, q, x) ensures n[q] == o[q] {
      assert Inside(o, t, q);
    }
  }

  /** Freeing the slot at `s`: if it is the last of the current unit, a free slot ends at the new append
      point exactly when one precedes what was returned; else nothing changes at the append point. */
  lemma FreedAppend(us: map<int, Unit>, live: seq<int>, t: Tops, o: Slots, u: int, s: int, q: int, merge: bool,
                    last: bool)
    requires Tiled(o, t) && s in o && o[s].unit == u && o[s].kind.Limbo? && u in us
    requires |live| > 0 && live[0] in us && live[0] in t && t[live[0]] == us[live[0]].curPc
    requires merge ==> Precedes(o, q, s) && o[q].kind.Free?
    requires last <==> IsCurrent(live, u) && s + AbsorbedSize(o, s) == us[u].curPc
    ensures var x, n, pc := if merge then q else s, FreedSlots(o, s, q, merge, last), us[live[0]].curPc;
      if last then NoFreeAt(n, u, x) <==> NoFreeBefore(o, x)
      else NoFreeAt(n, live[0], pc) <==> NoFreeAt(o, live[0], pc)
  {
    var x, n, pc := if merge then q else s, FreedSlots(o, s, q, merge, last), us[live[0]].curPc;
    assert Inside(o, t, s) && (merge ==> Inside(o, t, q));
    assert HasNext(o, s) ==> Inside(o, t, End(o, s));
    if last {
      forall y ensures EndsAt(n, u, x, y) <==> Precedes(o, y, x) && o[y].kind.Free? {
        assert Inside(o, t, y);
      }
    } else {
      forall y ensures EndsAt(n, live[0], pc, y) <==> EndsAt(o, live[0], pc, y) {
        assert Inside(o, t, y);
      }
    }
  }

  // ----- free entries that touch

  /** Two free entries that touch are too large together to be one. */
  ghost predicate FreeApart(s: Slots, q: int) {
    q in s && s[q].kind.Free? && HasNext(s, q) && s[End(s, q)].kind.Free? ==>
      s[q].size + s[End(s, q)].size > MAX_FREE_ENTRY_SIZE
  }

  ghost predicate AllApart(s: Slots) {
    forall q {:trigger FreeApart(s, q)} :: FreeApart(s, q)
  }

  /** A free entry at the append point is too large together with all the room that is left there. */
  ghost predicate AppendBig(us: map<int, Unit>, live: seq<int>, s: Slots) {
    |live| > 0 && live[0] in us && !UsedUp(us[live[0]]) ==>
      var v := us[live[0]];
      forall a {:trigger EndsAt(s, live[0], v.curPc, a)} ::
        EndsAt(s, live[0], v.curPc, a) ==> s[a].size + v.reservedEndPc - v.curPc > MAX_FREE_ENTRY_SIZE
  }

  ghost predicate TouchOk(us: map<int, Unit>, live: seq<int>, s: Slots) {
    AllApart(s) && AppendBig(us, live, s)
  }

  /** No free entry is new. */
  lemma FewerApart(us: map<int, Unit>, live: seq<int>, o: Slots, n: Slots)
    requires forall a {:trigger n[a]} :: a in n && n[a].kind.Free? ==> a in o && o[a] == n[a]
    ensures TouchOk(us, live, o) ==> TouchOk(us, live, n)
  {
    if TouchOk(us, live, o) {
      forall q ensures FreeApart(n, q) {
        assert FreeApart(o, q);
        if q in n && n[q].kind.Free? && HasNext(n, q) && n[End(n, q)].kind.Free? {
          assert o[End(n, q)] == n[End(n, q)];
        }
      }
      if |live| > 0 && live[0] in us {
        forall a ensures EndsAt(n, live[0], us[live[0]].curPc, a) ==> EndsAt(o, live[0], us[live[0]].curPc, a) {}
      }
    }
  }

  /** The slot at `s` may be freed: a free entry before it is merged with it, or the two are too large. */
  ghost predicate MergesPrev(o: Slots, s: int, q: int, merge: bool)
    requires s in o
  {
    forall r {:trigger Precedes(o, r, s)} :: Precedes(o, r, s) && o[r].kind.Free? ==>
      (merge && r == q) || o[r].size + AbsorbedSize(o, s) > MAX_FREE_ENTRY_SIZE
  }

  /** What touches the freed space. */
  lemma FreedNext(o: Slots, t: Tops, s: int, x: int)
    requires Tiled(o, t) && s in o && o[s].kind.Limbo? && AllApart(o)
    requires x in o && (x == s || Precedes(o, x, s))
    requires var e := s + AbsorbedSize(o, s); e in o && o[e].unit == o[s].unit && o[e].kind.Free?
    ensures var e := s + AbsorbedSize(o, s); e - x + o[e].size > MAX_FREE_ENTRY_SIZE
  {
    assert Inside(o, t, s) && Inside(o, t, x);
    if Absorbs(o, s) {
      assert FreeApart(o, End(o, s)) && Inside(o, t, End(o, s));
    }
  }

  lemma FreedPrev(o: Slots, t: Tops, s: int, q: int, merge: bool, r: int)
    requires Tiled(o, t) && s in o && o[s].kind.Limbo? && AllApart(o) && MergesPrev(o, s, q, merge)
    requires merge ==> Precedes(o, q, s) && o[q].kind.Free?
    requires var x := if merge then q else s; Precedes(o, r, x) && o[r].kind.Free?
    ensures var x := if merge then q else s; o[r].size + (s + AbsorbedSize(o, s) - x) > MAX_FREE_ENTRY_SIZE
  {
    assert Inside(o, t, s) && (merge ==> Inside(o, t, q)) && (HasNext(o, s) ==> Inside(o, t, End(o, s)));
    if merge {
      assert FreeApart(o, r);
    }
  }

  /** The free slots after a slot was freed: those before and the freed space, less what it took in. */
  lemma FreedFrees(o: Slots, t: Tops, s: int, q: int, merge: bool, last: bool, a: int)
    requires Tiled(o, t) && s in o && o[s].kind.Limbo?
    requires merge ==> Precedes(o, q, s) && o[q].kind.Free?
    ensures var x, n := if merge then q else s, FreedSlots(o, s, q, merge, last);
      a in n && n[a].kind.Free? ==>
        if a == x then !last && 0 < n[a].size == s + AbsorbedSize(o, s) - x && n[a].unit == o[s].unit
        else a in o && n[a] == o[a] && a != s && !(Absorbs(o, s) && a == End(o, s))
  {
    assert Inside(o, t, s) && (merge ==> Inside(o, t, q)) && (HasNext(o, s) ==> Inside(o, t, End(o, s)));
  }

  lemma FreedAllApart(o: Slots, t: Tops, s: int, q: int, merge: bool, last: bool)
    requires Tiled(o, t) && s in o && o[s].kind.Limbo? && MergesPrev(o, s, q, merge) && AllApart(o)
    requires merge ==> Precedes(o, q, s) && o[q].kind.Free?
    ensures AllApart(FreedSlots(o, s, q, merge, last))
  {
    var x, n := if merge then q else s, FreedSlots(o, s, q, merge, last);
    forall r ensures FreeApart(n, r) {
      if r in n && n[r].kind.Free? && HasNext(n, r) && n[End(n, r)].kind.Free? {
        var e := End(n, r);
        FreedFrees(o, t, s, q, merge, last, r);
        FreedFrees(o, t, s, q, merge, last, e);
        hide FreedSlots, AbsorbedSize, MergesPrev;
        assert Inside(o, t, s) && (merge ==> Inside(o, t, q)) && Inside(o, t, r);
        if r == x {
          FreedNext(o, t, s, x);
        } else if e == x {
          FreedPrev(o, t, s, q, merge, r);
        } else {
          assert FreeApart(o, r);
        }
      }
    }
  }

  /** What is at the append point after a slot was freed. */
  lemma FreedBig(us: map<int, Unit>, live: seq<int>, t: Tops, o: Slots, u: int, s: int, q: int, merge: bool,
                 last: bool)
    requires Tiled(o, t) && s in o && o[s].unit == u && o[s].kind.Limbo? && u in us && MergesPrev(o, s, q, merge)
    requires |live| > 0 && live[0] in us && live[0] in t
    requires t[live[0]] == us[live[0]].curPc || (us[u].curPc == s && u == live[0])
    requires us[live[0]].curPc <= us[live[0]].reservedEndPc
    requires merge ==> Precedes(o, q, s) && o[q].kind.Free?
    requires last <==> IsCurrent(live, u) && s + AbsorbedSize(o, s) == us[u].curPc
    requires TouchOk(us, live, o)
    ensures var x := if merge then q else s;
      AppendBig(if last then us[u := us[u].(curPc := x, full := false)] else us, live,
                FreedSlots(o, s, q, merge, last))
  {
    var x, n, c := if merge then q else s, FreedSlots(o, s, q, merge, last), live[0];
    assert Inside(o, t, s) && (merge ==> Inside(o, t, q)) && (HasNext(o, s) ==> Inside(o, t, End(o, s)));
    if last {
      forall y | EndsAt(n, u, x, y) ensures n[y].size + us[u].reservedEndPc - x > MAX_FREE_ENTRY_SIZE {
        FreedFrees(o, t, s, q, merge, last, y);
        FreedPrev(o, t, s, q, merge, y);
      }
    } else {
      forall y | EndsAt(n, c, us[c].curPc, y) ensures EndsAt(o, c, us[c].curPc, y) && n[y] == o[y] {
        FreedFrees(o, t, s, q, merge, last, y);
        assert Inside(o, t, y);
      }
    }
  }

  /** With no free entry at the append point only the entries themselves matter. */
  lemma ClearTouch(us: map<int, Unit>, us': map<int, Unit>, live: seq<int>, s: Slots)
    requires |live| > 0 && live[0] in us' && NoFreeAt(s, live[0], us'[live[0]].curPc)
    ensures AllApart(s) ==> TouchOk(us', live, s)
    ensures forall l {:trigger TouchOk(us, l, s)} :: TouchOk(us, l, s) ==> AllApart(s)
  {
  }

  lemma SameUnitTouch(us: map<int, Unit>, us': map<int, Unit>, live: seq<int>, s: Slots)
    requires |live| > 0 && live[0] in us && live[0] in us' && us'[live[0]] == us[live[0]]
    ensures TouchOk(us, live, s) ==> TouchOk(us', live, s)
  {
  }

  /** Freeing the slot of `f` when every fragment after a free entry is marked. */
  lemma FreedTouch(p: Params, st: State, live: seq<int>, u: int, a: int, f: int, q: int, merge: bool, last: bool)
    requires Inv(p, st) && AllMarked(st.mem.frags, st.slots) && TouchOk(st.units, live, st.slots)
    requires a in st.slots && st.slots[a].kind == Live(f) && st.slots[a].unit == u && u in st.units
    requires |live| > 0 && live[0] in st.units && st.tops[live[0]] == st.units[live[0]].curPc
    requires merge ==> Precedes(st.slots, q, a) && st.slots[q].kind.Free?
    requires f in st.mem.frags
    requires st.mem.frags[f].followsFree ==> Precedes(st.slots, q, a)
    requires var s1 := Retag(st.slots, a, Limbo);
      && (merge <==> st.mem.frags[f].followsFree && q in s1
                     && s1[q].size + AbsorbedSize(s1, a) <= MAX_FREE_ENTRY_SIZE)
      && (last <==> IsCurrent(live, u) && a + AbsorbedSize(s1, a) == st.units[u].curPc)
    ensures var x := if merge then q else a;
      TouchOk(if last then st.units[u := st.units[u].(curPc := x, full := false)] else st.units, live,
              FreedSlots(Retag(st.slots, a, Limbo), a, q, merge, last))
  {
    var o, s1 := st.slots, Retag(st.slots, a, Limbo);
    RetagTiled(o, st.tops, a, Limbo);
    FewerApart(st.units, live, o, s1);
    UnitPages(p, st, live[0]);
    forall r | Precedes(s1, r, a) && s1[r].kind.Free?
      ensures (merge && r == q) || s1[r].size + AbsorbedSize(s1, a) > MAX_FREE_ENTRY_SIZE
    {
      assert FreeEdge(st.mem.frags, o, r) && Precedes(o, r, a);
      OnePredecessor(o, st.tops, q, r, a);
    }
    FreedAllApart(s1, st.tops, a, q, merge, last);
    FreedBig(st.units, live, st.tops, s1, u, a, q, merge, last);
  }

  /** The rest of the current unit becomes a free entry. */
  lemma FilledTouch(p: Params, st: State, live: seq<int>, u: int, left: int)
    requires Inv(p, st) && TouchOk(st.units, live, st.slots) && u in st.units && IsCurrent(live, u)
    requires st.tops[u] == st.units[u].curPc && 0 < left && !st.units[u].full && st.tops[u] !in st.slots
    requires st.units[u].curPc + left == st.units[u].endPc == st.units[u].reservedEndPc
    ensures TouchOk(st.units, live, st.slots[st.tops[u] := Slot(left, u, Free)])
  {
    var pc, o := st.tops[u], st.slots;
    var n := o[pc := Slot(left, u, Free)];
    assert Inside(o, st.tops, pc) && Inside(o, st.tops, pc + left);
    forall r ensures FreeApart(n, r) {
      assert FreeApart(o, r) && Inside(o, st.tops, r);
      assert r in o && o[r].unit == u && o[r].kind.Free? && End(o, r) == pc ==> EndsAt(o, u, pc, r);
    }
    forall a ensures EndsAt(n, u, pc, a) ==> EndsAt(o, u, pc, a) && n[a] == o[a] {}
  }

  /** The slot of `f`, put in limbo, can be freed. */
  lemma LimboReady(p: Params, st: State, live: seq<int>, a: int, f: int, q: int)
    requires Inv(p, st) && AppendClear(st.units, live, st.slots) && a in st.slots && st.slots[a].kind == Live(f)
    ensures var s1 := Retag(st.slots, a, Limbo);
      && Inv(p, st.(slots := s1)) && AppendClear(st.units, live, s1) && Unplaced(s1, f)
      && (Precedes(st.slots, q, a) && st.slots[q].kind.Free? ==> Precedes(s1, q, a) && s1[q].kind.Free?)
      && (NoFreeBefore(st.slots, a) ==> NoFreeBefore(s1, a))
      && AbsorbedSize(s1, a) == AbsorbedSize(st.slots, a)
      && (AllMarked(st.mem.frags, st.slots) ==> AllMarked(st.mem.frags, s1))
  {
    var s1 := Retag(st.slots, a, Limbo);
    PlacedFacts(p, st, a, f);
    LimboStep(p, st, a);
    Removable(p, st, a, f, q);
    LimboAbsorbs(st.slots, a);
    FewerFree(st.units, live, st.slots, s1);
    FewerMarks(st.mem.frags, st.mem.frags, st.slots, s1);
  }

  /** Everything about the layout after the slot of `f` is freed. */
  lemma RemovedFacts(p: Params, st: State, live: seq<int>, toFlush: seq<int>, a: int, f: int, q: int, merge: bool,
                     last: bool)
    requires Inv(p, st) && Book(p, st.units, live, toFlush) && RoomOk(p, st.units, live, st.slots)
    requires forall x {:trigger st.slots[x]} :: x in st.slots ==> !st.slots[x].kind.Limbo?
    requires a in st.slots && st.slots[a].kind == Live(f) && f in st.mem.frags && st.slots[a].unit in st.units
    requires |live| > 0 && live[0] in st.units && st.tops[live[0]] == st.units[live[0]].curPc
    requires st.mem.frags[f].followsFree ==> Precedes(st.slots, q, a) && st.slots[q].kind.Free?
    requires var u := st.slots[a].unit;
      && (merge <==> st.mem.frags[f].followsFree && q in st.slots
                     && st.slots[q].size + AbsorbedSize(st.slots, a) <= MAX_FREE_ENTRY_SIZE)
      && (last <==> IsCurrent(live, u) && a + AbsorbedSize(st.slots, a) == st.units[u].curPc)
    ensures var u, x := st.slots[a].unit, if merge then q else a;
      var n := FreedSlots(Retag(st.slots, a, Limbo), a, q, merge, last);
      var us := if last then st.units[u := st.units[u].(curPc := x, full := false)] else st.units;
      && NonFree(n) == NonFree(st.slots) - {a} && Unplaced(n, f) && RoomOk(p, us, live, n)
      && (forall x {:trigger n[x]} :: x in n ==> !n[x].kind.Limbo?)
      && (AllMarked(st.mem.frags, st.slots) && TouchOk(st.units, live, st.slots) ==> TouchOk(us, live, n))
      && (NoFreeAt(n, live[0], us[live[0]].curPc) <==>
          if last then NoFreeBefore(st.slots, x) else NoFreeAt(st.slots, live[0], st.units[live[0]].curPc))
  {
    var o, s1, u, x := st.slots, Retag(st.slots, a, Limbo), st.slots[a].unit, if merge then q else a;
    var n := FreedSlots(s1, a, q, merge, last);
    PlacedFacts(p, st, a, f);
    Removable(p, st, a, f, q);
    LimboAbsorbs(o, a);
    RetagTiled(o, st.tops, a, Limbo);
    UnitFacts(p, st, live[0]);
    BookFacts(p, st.units, live, toFlush, live[0]);
    if AllMarked(st.mem.frags, o) && TouchOk(st.units, live, o) {
      FreedTouch(p, st, live, u, a, f, q, merge, last);
    }
    hide Inv, Book, RoomOk, NonFree, FreedSlots, AbsorbedSize, AllMarked, TouchOk, NoFreeAt, NoFreeBefore, Unplaced;
    LimboAtAppend(o, a, live[0], st.units[live[0]].curPc);
    BeforeRetagged(o, st.tops, a, x, Limbo);
    FreedAppend(st.units, live, st.tops, s1, u, a, q, merge, last);
    FreedNonFree(s1, st.tops, a, q, merge, last);
    LimboGone(o, n, a);
    GoneUnplaced(s1, n, a, f);
    FreedRoom(p, st.units, live, st.tops, o, s1, u, a, q, merge, last);
  }

  // ----- cutting a slot

  /** What makes the tail of a cut slot ready to be freed. */
  lemma CutReady(p: Params, st: State, live: seq<int>, fr: map<int, Fragment>, s: int, size: int)
    requires Inv(p, st) && AppendClear(st.units, live, st.slots) && MarksKept(st.mem.frags, fr)
    requires s in st.slots && !st.slots[s].kind.Free? && OnlyLimbo(st.slots, s) && 0 < size < st.slots[s].size
    ensures var s1, n := Split(st.slots, s, size), st.slots[s].size - size;
      && s + size in s1 && s1[s + size] == Slot(n, st.slots[s].unit, Limbo)
      && AppendClear(st.units, live, s1) && NoFreeBefore(s1, s + size)
      && (HasNext(s1, s + size) ==> !s1[s + size + n].kind.Limbo?)
      && (TailAbsorbs(st.slots, s, size) ==> Absorbs(s1, s + size))
      && (AllMarked(st.mem.frags, st.slots) ==> AllMarked(fr, s1))
      && (forall x {:trigger s1[x]} :: x in s1 && s1[x].kind.Live? ==> x in st.slots && st.slots[x].kind == s1[x].kind)
  {
    var s1 := Split(st.slots, s, size);
    SplitForFree(p, st, s, size);
    FewerFree(st.units, live, st.slots, s1);
    FewerMarks(st.mem.frags, fr, st.slots, s1);
  }

  /** Everything about the layout after a slot is cut to `size` bytes and its tail freed. */
  lemma CutFacts(p: Params, st: State, live: seq<int>, toFlush: seq<int>, s: int, size: int, last: bool)
    requires Inv(p, st) && Book(p, st.units, live, toFlush) && RoomOk(p, st.units, live, st.slots)
    requires s in st.slots && !st.slots[s].kind.Free? && OnlyLimbo(st.slots, s) && 0 < size < st.slots[s].size
    requires |live| > 0 && live[0] in st.units && st.tops[live[0]] == st.units[live[0]].curPc
    requires var u := st.slots[s].unit;
      u in st.units && !(st.slots[s].kind.Live? && IsCurrent(live, u) && End(st.slots, s) == st.units[u].endPc)
    requires var s1 := Split(st.slots, s, size);
      last <==> IsCurrent(live, st.slots[s].unit)
                && s + size + AbsorbedSize(s1, s + size) == st.units[st.slots[s].unit].curPc
    ensures var u, c := st.slots[s].unit, st.slots[s].(size := size);
      var r := FreedSlots(Split(st.slots, s, size), s + size, 0, false, last);
      && s in r && r[s] == c && OnlyLimbo(r, s) && NonFree(r) == NonFree(st.slots)[s := c]
      && SameBelow(st.slots, r, s)
      && (NoFreeBefore(st.slots, s) ==> NoFreeBefore(r, s))
      && (HasNext(r, s) ==> r[End(r, s)].kind.Free?)
      && RoomOk(p, if last then st.units[u := st.units[u].(curPc := s + size, full := false)] else st.units, live, r)
      && (NoFreeAt(st.slots, live[0], st.units[live[0]].curPc) ==>
           NoFreeAt(r, live[0], if last then s + size else st.units[live[0]].curPc))
      && (TouchOk(st.units, live, st.slots) ==>
           TouchOk(if last then st.units[u := st.units[u].(curPc := s + size, full := false)] else st.units, live, r))
  {
    var s1 := Split(st.slots, s, size);
    SplitTiled(st.slots, st.tops, s, size);
    SplitFreed(st.slots, st.tops, s, size, last);
    assert SameBelow(s1, FreedSlots(s1, s + size, 0, false, last), s);
    LimboFromNonFree(st.slots, FreedSlots(s1, s + size, 0, false, last), s);
    BookFacts(p, st.units, live, toFlush, live[0]);
    FreedRoom(p, st.units, live, st.tops, st.slots, s1, st.slots[s].unit, s + size, 0, false, last);
    SplitAppend(st.units, live, st.tops, st.slots, s, size, last);
    if TouchOk(st.units, live, st.slots) {
      CutTouch(p, st, live, s, size, last);
    }
  }

  lemma CutTouch(p: Params, st: State, live: seq<int>, s: int, size: int, last: bool)
    requires Inv(p, st) && TouchOk(st.units, live, st.slots)
    requires s in st.slots && !st.slots[s].kind.Free? && 0 < size < st.slots[s].size && st.slots[s].unit in st.units
    requires |live| > 0 && live[0] in st.units && st.tops[live[0]] == st.units[live[0]].curPc
    requires var s1 := Split(st.slots, s, size);
      last <==> IsCurrent(live, st.slots[s].unit)
                && s + size + AbsorbedSize(s1, s + size) == st.units[st.slots[s].unit].curPc
    ensures var u, r := st.slots[s].unit, FreedSlots(Split(st.slots, s, size), s + size, 0, false, last);
      TouchOk(if last then st.units[u := st.units[u].(curPc := s + size, full := false)] else st.units, live, r)
  {
    var s1, u := Split(st.slots, s, size), st.slots[s].unit;
    SplitTiled(st.slots, st.tops, s, size);
    FewerApart(st.units, live, st.slots, s1);
    UnitPages(p, st, live[0]);
    forall r | Precedes(s1, r, s + size) ensures !s1[r].kind.Free? {
      OneEnd(s1, st.tops, r, s);
    }
    FreedAllApart(s1, st.tops, s + size, 0, false, last);
    FreedBig(st.units, live, st.tops, s1, u, s + size, 0, false, last);
  }
}
