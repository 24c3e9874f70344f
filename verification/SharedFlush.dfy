/**
  The flush walk over one unit: what it takes off the free lists and which fragments it chains.
 */
module SharedFlush {
  import opened Layout
  import opened Lists
  import opened SharedState
  import opened SharedSteps
  import opened SharedSpec
  import opened SharedMarks

  /** The free entry at `a` has been passed by a walk of unit `u` that has reached `pc`. */
  ghost predicate Passed(s: Slots, u: int, pc: int, a: int) {
    a in s && s[a].kind.Free? && s[a].unit == u && a < pc
  }

  ghost function Swept(s: Slots, u: int, pc: int): Slots {
    map a | a in s :: if Passed(s, u, pc, a) then s[a].(kind := Limbo) else s[a]
  }

  /** The entries of a free list that the walk has not taken off. */
  ghost function Outside(l: seq<int>, s: Slots, u: int, pc: int): seq<int> {
    if l == [] then []
    else (if Passed(s, u, pc, l[0]) then [] else [l[0]]) + Outside(l[1..], s, u, pc)
  }

  ghost function Drop(l: seq<int>, x: int): seq<int> {
    if l == [] then [] else (if l[0] == x then [] else [l[0]]) + Drop(l[1..], x)
  }

  lemma {:induction false} DropAbsent(l: seq<int>, x: int)
    requires x !in l
    ensures Drop(l, x) == l
  {
    if l != [] {
      DropAbsent(l[1..], x);
    }
  }

  lemma {:induction false} DropOnce(l: seq<int>, k: int)
    requires 0 <= k < |l| && forall i, j :: 0 <= i < j < |l| ==> l[i] != l[j]
    ensures Drop(l, l[k]) == Without(l, k)
  {
    var r := l[1..];
    if k == 0 {
      DropAbsent(r, l[0]);
      assert Without(l, 0) == r;
    } else {
      DropOnce(r, k - 1);
      assert r[k - 1] == l[k] && Drop(l, l[k]) == [l[0]] + Drop(r, l[k]);
      assert Without(l, k) == [l[0]] + Without(r, k - 1);
    }
  }

  lemma {:induction false} OutsideStep(l: seq<int>, s: Slots, u: int, pc: int, pc': int, x: int)
    requires forall a :: a in l ==> (Passed(s, u, pc', a) <==> Passed(s, u, pc, a) || a == x)
    ensures Outside(l, s, u, pc') == Drop(Outside(l, s, u, pc), x)
  {
    if l != [] {
      OutsideStep(l[1..], s, u, pc, pc', x);
      var h, r := l[0], Outside(l[1..], s, u, pc);
      assert h in l;
      if Passed(s, u, pc, h) {
        assert Outside(l, s, u, pc) == r;
      } else {
        assert Outside(l, s, u, pc) == [h] + r && ([h] + r)[1..] == r;
      }
    }
  }

  lemma {:induction false} OutsideSame(l: seq<int>, s: Slots, u: int, pc: int, pc': int)
    requires forall a :: a in l ==> (Passed(s, u, pc', a) <==> Passed(s, u, pc, a))
    ensures Outside(l, s, u, pc') == Outside(l, s, u, pc)
  {
    if l != [] {
      OutsideSame(l[1..], s, u, pc, pc');
      assert l[0] in l;
    }
  }

  /** What stays on a list is what is not passed, in the same order. */
  lemma {:induction false} OutsideMembers(l: seq<int>, s: Slots, u: int, pc: int, a: int)
    ensures a in Outside(l, s, u, pc) <==> a in l && !Passed(s, u, pc, a)
  {
    if l != [] {
      OutsideMembers(l[1..], s, u, pc, a);
      assert l == [l[0]] + l[1..];
    }
  }

  /** Moving past the slot at `at` passes that slot and no other. */
  lemma PassedStep(s: Slots, t: Tops, u: int, at: int, a: int)
    requires Tiled(s, t) && at in s && s[at].unit == u
    ensures Passed(s, u, End(s, at), a) <==> Passed(s, u, at, a) || (a == at && s[at].kind.Free?)
  {
    assert Inside(s, t, at) && Apart(s, at, a);
  }

  /** fragments that are flushed: all but deleted ones already off the lazy list */
  ghost predicate Flushes(fr: map<int, Fragment>, lazy: set<int>, f: int) {
    f in fr && (!fr[f].wasDeleted || f in lazy)
  }

  ghost function ChainOf(s: Slots, fr: map<int, Fragment>, lazy: set<int>, w: seq<int>): seq<int>
    requires forall i :: 0 <= i < |w| ==> w[i] in s
  {
    if w == [] then []
    else
      (if s[w[0]].kind.Live? && Flushes(fr, lazy, s[w[0]].kind.node) then [s[w[0]].kind.node] else [])
      + ChainOf(s, fr, lazy, w[1..])
  }

  lemma {:induction false} ChainSnoc(s: Slots, fr: map<int, Fragment>, lazy: set<int>, w: seq<int>, a: int)
    requires a in s && forall i :: 0 <= i < |w| ==> w[i] in s
    ensures ChainOf(s, fr, lazy, w + [a]) ==
            ChainOf(s, fr, lazy, w) +
            if s[a].kind.Live? && Flushes(fr, lazy, s[a].kind.node) then [s[a].kind.node] else []
  {
    if w == [] {
      assert w + [a] == [a];
      assert ChainOf(s, fr, lazy, [a][1..]) == [];
    } else {
      assert (w + [a])[1..] == w[1..] + [a];
      ChainSnoc(s, fr, lazy, w[1..], a);
    }
  }

  /** Only deleted fragments are on the lazy-deletion list. */
  ghost predicate LazyOk(fr: map<int, Fragment>, lazy: set<int>) {
    forall f :: f in lazy ==> f in fr && fr[f].wasDeleted
  }

  /** Marks do not matter for the lazy-deletion list. */
  lemma LazySame(o: map<int, Fragment>, n: map<int, Fragment>)
    requires Unmarked(n) == Unmarked(o)
    ensures forall lazy {:trigger LazyOk(n, lazy)} {:trigger LazyOk(o, lazy)} :: LazyOk(n, lazy) <==> LazyOk(o, lazy)
  {
    UnmarkedKeys(o, n);
    forall f | f in o ensures n[f].wasDeleted == o[f].wasDeleted {
      assert Unmarked(n)[f] == Unmarked(o)[f];
    }
  }

  lemma {:induction false} ChainMembers(s: Slots, fr: map<int, Fragment>, lazy: set<int>, w: seq<int>, f: int)
    requires forall i :: 0 <= i < |w| ==> w[i] in s
    ensures f in ChainOf(s, fr, lazy, w) <==>
            f in fr && (!fr[f].wasDeleted || f in lazy) && exists a :: a in w && s[a].kind == Live(f)
  {
    if w != [] {
      ChainMembers(s, fr, lazy, w[1..], f);
      var rest := w[1..];
      assert w == [w[0]] + rest;
      assert forall a :: a in w <==> a == w[0] || a in rest;
      if s[w[0]].kind == Live(f) {
        assert w[0] in w;
      }
    }
  }

  /** Flushing a unit takes exactly its own fragments off the lazy list. */
  lemma FlushTakesLazy(s: Slots, t: Tops, u: int, fr: map<int, Fragment>, lazy: set<int>, f: int)
    requires Tiled(s, t) && u in t && Anchored(s, t, u) && LazyOk(fr, lazy)
    ensures u == t[u] || (u in s && s[u].unit == u)
    ensures f in LazyLeft(lazy, fr, ChainOf(s, fr, lazy, Walk(s, t, u, u))) <==>
            f in lazy && forall a :: a in s && s[a].unit == u ==> s[a].kind != Live(f)
  {
    var w := Walk(s, t, u, u);
    ChainMembers(s, fr, lazy, w, f);
    forall a | a in s && s[a].unit == u ensures a in w {
      assert Inside(s, t, a);
    }
  }

  /** The fragments apart from how they are chained. */
  ghost function Unchained(fr: map<int, Fragment>): map<int, Fragment> {
    map f | f in fr :: fr[f].(nextVmarea := 0)
  }

  /** The marks in the other units are left alone. */
  lemma FlushedMarks(o: map<int, Fragment>, n: map<int, Fragment>, s: Slots, u: int)
    requires Unchained(n) == Unchained(o)
    ensures MarksExact(o, s) ==> MarksExact(n, WithoutUnit(s, u))
  {
    var s' := WithoutUnit(s, u);
    forall q, a | Precedes(s', q, a) && s'[a].kind.Live? && MarksExact(o, s)
      ensures IsMarked(n, s'[a].kind) <==> s'[q].kind.Free?
    {
      var f := s[a].kind.node;
      assert f in Unchained(n) <==> f in Unchained(o);
      assert Precedes(s, q, a) && (f in o ==> Unchained(n)[f] == Unchained(o)[f]);
    }
  }

  lemma RelinkStep(p: Params, st: State, f: int, v: int)
    requires Inv(p, st) && f in st.mem.frags
    ensures Inv(p, Rewritten(st, f, st.mem.frags[f].(nextVmarea := v)))
  {
    var frag := st.mem.frags[f].(nextVmarea := v);
    var st' := Rewritten(st, f, frag);
    SameMarks(p, st, st', f, frag);
    forall x ensures SlotOk(p, st'.mem, st'.slots, x) {
      assert SlotOk(p, st.mem, st.slots, x);
    }
  }

  // ----- a flushed unit leaves the cache

  ghost function WithoutUnit(s: Slots, u: int): Slots {
    map a | a in s && s[a].unit != u :: s[a]
  }

  ghost function Retired(st: State, u: int): State {
    st.(units := st.units - {u}, slots := WithoutUnit(st.slots, u), tops := st.tops - {u})
  }

  /** Once none of its slots is on a free list, a unit can be taken out of the cache. */
  lemma RetireStep(p: Params, st: State, u: int)
    requires Inv(p, st) && u in st.units
    requires forall a {:trigger st.slots[a]} :: a in st.slots && st.slots[a].unit == u ==> !st.slots[a].kind.Free?
    ensures Inv(p, Retired(st, u))
  {
    var st' := Retired(st, u);
    forall x
      ensures Inside(st'.slots, st'.tops, x) && Chained(st'.slots, st'.tops, x) && Anchored(st'.slots, st'.tops, x)
    {
      assert Inside(st.slots, st.tops, x) && Chained(st.slots, st.tops, x) && Anchored(st.slots, st.tops, x);
    }
    forall x, y ensures Apart(st'.slots, x, y) {
      assert Apart(st.slots, x, y);
    }
    RetireUnits(p, st, u);
    forall x ensures OnGrid(p, st'.slots, x) && SlotOk(p, st'.mem, st'.slots, x) {
      assert OnGrid(p, st.slots, x) && SlotOk(p, st.mem, st.slots, x);
    }
    forall x ensures EdgeOk(st'.units, st'.mem.frags, st'.slots, x) && StartOk(st'.mem.frags, st'.slots, x) {
      assert EdgeOk(st.units, st.mem.frags, st.slots, x) && StartOk(st.mem.frags, st.slots, x);
    }
    SameFree(st, st');
  }

  lemma RetireUnits(p: Params, st: State, u: int)
    requires UnitsInv(p, st)
    ensures UnitsInv(p, Retired(st, u))
  {
    var st' := Retired(st, u);
    forall v ensures UnitOk(p, st', v) {
      assert UnitOk(p, st, v);
    }
    forall v, w ensures UnitsApart(st', v, w) {
      assert UnitsApart(st, v, w);
    }
    forall f, v ensures HeapApart(st', f, v) {
      assert HeapApart(st, f, v);
    }
  }

  lemma SweptNone(s: Slots, t: Tops, u: int)
    requires Tiled(s, t)
    ensures Swept(s, u, u) == s
  {
    forall a ensures !Passed(s, u, u, a) {
      assert Inside(s, t, a);
    }
  }

  lemma {:induction false} OutsideNone(l: seq<int>, s: Slots, t: Tops, u: int)
    requires Tiled(s, t)
    ensures Outside(l, s, u, u) == l
  {
    if l != [] {
      OutsideNone(l[1..], s, t, u);
      assert Inside(s, t, l[0]);
    }
  }

  /** The fragments chained so far come from slots before `pc`, each pointing at the next. */
  ghost predicate ChainedTo(p: Params, fr: map<int, Fragment>, chain: seq<int>, pc: int) {
    && (forall i {:trigger chain[i]} :: 0 <= i < |chain| ==> chain[i] in fr && HdrStart(p, fr[chain[i]]) < pc)
    && (forall i {:trigger chain[i]} :: 0 <= i < |chain| - 1 ==> fr[chain[i]].nextVmarea == chain[i + 1])
    && (forall i, j :: 0 <= i < j < |chain| ==> chain[i] != chain[j])
    && 0 !in chain
  }

  /** Passing a slot, whether or not a free entry was taken off its list. */
  lemma SweptStep(s: Slots, t: Tops, u: int, at: int)
    requires Tiled(s, t) && at in s && s[at].unit == u
    ensures Swept(s, u, End(s, at)) ==
            if s[at].kind.Free? then Retag(Swept(s, u, at), at, Limbo) else Swept(s, u, at)
  {
    forall a ensures Passed(s, u, End(s, at), a) <==> Passed(s, u, at, a) || (a == at && s[at].kind.Free?) {
      PassedStep(s, t, u, at, a);
    }
  }

  lemma ListPassedOver(l: seq<int>, s: Slots, t: Tops, u: int, at: int)
    requires Tiled(s, t) && at in s && s[at].unit == u && !s[at].kind.Free?
    ensures Outside(l, s, u, End(s, at)) == Outside(l, s, u, at)
  {
    forall a | a in l ensures Passed(s, u, End(s, at), a) <==> Passed(s, u, at, a) {
      PassedStep(s, t, u, at, a);
    }
    OutsideSame(l, s, u, at, End(s, at));
  }

  lemma ListPassedFree(l: seq<int>, s: Slots, t: Tops, u: int, at: int)
    requires Tiled(s, t) && at in s && s[at].unit == u && s[at].kind.Free?
    ensures Outside(l, s, u, End(s, at)) == Drop(Outside(l, s, u, at), at)
  {
    forall a | a in l ensures Passed(s, u, End(s, at), a) <==> Passed(s, u, at, a) || a == at {
      PassedStep(s, t, u, at, a);
    }
    OutsideStep(l, s, u, at, End(s, at), at);
  }

  /** Taking the entry at `at` off its list drops it from the lists and nothing else. */
  lemma ListsAfterRemoval(p: Params, st: State, at: int, k: int, c: int)
    requires Inv(p, st) && at in st.slots && st.slots[at].kind.Free? && 0 <= c < 9
    requires 0 <= k < |st.lists[Bucket(st.slots[at].size)]| && st.lists[Bucket(st.slots[at].size)][k] == at
    ensures st.lists[Bucket(st.slots[at].size) := Without(st.lists[Bucket(st.slots[at].size)], k)][c]
        == Drop(st.lists[c], at)
  {
    var b := Bucket(st.slots[at].size);
    assert BucketOk(st, b) && BucketOk(st, c);
    if c == b {
      DropOnce(st.lists[b], k);
    } else {
      assert InBucket(st.slots, at, c) <==> at in st.lists[c];
      DropAbsent(st.lists[c], at);
    }
  }

  /** A flush walk in progress: where it started, and how far it has come. */
  datatype Flush = Flush(slots: Slots, lists: seq<seq<int>>, frags: map<int, Fragment>, lazy: set<int>,
                         unit: int, done: seq<int>, chain: seq<int>)

  /** The slots and lists: all up to `at` is swept, the rest untouched. */
  ghost predicate Sweeping(s: Slots, t: Tops, lists: seq<seq<int>>, w: Flush, at: int) {
    && Tiled(w.slots, t) && w.unit in t
    && (at == t[w.unit] || (at in w.slots && w.slots[at].unit == w.unit))
    && Anchored(w.slots, t, w.unit)
    && (forall a {:trigger w.slots[a]} :: a in w.slots ==> !w.slots[a].kind.Limbo?)
    && s == Swept(w.slots, w.unit, at)
    && |lists| == |w.lists| == 9
    && (forall b {:trigger lists[b]} :: 0 <= b < 9 ==> lists[b] == Outside(w.lists[b], w.slots, w.unit, at))
    && (forall i :: 0 <= i < |w.done| ==> w.done[i] in w.slots)
    && w.done + Walk(w.slots, t, w.unit, at) == Walk(w.slots, t, w.unit, w.unit)
    && w.chain == ChainOf(w.slots, w.frags, w.lazy, w.done)
  }

  /** The fragments: those to be flushed are chained, and the lazy list keeps the others. */
  ghost predicate Chaining(p: Params, fr: map<int, Fragment>, w: Flush, at: int, lazy: set<int>) {
    && ChainedTo(p, fr, w.chain, at)
    && Unchained(fr) == Unchained(w.frags)
    && lazy == LazyLeft(w.lazy, w.frags, w.chain)
  }

  ghost predicate Flushing(p: Params, st: State, w: Flush, at: int, lazy: set<int>) {
    && Inv(p, st) && w.unit in st.units
    && Sweeping(st.slots, st.tops, st.lists, w, at)
    && Chaining(p, st.mem.frags, w, at, lazy)
  }

  lemma FlushStart(p: Params, st: State, u: int, lazy: set<int>) returns (w: Flush)
    requires Inv(p, st) && u in st.units
    requires forall a {:trigger st.slots[a]} :: a in st.slots ==> !st.slots[a].kind.Limbo?
    ensures w == Flush(st.slots, st.lists, st.mem.frags, lazy, u, [], []) && Flushing(p, st, w, u, lazy)
  {
    w := Flush(st.slots, st.lists, st.mem.frags, lazy, u, [], []);
    UnitFacts(p, st, u);
    assert Anchored(st.slots, st.tops, u);
    SweptNone(st.slots, st.tops, u);
    forall b | 0 <= b < 9 ensures st.lists[b] == Outside(w.lists[b], w.slots, u, u) {
      OutsideNone(st.lists[b], st.slots, st.tops, u);
    }
  }

  /** The slot a flush walk has reached is as it was when the walk began. */
  lemma FlushHere(p: Params, st: State, w: Flush, at: int, lazy: set<int>)
    requires Flushing(p, st, w, at, lazy) && at < st.tops[w.unit]
    ensures |st.lists| == 9 && w.unit in st.tops
    ensures at in w.slots && at in st.slots && st.slots[at] == w.slots[at] && !st.slots[at].kind.Limbo?
    ensures End(w.slots, at) <= st.tops[w.unit] && at < End(w.slots, at)
    ensures End(w.slots, at) == st.tops[w.unit] || HasNext(w.slots, at)
    ensures Inv(p, st) && Tiled(w.slots, st.tops) && SlotOk(p, st.mem, st.slots, at) && w.slots[at].unit == w.unit
    ensures |w.lists| == 9 && forall b :: 0 <= b < 9 ==> st.lists[b] == Outside(w.lists[b], w.slots, w.unit, at)
    ensures ChainedTo(p, st.mem.frags, w.chain, at) && Unchained(st.mem.frags) == Unchained(w.frags)
    ensures lazy == LazyLeft(w.lazy, w.frags, w.chain)
    ensures w.done + [at] + Walk(w.slots, st.tops, w.unit, End(w.slots, at)) == Walk(w.slots, st.tops, w.unit, w.unit)
  {
    assert Inside(w.slots, st.tops, at) && Chained(w.slots, st.tops, at);
    WalkOne(w.slots, st.tops, w.unit, at, w.done);
  }

  lemma WalkOne(s: Slots, t: Tops, u: int, at: int, done: seq<int>)
    requires Tiled(s, t) && u in t && at in s && s[at].unit == u && at < t[u]
    requires End(s, at) == t[u] || HasNext(s, at)
    ensures done + [at] + Walk(s, t, u, End(s, at)) == done + Walk(s, t, u, at)
  {
    var rest := Walk(s, t, u, End(s, at));
    assert Walk(s, t, u, at) == [at] + rest;
    assert done + [at] + rest == done + ([at] + rest);
  }

  /** The walk passes a free entry that was taken off its list. */
  lemma SweptFree(s: Slots, t: Tops, lists: seq<seq<int>>, lists': seq<seq<int>>, w: Flush, at: int)
    requires Sweeping(s, t, lists, w, at) && at in w.slots && w.slots[at].kind.Free? && at < t[w.unit] && at in s
    requires |lists'| == 9 && forall b :: 0 <= b < 9 ==>
        lists'[b] == Outside(w.lists[b], w.slots, w.unit, End(w.slots, at))
    ensures Sweeping(Retag(s, at, Limbo), t, lists', w.(done := w.done + [at]), End(w.slots, at))
  {
    assert Inside(w.slots, t, at) && Chained(w.slots, t, at);
    SweptStep(w.slots, t, w.unit, at);
    WalkOne(w.slots, t, w.unit, at, w.done);
    ChainSnoc(w.slots, w.frags, w.lazy, w.done, at);
  }

  /** The walk passes a fragment. */
  lemma SweptLive(s: Slots, t: Tops, lists: seq<seq<int>>, w: Flush, at: int, add: bool)
    requires Sweeping(s, t, lists, w, at) && at in w.slots && w.slots[at].kind.Live? && at < t[w.unit]
    requires add <==> Flushes(w.frags, w.lazy, w.slots[at].kind.node)
    ensures Sweeping(s, t, lists,
        w.(done := w.done + [at], chain := w.chain + if add then [w.slots[at].kind.node] else []),
                     End(w.slots, at))
  {
    assert Inside(w.slots, t, at) && Chained(w.slots, t, at);
    SweptStep(w.slots, t, w.unit, at);
    WalkOne(w.slots, t, w.unit, at, w.done);
    ChainSnoc(w.slots, w.frags, w.lazy, w.done, at);
    forall b | 0 <= b < 9 ensures lists[b] == Outside(w.lists[b], w.slots, w.unit, End(w.slots, at)) {
      ListPassedOver(w.lists[b], w.slots, t, w.unit, at);
    }
  }

  lemma FlushedFree(p: Params, st: State, st': State, w: Flush, at: int, lazy: set<int>)
    requires Flushing(p, st, w, at, lazy) && at < st.tops[w.unit] && at in w.slots && w.slots[at].kind.Free?
    requires Inv(p, st') && st'.units == st.units && st'.tops == st.tops && st'.mem.frags == st.mem.frags
    requires at in st.slots && st'.slots == Retag(st.slots, at, Limbo)
    requires |st'.lists| == 9 && forall b :: 0 <= b < 9 ==>
        st'.lists[b] == Outside(w.lists[b], w.slots, w.unit, End(w.slots, at))
    ensures Flushing(p, st', w.(done := w.done + [at]), End(w.slots, at), lazy)
  {
    hide Inv;
    SweptFree(st.slots, st.tops, st.lists, st'.lists, w, at);
    assert Inside(w.slots, st.tops, at);
    ChainLater(p, st.mem.frags, w.chain, at, End(w.slots, at));
    hide Sweeping, ChainedTo;
  }

  /** What stays on the lazy list: all but the deleted fragments that were chained. */
  ghost function LazyLeft(all: set<int>, fr: map<int, Fragment>, chain: seq<int>): set<int> {
    set f | f in all && !(f in chain && f in fr && fr[f].wasDeleted)
  }

  lemma LazyKept(all: set<int>, fr: map<int, Fragment>, chain: seq<int>, n: int, add: bool)
    requires n in fr && n !in chain && (add <==> Flushes(fr, all, n))
    ensures LazyLeft(all, fr, chain + if add then [n] else []) ==
            LazyLeft(all, fr, chain) - if fr[n].wasDeleted then {n} else {}
    ensures n in all <==> n in LazyLeft(all, fr, chain)
  {
    var chain' := chain + if add then [n] else [];
    forall f ensures f in chain' <==> f in chain || (add && f == n) {
    }
  }

  /** A fragment the walk meets is not chained yet. */
  lemma NotChained(p: Params, fr: map<int, Fragment>, chain: seq<int>, at: int, f: int)
    requires ChainedTo(p, fr, chain, at) && f in fr && at <= HdrStart(p, fr[f])
    ensures f !in chain
  {
  }

  /** The walk passes a fragment, appended to the chain or not. */
  lemma FlushedLive(p: Params, st: State, st': State, w: Flush, at: int, lazy: set<int>, lazy': set<int>, add: bool)
    requires Flushing(p, st, w, at, lazy) && at < st.tops[w.unit] && at in w.slots && w.slots[at].kind.Live?
    requires Inv(p, st') && st'.units == st.units && st'.tops == st.tops
    requires st'.slots == st.slots && st'.lists == st.lists
    requires Unchained(st'.mem.frags) == Unchained(st.mem.frags)
    requires add <==> Flushes(w.frags, w.lazy, w.slots[at].kind.node)
    requires ChainedTo(p, st'.mem.frags, w.chain + if add then [w.slots[at].kind.node] else [], End(w.slots, at))
    requires lazy' == LazyLeft(w.lazy, w.frags, w.chain + if add then [w.slots[at].kind.node] else [])
    ensures Flushing(p, st', w.(done := w.done + [at], chain := w.chain + if add then [w.slots[at].kind.node] else []),
                     End(w.slots, at), lazy')
  {
    hide Inv;
    SweptLive(st.slots, st.tops, st.lists, w, at, add);
    hide Sweeping, ChainedTo, Unchained;
  }

  lemma SameDeleted(o: map<int, Fragment>, n: map<int, Fragment>, f: int)
    requires Unchained(n) == Unchained(o) && f in n
    ensures f in o && o[f].wasDeleted == n[f].wasDeleted
  {
    assert f in Unchained(n) && f in Unchained(o);
    assert Unchained(o)[f] == o[f].(nextVmarea := 0) && Unchained(n)[f] == n[f].(nextVmarea := 0);
  }

  lemma ChainLater(p: Params, fr: map<int, Fragment>, chain: seq<int>, at: int, pc: int)
    requires ChainedTo(p, fr, chain, at) && at <= pc
    ensures ChainedTo(p, fr, chain, pc)
  {
  }

  /** Linking the fragment at `at` behind the last one extends the chain. */
  lemma ChainGrows(p: Params, fr: map<int, Fragment>, chain: seq<int>, at: int, pc: int, f: int)
    requires ChainedTo(p, fr, chain, at) && at < pc
    requires f != 0 && f in fr && HdrStart(p, fr[f]) == at
    ensures f !in chain
    ensures chain == [] ==> ChainedTo(p, fr, [f], pc)
    ensures chain != [] ==>
              var t := chain[|chain| - 1];
              var fr' := fr[t := fr[t].(nextVmarea := f)];
              ChainedTo(p, fr', chain + [f], pc) && Unchained(fr') == Unchained(fr)
  {
    if chain != [] {
      var t := chain[|chain| - 1];
      var fr' := fr[t := fr[t].(nextVmarea := f)];
      var c := chain + [f];
      forall i {:trigger c[i]} | 0 <= i < |c| ensures c[i] in fr' && HdrStart(p, fr'[c[i]]) < pc {
        assert i < |chain| ==> chain[i] in fr;
      }
      forall i {:trigger c[i]} | 0 <= i < |c| - 1 ensures fr'[c[i]].nextVmarea == c[i + 1] {
        assert i < |chain| - 1 ==> fr[chain[i]].nextVmarea == chain[i + 1];
      }
    }
  }

  /** The walk has come to the unit's top. */
  lemma FlushEnd(p: Params, st: State, w: Flush, lazy: set<int>)
    requires w.unit in st.tops && Flushing(p, st, w, st.tops[w.unit], lazy)
    ensures Inv(p, st) && Tiled(w.slots, st.tops) && Anchored(w.slots, st.tops, w.unit)
    ensures st.slots == Swept(w.slots, w.unit, st.tops[w.unit])
    ensures |st.lists| == |w.lists| == 9
    ensures forall b :: 0 <= b < 9 ==> st.lists[b] == Outside(w.lists[b], w.slots, w.unit, st.tops[w.unit])
    ensures w.chain == ChainOf(w.slots, w.frags, w.lazy, Walk(w.slots, st.tops, w.unit, w.unit))
    ensures ChainedTo(p, st.mem.frags, w.chain, st.tops[w.unit]) && Unchained(st.mem.frags) == Unchained(w.frags)
    ensures lazy == LazyLeft(w.lazy, w.frags, w.chain)
  {
    assert w.done + [] == w.done;
  }

  /** Every fragment of the chain points at the next, and the last one at nothing. */
  ghost predicate Closed(fr: map<int, Fragment>, chain: seq<int>) {
    forall i {:trigger chain[i]} :: 0 <= i < |chain| ==> chain[i] in fr && fr[chain[i]].nextVmarea == At(chain, i + 1)
  }

  lemma ChainCloses(p: Params, fr: map<int, Fragment>, chain: seq<int>, pc: int)
    requires ChainedTo(p, fr, chain, pc) && chain != []
    ensures var t := chain[|chain| - 1];
      var fr' := fr[t := fr[t].(nextVmarea := 0)];
      Closed(fr', chain) && Unchained(fr') == Unchained(fr)
  {
    var t := chain[|chain| - 1];
    var fr' := fr[t := fr[t].(nextVmarea := 0)];
    forall i {:trigger chain[i]} | 0 <= i < |chain|
      ensures chain[i] in fr' && fr'[chain[i]].nextVmarea == At(chain, i + 1)
    {
      assert i < |chain| - 1 ==> chain[i] != t && fr[chain[i]].nextVmarea == chain[i + 1];
    }
  }

  /** After the walk no free list holds an address in the unit; the others are as they were. */
  lemma SweptClean(p: Params, st: State, s: Slots, u: int)
    requires Inv(p, st) && u in st.tops && Tiled(s, st.tops) && st.slots == Swept(s, u, st.tops[u])
    ensures forall a {:trigger st.slots[a]} :: a in st.slots && st.slots[a].unit == u ==> !st.slots[a].kind.Free?
    ensures WithoutUnit(st.slots, u) == WithoutUnit(s, u)
    ensures forall b, a :: 0 <= b < 9 && a in st.lists[b] ==> a in st.slots && st.slots[a].unit != u
  {
    forall a | a in s && s[a].unit == u ensures !st.slots[a].kind.Free? {
      assert Inside(s, st.tops, a);
    }
    forall b, a | 0 <= b < 9 && a in st.lists[b] ensures a in st.slots && st.slots[a].unit != u {
      assert BucketOk(st, b) && (InBucket(st.slots, a, b) <==> a in st.lists[b]);
    }
  }

  lemma RetireBook(p: Params, us: map<int, Unit>, live: seq<int>, toFlush: seq<int>, k: int)
    requires Book(p, us, live, toFlush) && 0 <= k < |toFlush|
    ensures Book(p, us - {toFlush[k]}, live, toFlush[..k] + toFlush[k + 1..])
  {
    var u, us', rest := toFlush[k], us - {toFlush[k]}, toFlush[..k] + toFlush[k + 1..];
    forall v ensures UnitBook(p, us', live, rest, v) {
      assert UnitBook(p, us, live, toFlush, v);
      if v in us' && v in toFlush {
        var i :| 0 <= i < |toFlush| && toFlush[i] == v;
        assert v == rest[if i < k then i else i - 1];
      }
    }
  }

  lemma RetireClear(us: map<int, Unit>, live: seq<int>, s: Slots, u: int)
    requires AppendClear(us, live, s) && !IsCurrent(live, u)
    ensures AppendClear(us - {u}, live, WithoutUnit(s, u))
  {
    if |live| > 0 && live[0] in us {
      var n, c, pc := WithoutUnit(s, u), live[0], us[live[0]].curPc;
      forall a ensures EndsAt(n, c, pc, a) ==> EndsAt(s, c, pc, a) {
      }
    }
  }
}
