/**
  The elementary steps the shared allocator is made of. Each keeps the invariant; the
  operations of the cache are sequences of these steps.
 */
module SharedSteps {
  import opened Alignment
  import opened Layout
  import opened Lists
  import opened SharedState

  // ----- taking an entry off its free list

  ghost function Unlinked(st: State, h: int, k: int): State
    requires h in st.slots && h in st.mem.words && h in st.mem.hdrs
    requires st.mem.hdrs[h].prev != 0 ==> st.mem.hdrs[h].prev in st.mem.words
    requires st.mem.words[h] != 0 ==> st.mem.words[h] in st.mem.hdrs
    requires |st.heads| == |st.lists| == 9
    requires 0 <= k < |st.lists[Bucket(st.slots[h].size)]|
  {
    var b := Bucket(st.slots[h].size);
    st.(mem := UnlinkMem(st.mem, h),
        heads := if st.mem.hdrs[h].prev != 0 then st.heads else st.heads[b := st.mem.words[h]],
        slots := Retag(st.slots, h, Limbo),
        lists := st.lists[b := Without(st.lists[b], k)])
  }

  lemma UnlinkStep(p: Params, st: State, h: int) returns (k: int)
    requires Inv(p, st) && h in st.slots && st.slots[h].kind.Free?
    ensures h in st.mem.words && h in st.mem.hdrs
    ensures st.mem.hdrs[h].prev != 0 ==> st.mem.hdrs[h].prev in st.mem.words
    ensures st.mem.words[h] != 0 ==> st.mem.words[h] in st.mem.hdrs
    ensures 0 <= k < |st.lists[Bucket(st.slots[h].size)]|
    ensures st.lists[Bucket(st.slots[h].size)][k] == h
    ensures Inv(p, Unlinked(st, h, k))
  {
    var b := Bucket(st.slots[h].size);
    var l := st.lists[b];
    assert BucketOk(st, b) && InBucket(st.slots, h, b);
    k :| 0 <= k < |l| && l[k] == h;
    UnlinkList(st.mem, st.heads[b], l, k);
    RetagTiled(st.slots, st.tops, h, Limbo);
    var st' := Unlinked(st, h, k);
    UnlinkSlots(p, st, h, k);
    SameUnits(p, st, st');
    LimboEdges(st, st', h);
    forall c ensures BucketOk(st', c) {
      if 0 <= c < 9 {
        UnlinkBucket(p, st, h, k, c);
      }
    }
  }

  lemma UnlinkBucket(p: Params, st: State, h: int, k: int, c: int)
    requires Inv(p, st) && h in st.slots && st.slots[h].kind.Free? && 0 <= c < 9
    requires 0 <= k < |st.lists[Bucket(st.slots[h].size)]|
    requires st.lists[Bucket(st.slots[h].size)][k] == h
    requires h in st.mem.words && h in st.mem.hdrs
    requires st.mem.hdrs[h].prev != 0 ==> st.mem.hdrs[h].prev in st.mem.words
    requires st.mem.words[h] != 0 ==> st.mem.words[h] in st.mem.hdrs
    ensures BucketOk(Unlinked(st, h, k), c)
  {
    var b, st' := Bucket(st.slots[h].size), Unlinked(st, h, k);
    var l := st.lists[b];
    assert BucketOk(st, b) && BucketOk(st, c);
    UnlinkList(st.mem, st.heads[b], l, k);
    if c == b {
      forall a ensures InBucket(st'.slots, a, c) <==> a in st'.lists[c] {
        assert InBucket(st.slots, a, c) <==> a in l;
        if a in l && a != h {
          var i :| 0 <= i < |l| && l[i] == a;
          assert a == Without(l, k)[if i < k then i else i - 1];
        }
      }
    } else {
      var m := st.lists[c];
      forall x | x in l ensures x !in m {
        assert InBucket(st.slots, x, b) <==> x in l;
        assert InBucket(st.slots, x, c) <==> x in m;
      }
      UnlinkOther(st.mem, h, st.heads[c], m);
      forall a ensures InBucket(st'.slots, a, c) <==> a in st'.lists[c] {
        assert InBucket(st.slots, a, c) <==> a in m;
      }
    }
  }

  lemma UnlinkSlots(p: Params, st: State, h: int, k: int)
    requires Inv(p, st) && h in st.slots && st.slots[h].kind.Free?
    requires 0 <= k < |st.lists[Bucket(st.slots[h].size)]|
    requires st.lists[Bucket(st.slots[h].size)][k] == h
    requires h in st.mem.words && h in st.mem.hdrs
    requires st.mem.hdrs[h].prev != 0 ==> st.mem.hdrs[h].prev in st.mem.words
    requires st.mem.words[h] != 0 ==> st.mem.words[h] in st.mem.hdrs
    ensures SlotsInv(p, Unlinked(st, h, k).mem, Unlinked(st, h, k).slots)
  {
    var b, st' := Bucket(st.slots[h].size), Unlinked(st, h, k);
    var l := st.lists[b];
    assert BucketOk(st, b) && Linked(st.mem, l, k);
    assert st.mem.hdrs[h].prev != 0 ==> InBucket(st.slots, st.mem.hdrs[h].prev, b);
    forall a ensures OnGrid(p, st'.slots, a) && SlotOk(p, st'.mem, st'.slots, a) {
      assert OnGrid(p, st.slots, a) && SlotOk(p, st.mem, st.slots, a);
    }
  }

  // ----- frames

  /** Reservations are unchanged and no fragment_t moved into the cache. */
  lemma SameReserve(p: Params, st: State, st': State)
    requires UnitsInv(p, st)
    requires st'.tops.Keys == st.tops.Keys && st'.units.Keys == st.units.Keys
    requires forall u :: u in st.units ==> st'.units[u].reservedEndPc == st.units[u].reservedEndPc
    requires forall f :: f in st'.mem.frags ==> f in st.mem.frags || OffCache(st, f)
    requires forall u {:trigger UnitOk(p, st', u)} :: UnitOk(p, st', u)
    ensures UnitsInv(p, st')
  {
    forall u, v ensures UnitsApart(st', u, v) {
      assert UnitsApart(st, u, v);
    }
    forall f, u ensures HeapApart(st', f, u) {
      assert HeapApart(st, f, u);
    }
  }

  ghost predicate OffCache(st: State, f: int) {
    f != 0 && forall u {:trigger st.units[u]} :: u in st.units ==> !(u <= f < st.units[u].reservedEndPc)
  }

  lemma SameUnits(p: Params, st: State, st': State)
    requires UnitsInv(p, st)
    requires st'.units == st.units && st'.tops == st.tops
    requires st'.mem.frags.Keys == st.mem.frags.Keys
    ensures UnitsInv(p, st')
  {
    forall u ensures UnitOk(p, st', u) {
      assert UnitOk(p, st, u);
    }
    SameReserve(p, st, st');
  }

  /** Putting a slot in limbo loosens its edges. */
  lemma LimboEdges(st: State, st': State, a: int)
    requires EdgesInv(st.units, st.mem.frags, st.slots) && a in st.slots
    requires st'.units == st.units && st'.slots == Retag(st.slots, a, Limbo)
    requires st'.mem.frags == st.mem.frags
    ensures EdgesInv(st'.units, st'.mem.frags, st'.slots)
  {
    forall x ensures EdgeOk(st'.units, st'.mem.frags, st'.slots, x) && StartOk(st'.mem.frags, st'.slots, x) {
      assert EdgeOk(st.units, st.mem.frags, st.slots, x) && StartOk(st.mem.frags, st.slots, x);
    }
  }

  /** Every slot of the same unit that ends at `a`. */
  ghost predicate Precedes(s: Slots, q: int, a: int) {
    q in s && a in s && End(s, q) == a && s[q].unit == s[a].unit
  }

  // ----- edits of the layout that touch slots in limbo only

  lemma JoinStep(p: Params, st: State, a: int)
    requires Inv(p, st) && a in st.slots && HasNext(st.slots, a)
    requires st.slots[a].kind.Limbo? && st.slots[End(st.slots, a)].kind.Limbo?
    ensures Inv(p, st.(slots := Join(st.slots, a)))
  {
    var st' := st.(slots := Join(st.slots, a));
    var b := End(st.slots, a);
    JoinTiled(st.slots, st.tops, a);
    SameUnits(p, st, st');
    assert OnGrid(p, st.slots, a) && OnGrid(p, st.slots, b);
    AlignedSum(st.slots[a].size, st.slots[b].size, p.align);
    forall x ensures OnGrid(p, st'.slots, x) && SlotOk(p, st'.mem, st'.slots, x) {
      assert OnGrid(p, st.slots, x) && SlotOk(p, st.mem, st.slots, x);
    }
    forall x ensures EdgeOk(st'.units, st'.mem.frags, st'.slots, x) && StartOk(st'.mem.frags, st'.slots, x) {
      assert EdgeOk(st.units, st.mem.frags, st.slots, x) && StartOk(st.mem.frags, st.slots, x);
    }
    SameFree(st, st');
  }

  /** Slots in limbo may come and go without the free lists noticing. */
  lemma SameFree(st: State, st': State)
    requires ListsInv(st)
    requires st'.mem == st.mem && st'.heads == st.heads && st'.lists == st.lists
    requires forall x :: (x in st.slots && st.slots[x].kind.Free?) <==> (x in st'.slots && st'.slots[x].kind.Free?)
    requires forall x :: x in st.slots && x in st'.slots && st.slots[x].kind.Free? ==> st'.slots[x] == st.slots[x]
    ensures ListsInv(st')
  {
    forall b ensures BucketOk(st', b) {
      assert BucketOk(st, b);
      if 0 <= b < 9 {
        forall x ensures InBucket(st'.slots, x, b) <==> x in st'.lists[b] {
          assert InBucket(st.slots, x, b) <==> x in st.lists[b];
        }
      }
    }
  }

  lemma SplitStep(p: Params, st: State, a: int, n: int)
    requires Inv(p, st) && a in st.slots && st.slots[a].kind.Limbo?
    requires 0 < n < st.slots[a].size && n % p.align == 0
    ensures a + n !in st.slots
    ensures Inv(p, st.(slots := Split(st.slots, a, n)))
  {
    var st' := st.(slots := Split(st.slots, a, n));
    SplitTiled(st.slots, st.tops, a, n);
    SameUnits(p, st, st');
    assert OnGrid(p, st.slots, a);
    AlignedSum(a, n, p.align);
    AlignedSum(st.slots[a].size, n, p.align);
    forall x ensures OnGrid(p, st'.slots, x) && SlotOk(p, st'.mem, st'.slots, x) {
      assert OnGrid(p, st.slots, x) && SlotOk(p, st.mem, st.slots, x);
    }
    forall x ensures EdgeOk(st'.units, st'.mem.frags, st'.slots, x) && StartOk(st'.mem.frags, st'.slots, x) {
      assert EdgeOk(st.units, st.mem.frags, st.slots, x) && StartOk(st.mem.frags, st.slots, x);
      assert Apart(st.slots, x, a) && Apart(st.slots, a, x) && Inside(st.slots, st.tops, x);
    }
    SameFree(st, st');
  }

  lemma AppendStep(p: Params, st: State, u: int, n: int)
    requires Inv(p, st) && u in st.units
    requires 0 < n && n % p.align == 0 && st.tops[u] % p.align == 0 && st.tops[u] + n <= st.units[u].endPc
    ensures st.tops[u] !in st.slots
    ensures Inv(p, st.(slots := Append(st.slots, st.tops, u, n), tops := st.tops[u := st.tops[u] + n]))
  {
    var st' := st.(slots := Append(st.slots, st.tops, u, n), tops := st.tops[u := st.tops[u] + n]);
    assert UnitOk(p, st, u);
    forall a | a in st.slots ensures End(st.slots, a) <= st.tops[u] || st.tops[u] + n <= a {
      assert Inside(st.slots, st.tops, a);
      var v := st.slots[a].unit;
      assert UnitOk(p, st, v) && UnitsApart(st, u, v) && UnitsApart(st, v, u);
    }
    AppendTiled(st.slots, st.tops, u, n);
    assert st'.tops.Keys == st.tops.Keys;
    forall v ensures UnitOk(p, st', v) {
      assert UnitOk(p, st, v);
    }
    SameReserve(p, st, st');
    forall x ensures OnGrid(p, st'.slots, x) && SlotOk(p, st'.mem, st'.slots, x) {
      assert OnGrid(p, st.slots, x) && SlotOk(p, st.mem, st.slots, x);
    }
    forall x ensures EdgeOk(st'.units, st'.mem.frags, st'.slots, x) && StartOk(st'.mem.frags, st'.slots, x) {
      assert EdgeOk(st.units, st.mem.frags, st.slots, x) && StartOk(st.mem.frags, st.slots, x);
    }
    SameFree(st, st');
  }

  lemma TruncateStep(p: Params, st: State, a: int)
    requires Inv(p, st) && a in st.slots && st.slots[a].kind.Limbo?
    requires st.slots[a].unit in st.tops && End(st.slots, a) == st.tops[st.slots[a].unit]
    ensures Inv(p, st.(slots := st.slots - {a}, tops := st.tops[st.slots[a].unit := a]))
  {
    var u := st.slots[a].unit;
    var st' := st.(slots := st.slots - {a}, tops := st.tops[u := a]);
    TruncateTiled(st.slots, st.tops, a);
    assert Inside(st.slots, st.tops, a);
    assert st'.tops.Keys == st.tops.Keys;
    forall v ensures UnitOk(p, st', v) {
      assert UnitOk(p, st, v);
    }
    SameReserve(p, st, st');
    forall x ensures OnGrid(p, st'.slots, x) && SlotOk(p, st'.mem, st'.slots, x) {
      assert OnGrid(p, st.slots, x) && SlotOk(p, st.mem, st.slots, x);
    }
    forall x ensures EdgeOk(st'.units, st'.mem.frags, st'.slots, x) && StartOk(st'.mem.frags, st'.slots, x) {
      assert EdgeOk(st.units, st.mem.frags, st.slots, x) && StartOk(st.mem.frags, st.slots, x);
    }
    SameFree(st, st');
  }

  lemma LimboStep(p: Params, st: State, a: int)
    requires Inv(p, st) && a in st.slots && !st.slots[a].kind.Free?
    ensures Inv(p, st.(slots := Retag(st.slots, a, Limbo)))
  {
    var st' := st.(slots := Retag(st.slots, a, Limbo));
    RetagTiled(st.slots, st.tops, a, Limbo);
    SameUnits(p, st, st');
    LimboEdges(st, st', a);
    forall x ensures OnGrid(p, st'.slots, x) && SlotOk(p, st'.mem, st'.slots, x) {
      assert OnGrid(p, st.slots, x) && SlotOk(p, st.mem, st.slots, x);
    }
    SameFree(st, st');
  }

  // ----- putting a slot in limbo on its free list

  function PushMem(m: Mem, a: int, n: int, head: int): Mem
    requires head != 0 ==> head in m.hdrs
  {
    var d := m.hdrs[a := FreeHeader(true, n, 0)];
    Mem(m.words[a := head],
        if head != 0 then d[head := d[head].(prev := a)] else d,
        m.foots[a + n - FOOTER_SIZE := n],
        m.frags)
  }

  ghost function Pushed(st: State, a: int): State
    requires a in st.slots && |st.heads| == |st.lists| == 9
    requires var h := st.heads[Bucket(st.slots[a].size)]; h != 0 ==> h in st.mem.hdrs
  {
    var b := Bucket(st.slots[a].size);
    st.(mem := PushMem(st.mem, a, st.slots[a].size, st.heads[b]),
        heads := st.heads[b := a],
        slots := Retag(st.slots, a, Free),
        lists := st.lists[b := [a] + st.lists[b]])
  }

  /** May the slot at `a` become a free entry between its neighbours? */
  ghost predicate MayFree(st: State, a: int)
    requires a in st.slots
  {
    Small(st.units, st.slots[a].unit) ==>
      && (forall q {:trigger Precedes(st.slots, q, a)} :: Precedes(st.slots, q, a) ==> !st.slots[q].kind.Free?)
      && (HasNext(st.slots, a) ==>
            var n := st.slots[End(st.slots, a)].kind;
            n.Limbo? || IsMarked(st.mem.frags, n))
  }

  lemma PushStep(p: Params, st: State, a: int)
    requires Inv(p, st) && a in st.slots && st.slots[a].kind.Limbo?
    requires MIN_FCACHE_SLOT_SIZE <= st.slots[a].size <= MAX_FREE_ENTRY_SIZE
    requires MayFree(st, a)
    ensures |st.heads| == |st.lists| == 9
    ensures var h := st.heads[Bucket(st.slots[a].size)]; h != 0 ==> h in st.mem.hdrs
    ensures Inv(p, Pushed(st, a))
  {
    var b := Bucket(st.slots[a].size);
    assert BucketOk(st, b) && Linked(st.mem, st.lists[b], 0);
    var st' := Pushed(st, a);
    RetagTiled(st.slots, st.tops, a, Free);
    SameUnits(p, st, st');
    PushSlots(p, st, a);
    forall x ensures EdgeOk(st'.units, st'.mem.frags, st'.slots, x) && StartOk(st'.mem.frags, st'.slots, x) {
      assert EdgeOk(st.units, st.mem.frags, st.slots, x) && StartOk(st.mem.frags, st.slots, x);
      assert Precedes(st.slots, x, a) || !Precedes(st.slots, x, a);
    }
    forall c ensures BucketOk(st', c) {
      if 0 <= c < 9 {
        PushBucket(p, st, a, c);
      }
    }
  }

  lemma PushSlots(p: Params, st: State, a: int)
    requires Inv(p, st) && a in st.slots && st.slots[a].kind.Limbo?
    requires MIN_FCACHE_SLOT_SIZE <= st.slots[a].size <= MAX_FREE_ENTRY_SIZE
    requires var h := st.heads[Bucket(st.slots[a].size)]; h != 0 ==> h in st.mem.hdrs
    ensures SlotsInv(p, Pushed(st, a).mem, Pushed(st, a).slots)
  {
    var b := Bucket(st.slots[a].size);
    var st' := Pushed(st, a);
    assert BucketOk(st, b);
    assert st.heads[b] != 0 ==> InBucket(st.slots, st.heads[b], b);
    forall x ensures OnGrid(p, st'.slots, x) && SlotOk(p, st'.mem, st'.slots, x) {
      assert OnGrid(p, st.slots, x) && SlotOk(p, st.mem, st.slots, x);
      assert Apart(st.slots, x, a) && Apart(st.slots, a, x);
      assert Inside(st.slots, st.tops, x) && Inside(st.slots, st.tops, a);
    }
  }

  lemma PushBucket(p: Params, st: State, a: int, c: int)
    requires Inv(p, st) && a in st.slots && st.slots[a].kind.Limbo? && 0 <= c < 9
    requires var h := st.heads[Bucket(st.slots[a].size)]; h != 0 ==> h in st.mem.hdrs
    ensures BucketOk(Pushed(st, a), c)
  {
    var b, st' := Bucket(st.slots[a].size), Pushed(st, a);
    var l, l' := st.lists[c], st'.lists[c];
    assert BucketOk(st, b) && BucketOk(st, c);
    assert InBucket(st.slots, a, c) <==> a in l;
    assert Inside(st.slots, st.tops, a) && UnitOk(p, st, st.slots[a].unit);
    assert st.heads[b] != 0 ==> InBucket(st.slots, st.heads[b], b);
    assert InBucket(st.slots, st.heads[b], c) <==> st.heads[b] in l;
    forall i ensures Linked(st'.mem, l', i) {
      assert Linked(st.mem, l, i) && Linked(st.mem, l, i - 1);
    }
    forall x ensures InBucket(st'.slots, x, c) <==> x in l' {
      assert InBucket(st.slots, x, c) <==> x in l;
    }
  }

  // ----- marking the fragment that follows a free entry

  ghost function Marked(st: State, f: int, v: bool): State
    requires f in st.mem.frags
  {
    st.(mem := st.mem.(frags := st.mem.frags[f := st.mem.frags[f].(followsFree := v)]))
  }

  /** The mark of the fragment after a slot in limbo may be set and cleared. */
  lemma MarkStep(p: Params, st: State, a: int, v: bool)
    requires Inv(p, st) && a in st.slots && st.slots[a].kind.Limbo? && HasNext(st.slots, a)
    requires st.slots[End(st.slots, a)].kind.Live?
    ensures st.slots[End(st.slots, a)].kind.node in st.mem.frags
    ensures Inv(p, Marked(st, st.slots[End(st.slots, a)].kind.node, v))
  {
    var b := End(st.slots, a);
    var f := st.slots[b].kind.node;
    assert SlotOk(p, st.mem, st.slots, b);
    var st' := Marked(st, f, v);
    SameUnits(p, st, st');
    assert Inside(st.slots, st.tops, a);
    forall x ensures OnGrid(p, st'.slots, x) && SlotOk(p, st'.mem, st'.slots, x) {
      assert OnGrid(p, st.slots, x) && SlotOk(p, st.mem, st.slots, x);
    }
    forall x ensures EdgeOk(st'.units, st'.mem.frags, st'.slots, x) && StartOk(st'.mem.frags, st'.slots, x) {
      MarkEdge(p, st, a, f, v, x);
    }
    SameLists(st, st');
  }

  lemma MarkEdge(p: Params, st: State, a: int, f: int, v: bool, x: int)
    requires Inv(p, st) && a in st.slots && st.slots[a].kind.Limbo? && HasNext(st.slots, a)
    requires st.slots[End(st.slots, a)].kind == Live(f) && f in st.mem.frags
    ensures EdgeOk(st.units, Marked(st, f, v).mem.frags, st.slots, x)
    ensures StartOk(Marked(st, f, v).mem.frags, st.slots, x)
  {
    var b := End(st.slots, a);
    assert EdgeOk(st.units, st.mem.frags, st.slots, x) && StartOk(st.mem.frags, st.slots, x);
    assert SlotOk(p, st.mem, st.slots, x) && SlotOk(p, st.mem, st.slots, b);
    assert Inside(st.slots, st.tops, a);
    if x in st.slots && HasNext(st.slots, x) && x != a {
      var y := End(st.slots, x);
      assert Apart(st.slots, x, a) && Apart(st.slots, a, x) && Inside(st.slots, st.tops, x);
      assert y != b;
      assert SlotOk(p, st.mem, st.slots, y);
      assert st.slots[y].kind != Live(f);
    }
  }

  lemma SameLists(st: State, st': State)
    requires ListsInv(st)
    requires st'.slots == st.slots && st'.heads == st.heads && st'.lists == st.lists
    requires st'.mem.words == st.mem.words && st'.mem.hdrs == st.mem.hdrs
    ensures ListsInv(st')
  {
    forall b ensures BucketOk(st', b) {
      assert BucketOk(st, b);
      if 0 <= b < 9 {
        forall i ensures Linked(st'.mem, st.lists[b], i) {
          assert Linked(st.mem, st.lists[b], i);
        }
      }
    }
  }

  // ----- giving a slot in limbo to a fragment

  /** Everything the allocator wrote in [lo, hi) is gone. */
  function Scrub<T>(m: map<int, T>, lo: int, hi: int): map<int, T> {
    map k | k in m && !(lo <= k < hi) :: m[k]
  }

  function PlaceMem(m: Mem, a: int, n: int, f: int, frag: Fragment): Mem {
    Mem(Scrub(m.words, a, a + n)[a := f], Scrub(m.hdrs, a, a + n), Scrub(m.foots, a, a + n),
        m.frags[f := frag])
  }

  ghost function Placed(st: State, a: int, f: int, frag: Fragment): State
    requires a in st.slots
  {
    st.(mem := PlaceMem(st.mem, a, st.slots[a].size, f, frag), slots := Retag(st.slots, a, Live(f)))
  }

  /** May fragment `frag` stand at `a` between its neighbours? */
  ghost predicate MayPlace(st: State, a: int, frag: Fragment)
    requires a in st.slots
  {
    && (a == st.slots[a].unit ==> !frag.followsFree)
    && (forall q {:trigger Precedes(st.slots, q, a)} :: Precedes(st.slots, q, a) ==>
          && (st.slots[q].kind.Live? ==> !frag.followsFree)
          && (Small(st.units, st.slots[a].unit) && st.slots[q].kind.Free? ==> frag.followsFree))
    && (HasNext(st.slots, a) ==> !IsMarked(st.mem.frags, st.slots[End(st.slots, a)].kind))
  }

  /** `f` is not the fragment of any slot. */
  ghost predicate Unplaced(s: Slots, f: int) {
    forall x {:trigger s[x]} :: x in s ==> s[x].kind != Live(f)
  }

  lemma PlaceStep(p: Params, st: State, a: int, f: int, frag: Fragment)
    requires Inv(p, st) && a in st.slots && st.slots[a].kind.Limbo?
    requires FragOk(p, frag) && HdrStart(p, frag) == a && SlotSize(p, frag) == st.slots[a].size
    requires MIN_FCACHE_SLOT_SIZE <= st.slots[a].size
    requires Unplaced(st.slots, f) && OffCache(st, f) && MayPlace(st, a, frag)
    ensures Inv(p, Placed(st, a, f, frag))
  {
    var st' := Placed(st, a, f, frag);
    RetagTiled(st.slots, st.tops, a, Live(f));
    forall v ensures UnitOk(p, st', v) {
      assert UnitOk(p, st, v);
    }
    SameReserve(p, st, st');
    PlaceSlots(p, st, a, f, frag);
    forall x ensures EdgeOk(st'.units, st'.mem.frags, st'.slots, x) && StartOk(st'.mem.frags, st'.slots, x) {
      assert Precedes(st.slots, x, a) || !Precedes(st.slots, x, a);
      PlaceEdge(st.units, st.tops, st.mem.frags, st.slots, a, f, frag, x);
    }
    forall c ensures BucketOk(st', c) {
      if 0 <= c < 9 {
        PlaceBucket(p, st, a, f, frag, c);
      }
    }
  }

  lemma PlaceSlots(p: Params, st: State, a: int, f: int, frag: Fragment)
    requires Inv(p, st) && a in st.slots && st.slots[a].kind.Limbo?
    requires f != 0 && FragOk(p, frag) && HdrStart(p, frag) == a && SlotSize(p, frag) == st.slots[a].size
    requires MIN_FCACHE_SLOT_SIZE <= st.slots[a].size
    requires Unplaced(st.slots, f)
    ensures SlotsInv(p, Placed(st, a, f, frag).mem, Placed(st, a, f, frag).slots)
  {
    var st' := Placed(st, a, f, frag);
    forall x ensures OnGrid(p, st'.slots, x) {
      assert OnGrid(p, st.slots, x);
    }
    forall x ensures SlotOk(p, st'.mem, st'.slots, x) {
      if x in st.slots && x != a {
        assert SlotOk(p, st.mem, st.slots, x);
        assert Apart(st.slots, x, a) && Apart(st.slots, a, x);
        assert Inside(st.slots, st.tops, x) && Inside(st.slots, st.tops, a);
        assert st.slots[x].kind != Live(f);
      }
    }
  }

  lemma PlaceEdge(us: map<int, Unit>, t: Tops, fr: map<int, Fragment>, s: Slots, a: int, f: int, frag: Fragment, x: int)
    requires Tiled(s, t) && EdgesInv(us, fr, s) && a in s
    requires Unplaced(s, f)
    requires a == s[a].unit ==> !frag.followsFree
    requires Precedes(s, x, a) && s[x].kind.Live? ==> !frag.followsFree
    requires Precedes(s, x, a) && s[x].kind.Free? && Small(us, s[a].unit) ==> frag.followsFree
    requires HasNext(s, a) ==> !IsMarked(fr, s[End(s, a)].kind)
    ensures EdgeOk(us, fr[f := frag], Retag(s, a, Live(f)), x)
    ensures StartOk(fr[f := frag], Retag(s, a, Live(f)), x)
  {
    assert EdgeOk(us, fr, s, x) && StartOk(fr, s, x);
    assert Inside(s, t, a) && Inside(s, t, x);
    if x in s {
      assert s[x].kind != Live(f);
      if HasNext(s, x) {
        assert s[End(s, x)].kind != Live(f);
      }
    }
  }

  lemma PlaceBucket(p: Params, st: State, a: int, f: int, frag: Fragment, c: int)
    requires Inv(p, st) && a in st.slots && st.slots[a].kind.Limbo? && 0 <= c < 9
    ensures BucketOk(Placed(st, a, f, frag), c)
  {
    var st' := Placed(st, a, f, frag);
    var l := st.lists[c];
    assert BucketOk(st, c) && Inside(st.slots, st.tops, a);
    forall x ensures InBucket(st'.slots, x, c) <==> x in l {
      assert InBucket(st.slots, x, c) <==> x in l;
    }
    forall i ensures Linked(st'.mem, l, i) {
      assert Linked(st.mem, l, i);
      if 0 <= i < |l| {
        assert InBucket(st.slots, l[i], c);
        assert Apart(st.slots, l[i], a) && Apart(st.slots, a, l[i]) && Inside(st.slots, st.tops, l[i]);
      }
    }
  }

  // ----- resizing a live fragment's slot

  /** A fragment's fields change without moving its slot. */
  ghost predicate SamePlace(p: Params, f: Fragment, g: Fragment) {
    && HdrStart(p, g) == HdrStart(p, f)
    && g.followsFree == f.followsFree
  }

  ghost function Rewritten(st: State, f: int, frag: Fragment): State {
    st.(mem := st.mem.(frags := st.mem.frags[f := frag]))
  }

  lemma SameMarks(p: Params, st: State, st': State, f: int, frag: Fragment)
    requires UnitsInv(p, st) && EdgesInv(st.units, st.mem.frags, st.slots) && ListsInv(st)
    requires f in st.mem.frags && frag.followsFree == st.mem.frags[f].followsFree
    requires st' == Rewritten(st, f, frag)
    ensures UnitsInv(p, st') && EdgesInv(st'.units, st'.mem.frags, st'.slots) && ListsInv(st')
  {
    SameUnits(p, st, st');
    SameLists(st, st');
    forall x ensures EdgeOk(st'.units, st'.mem.frags, st'.slots, x) && StartOk(st'.mem.frags, st'.slots, x) {
      assert EdgeOk(st.units, st.mem.frags, st.slots, x) && StartOk(st.mem.frags, st.slots, x);
    }
  }

  lemma FragStep(p: Params, st: State, a: int, f: int, frag: Fragment)
    requires Inv(p, st) && a in st.slots && st.slots[a].kind == Live(f) && f in st.mem.frags
    requires FragOk(p, frag) && SamePlace(p, st.mem.frags[f], frag)
    requires SlotSize(p, frag) == st.slots[a].size
    ensures Inv(p, Rewritten(st, f, frag))
  {
    var st' := Rewritten(st, f, frag);
    SameMarks(p, st, st', f, frag);
    assert SlotOk(p, st.mem, st.slots, a);
    forall x ensures SlotOk(p, st'.mem, st'.slots, x) {
      assert SlotOk(p, st.mem, st.slots, x);
    }
  }

  /** The fragment gives up the tail of its slot. */
  lemma ShrinkStep(p: Params, st: State, a: int, n: int, f: int, frag: Fragment)
    requires Inv(p, st) && a in st.slots && st.slots[a].kind == Live(f) && f in st.mem.frags
    requires MIN_FCACHE_SLOT_SIZE <= n < st.slots[a].size && n % p.align == 0
    requires FragOk(p, frag) && SamePlace(p, st.mem.frags[f], frag) && SlotSize(p, frag) == n
    ensures a + n !in st.slots
    ensures Inv(p, Rewritten(st, f, frag).(slots := Split(st.slots, a, n)))
  {
    var st1 := st.(slots := Split(st.slots, a, n));
    var st' := Rewritten(st1, f, frag);
    SplitTiled(st.slots, st.tops, a, n);
    SameUnits(p, st, st1);
    SameFree(st, st1);
    forall x ensures EdgeOk(st1.units, st1.mem.frags, st1.slots, x) && StartOk(st1.mem.frags, st1.slots, x) {
      assert EdgeOk(st.units, st.mem.frags, st.slots, x) && StartOk(st.mem.frags, st.slots, x);
      assert Apart(st.slots, x, a) && Apart(st.slots, a, x) && Inside(st.slots, st.tops, x);
    }
    SameMarks(p, st1, st', f, frag);
    assert SlotOk(p, st.mem, st.slots, a) && OnGrid(p, st.slots, a);
    AlignedSum(a, n, p.align);
    AlignedSum(st.slots[a].size, n, p.align);
    forall x ensures OnGrid(p, st'.slots, x) && SlotOk(p, st'.mem, st'.slots, x) {
      assert OnGrid(p, st.slots, x) && SlotOk(p, st.mem, st.slots, x);
    }
  }

  /** The unit's last fragment takes the next `k` bytes. */
  lemma GrowStep(p: Params, st: State, a: int, k: int, f: int, frag: Fragment)
    requires Inv(p, st) && a in st.slots && st.slots[a].kind == Live(f) && f in st.mem.frags
    requires st.slots[a].unit in st.units && End(st.slots, a) == st.tops[st.slots[a].unit]
    requires 0 < k && k % p.align == 0 && End(st.slots, a) + k <= st.units[st.slots[a].unit].endPc
    requires FragOk(p, frag) && SamePlace(p, st.mem.frags[f], frag) && SlotSize(p, frag) == st.slots[a].size + k
    ensures Inv(p, Rewritten(Grown(st, a, k), f, frag))
  {
    var st1 := Grown(st, a, k);
    GrowLayout(p, st, a, k);
    var st' := Rewritten(st1, f, frag);
    SameMarks(p, st1, st', f, frag);
    assert OnGrid(p, st.slots, a) && SlotOk(p, st.mem, st.slots, a);
    AlignedSum(st.slots[a].size, k, p.align);
    forall x ensures OnGrid(p, st'.slots, x) && SlotOk(p, st'.mem, st'.slots, x) {
      assert OnGrid(p, st.slots, x) && SlotOk(p, st.mem, st.slots, x);
    }
  }

  ghost function Grown(st: State, a: int, k: int): State
    requires a in st.slots
  {
    st.(slots := st.slots[a := st.slots[a].(size := st.slots[a].size + k)],
        tops := st.tops[st.slots[a].unit := End(st.slots, a) + k])
  }

  lemma GrowLayout(p: Params, st: State, a: int, k: int)
    requires Inv(p, st) && a in st.slots && st.slots[a].kind.Live?
    requires st.slots[a].unit in st.units && End(st.slots, a) == st.tops[st.slots[a].unit]
    requires 0 < k && k % p.align == 0 && End(st.slots, a) + k <= st.units[st.slots[a].unit].endPc
    ensures var st1 := Grown(st, a, k);
      && Tiled(st1.slots, st1.tops) && UnitsInv(p, st1) && ListsInv(st1)
      && EdgesInv(st1.units, st1.mem.frags, st1.slots)
  {
    var u := st.slots[a].unit;
    assert OnGrid(p, st.slots, a);
    AlignedSum(a, st.slots[a].size, p.align);
    AppendStep(p, st, u, k);
    var st0 := st.(slots := Append(st.slots, st.tops, u, k), tops := st.tops[u := st.tops[u] + k]);
    JoinTiled(st0.slots, st0.tops, a);
    var st1 := Grown(st, a, k);
    assert st1 == st0.(slots := Join(st0.slots, a));
    SameUnits(p, st0, st1);
    SameFree(st0, st1);
    forall x ensures EdgeOk(st1.units, st1.mem.frags, st1.slots, x) && StartOk(st1.mem.frags, st1.slots, x) {
      assert EdgeOk(st.units, st.mem.frags, st.slots, x) && StartOk(st.mem.frags, st.slots, x);
      assert Inside(st.slots, st.tops, a) && Inside(st1.slots, st1.tops, st1.tops[u]);
    }
  }

  /** A fragment_t that no slot points to may appear on the heap. */
  lemma AllocStep(p: Params, st: State, f: int, frag: Fragment)
    requires Inv(p, st) && f !in st.mem.frags && OffCache(st, f)
    ensures Unplaced(st.slots, f)
    ensures Inv(p, Rewritten(st, f, frag))
  {
    var st' := Rewritten(st, f, frag);
    forall x | x in st.slots ensures st.slots[x].kind != Live(f) {
      assert SlotOk(p, st.mem, st.slots, x);
    }
    forall u ensures UnitOk(p, st', u) {
      assert UnitOk(p, st, u);
    }
    SameReserve(p, st, st');
    SameLists(st, st');
    forall x ensures SlotOk(p, st'.mem, st'.slots, x) {
      assert SlotOk(p, st.mem, st.slots, x);
    }
    forall x ensures EdgeOk(st'.units, st'.mem.frags, st'.slots, x) && StartOk(st'.mem.frags, st'.slots, x) {
      assert EdgeOk(st.units, st.mem.frags, st.slots, x) && StartOk(st.mem.frags, st.slots, x);
      if x in st.slots {
        assert st.slots[x].kind != Live(f);
        if HasNext(st.slots, x) {
          assert st.slots[End(st.slots, x)].kind != Live(f);
        }
      }
    }
  }

  // ----- units

  /** Moving a unit's append point or committed end leaves the slots alone. */
  lemma UnitStep(p: Params, st: State, u: int, v: Unit)
    requires Inv(p, st) && u in st.units
    requires v.reservedEndPc == st.units[u].reservedEndPc
    requires st.tops[u] <= v.endPc && u <= v.curPc <= v.endPc <= v.reservedEndPc
    requires u < v.endPc && v.endPc % PAGE_SIZE == 0
    ensures Inv(p, st.(units := st.units[u := v]))
  {
    var st' := st.(units := st.units[u := v]);
    forall x ensures UnitOk(p, st', x) {
      assert UnitOk(p, st, x);
    }
    SameReserve(p, st, st');
    forall x ensures EdgeOk(st'.units, st'.mem.frags, st'.slots, x) && StartOk(st'.mem.frags, st'.slots, x) {
      assert EdgeOk(st.units, st.mem.frags, st.slots, x) && StartOk(st.mem.frags, st.slots, x);
    }
    SameFree(st, st');
  }

  ghost function Retracted(st: State, a: int, n: int, f: int, frag: Fragment): State
    requires a in st.slots && st.slots[a].unit in st.units
  {
    var u := st.slots[a].unit;
    Rewritten(st, f, frag).(
      slots := st.slots[a := st.slots[a].(size := n)],
      tops := st.tops[u := a + n],
      units := st.units[u := st.units[u].(curPc := a + n, full := false)])
  }

  /** The unit's last fragment shrinks and the append point moves back to its new end. */
  lemma RetractStep(p: Params, st: State, a: int, n: int, f: int, frag: Fragment)
    requires Inv(p, st) && a in st.slots && st.slots[a].kind == Live(f) && f in st.mem.frags
    requires MIN_FCACHE_SLOT_SIZE <= n < st.slots[a].size && n % p.align == 0
    requires FragOk(p, frag) && SamePlace(p, st.mem.frags[f], frag) && SlotSize(p, frag) == n
    requires st.slots[a].unit in st.tops && End(st.slots, a) == st.tops[st.slots[a].unit]
    ensures st.slots[a].unit in st.units
    ensures Inv(p, Retracted(st, a, n, f, frag))
  {
    var u := st.slots[a].unit;
    ShrinkStep(p, st, a, n, f, frag);
    var st1 := Rewritten(st, f, frag).(slots := Split(st.slots, a, n));
    TruncateStep(p, st1, a + n);
    var st2 := st1.(slots := st1.slots - {a + n}, tops := st1.tops[u := a + n]);
    assert st2.slots == st.slots[a := st.slots[a].(size := n)];
    assert UnitOk(p, st, u) && Inside(st.slots, st.tops, a);
    UnitStep(p, st2, u, st.units[u].(curPc := a + n, full := false));
    assert Retracted(st, a, n, f, frag) == st2.(units := st2.units[u := st.units[u].(curPc := a + n, full := false)]);
  }

  /** Freeing the record of a fragment is harmless exactly when no slot points at it. */
  lemma FreeRecordStep(p: Params, st: State, f: int)
    requires Inv(p, st) && f in st.mem.frags
    ensures Inv(p, st.(mem := st.mem.(frags := st.mem.frags - {f}))) <==> Unplaced(st.slots, f)
  {
    var st' := st.(mem := st.mem.(frags := st.mem.frags - {f}));
    if Unplaced(st.slots, f) {
      forall u ensures UnitOk(p, st', u) {
        assert UnitOk(p, st, u);
      }
      forall u, v ensures UnitsApart(st', u, v) {
        assert UnitsApart(st, u, v);
      }
      forall g, u ensures HeapApart(st', g, u) {
        assert HeapApart(st, g, u);
      }
      forall x ensures SlotOk(p, st'.mem, st'.slots, x) {
        assert SlotOk(p, st.mem, st.slots, x);
      }
      forall x ensures EdgeOk(st'.units, st'.mem.frags, st'.slots, x) && StartOk(st'.mem.frags, st'.slots, x) {
        assert EdgeOk(st.units, st.mem.frags, st.slots, x) && StartOk(st.mem.frags, st.slots, x);
      }
      forall c ensures BucketOk(st', c) {
        assert BucketOk(st, c);
        if 0 <= c < 9 {
          forall i ensures Linked(st'.mem, st'.lists[c], i) {
            assert Linked(st.mem, st.lists[c], i);
          }
        }
      }
    } else {
      var x :| x in st.slots && st.slots[x].kind == Live(f);
      assert !SlotOk(p, st'.mem, st'.slots, x);
    }
  }

  /** A fresh, empty unit. */
  ghost predicate Grantable(st: State, u: int, v: Unit) {
    && 0 < u && u % PAGE_SIZE == 0
    && v.curPc == u < v.endPc <= v.reservedEndPc
    && v.endPc % PAGE_SIZE == 0 && v.reservedEndPc % PAGE_SIZE == 0
    && !v.full
    && (forall w {:trigger st.units[w]} :: w in st.units ==> st.units[w].reservedEndPc <= u || v.reservedEndPc <= w)
    && (forall f {:trigger st.mem.frags[f]} :: f in st.mem.frags ==> !(u <= f < v.reservedEndPc))
  }

  lemma GrantStep(p: Params, st: State, u: int, v: Unit)
    requires Inv(p, st) && Grantable(st, u, v)
    ensures u !in st.units
    ensures Inv(p, st.(units := st.units[u := v], tops := st.tops[u := u]))
  {
    var st' := st.(units := st.units[u := v], tops := st.tops[u := u]);
    assert u !in st.units by {
      assert UnitOk(p, st, u);
    }
    assert st'.tops.Keys == st'.units.Keys;
    forall x ensures UnitOk(p, st', x) {
      assert UnitOk(p, st, x);
    }
    forall x, y ensures UnitsApart(st', x, y) {
      assert UnitsApart(st, x, y) && UnitOk(p, st, x) && UnitOk(p, st, y);
    }
    forall x, y ensures HeapApart(st', x, y) {
      assert HeapApart(st, x, y);
    }
    forall x
      ensures Inside(st'.slots, st'.tops, x) && Chained(st'.slots, st'.tops, x) && Anchored(st'.slots, st'.tops, x)
    {
      assert Inside(st.slots, st.tops, x) && Chained(st.slots, st.tops, x) && Anchored(st.slots, st.tops, x);
    }
    forall x ensures EdgeOk(st'.units, st'.mem.frags, st'.slots, x) && StartOk(st'.mem.frags, st'.slots, x) {
      assert EdgeOk(st.units, st.mem.frags, st.slots, x) && StartOk(st.mem.frags, st.slots, x)
        && Inside(st.slots, st.tops, x);
    }
    SameFree(st, st');
  }

  // ----- facts the operations rely on

  /** The in-memory discriminator: at a slot boundary, looking through the first word tells a
      free entry from a fragment, although for a free entry it inspects the entry's successor
      in the free list. */
  lemma Discriminates(p: Params, st: State, a: int)
    requires Inv(p, st) && a in st.slots && !st.slots[a].kind.Limbo?
    ensures a in st.mem.words
    ensures var w := st.mem.words[a]; w == 0 || w in st.mem.frags || w in st.mem.hdrs
    ensures FragIsFreeList(st.mem, st.mem.words[a]) <==> st.slots[a].kind.Free?
  {
    assert SlotOk(p, st.mem, st.slots, a);
    if st.slots[a].kind.Free? {
      var b := Bucket(st.slots[a].size);
      var l := st.lists[b];
      assert BucketOk(st, b) && InBucket(st.slots, a, b);
      var i :| 0 <= i < |l| && l[i] == a;
      assert Linked(st.mem, l, i);
      if i + 1 < |l| {
        var n := l[i + 1];
        assert InBucket(st.slots, n, b) && SlotOk(p, st.mem, st.slots, n);
        assert Inside(st.slots, st.tops, n);
        assert UnitOk(p, st, st.slots[n].unit) && HeapApart(st, n, st.slots[n].unit);
      }
    }
  }

  /** Two neighbouring slots fit in their unit's reservation together. */
  lemma NeighboursFit(p: Params, st: State, a: int)
    requires Inv(p, st) && a in st.slots && HasNext(st.slots, a)
    ensures Small(st.units, st.slots[a].unit) ==>
              st.slots[a].size + st.slots[End(st.slots, a)].size <= MAX_FREE_ENTRY_SIZE
  {
    assert Inside(st.slots, st.tops, a) && Inside(st.slots, st.tops, End(st.slots, a));
    assert UnitOk(p, st, st.slots[a].unit);
  }

  /** At most one slot ends where another begins. */
  lemma OnePredecessor(s: Slots, t: Tops, q: int, r: int, a: int)
    requires Tiled(s, t) && Precedes(s, q, a) && Precedes(s, r, a)
    ensures q == r
  {
    assert Inside(s, t, q) && Inside(s, t, r) && Apart(s, q, r) && Apart(s, r, q);
  }
}
