/**
  What the invariant of a shared cache means.
 */
module SharedTheorems {
  import opened Layout
  import opened Lists
  import opened SharedState
  import opened SharedSteps
  import opened SharedSpec
  import opened SharedMarks

  ghost predicate NoLimbo(s: Slots) {
    forall a {:trigger s[a]} :: a in s ==> !s[a].kind.Limbo?
  }

  /** Where a free slot is listed. */
  ghost predicate ListedAt(st: State, a: int, b: int, k: int) {
    0 <= b < |st.lists| && 0 <= k < |st.lists[b]| && st.lists[b][k] == a
  }

  /** The free lists hold exactly the free slots, once each and each in its size's list, and every
      entry's links name its neighbours. */
  lemma FreeListsExact(p: Params, st: State, a: int) returns (b: int, k: int)
    requires Inv(p, st)
    ensures a in st.slots && st.slots[a].kind.Free? ==>
              && ListedAt(st, a, b, k) && b == Bucket(st.slots[a].size)
              && (forall c, i :: ListedAt(st, a, c, i) ==> c == b && i == k)
              && a in st.mem.words && st.mem.words[a] == At(st.lists[b], k + 1)
              && a in st.mem.hdrs && st.mem.hdrs[a].prev == At(st.lists[b], k - 1)
    ensures !(a in st.slots && st.slots[a].kind.Free?) ==> forall c, i :: !ListedAt(st, a, c, i)
  {
    b, k := 0, 0;
    forall c, i | ListedAt(st, a, c, i) ensures InBucket(st.slots, a, c) {
      assert BucketOk(st, c) && a in st.lists[c];
    }
    if a in st.slots && st.slots[a].kind.Free? {
      b := Bucket(st.slots[a].size);
      assert BucketOk(st, b) && InBucket(st.slots, a, b);
      k :| 0 <= k < |st.lists[b]| && st.lists[b][k] == a;
      assert Linked(st.mem, st.lists[b], k);
    }
  }

  /** The boundary tags agree with the slots and everything lies on the alignment grid. */
  lemma BoundaryTags(p: Params, st: State, a: int)
    requires Inv(p, st) && a in st.slots
    ensures a % p.align == 0 && st.slots[a].size % p.align == 0
    ensures st.slots[a].kind.Free? ==>
              && a in st.mem.hdrs && st.mem.hdrs[a].size == st.slots[a].size
              && End(st.slots, a) - FOOTER_SIZE in st.mem.foots
              && st.mem.foots[End(st.slots, a) - FOOTER_SIZE] == st.slots[a].size
    ensures st.slots[a].kind.Live? ==>
              var f := st.slots[a].kind.node;
              f in st.mem.frags && HdrStart(p, st.mem.frags[f]) == a && SlotSize(p, st.mem.frags[f]) == st.slots[a].size
                && 0 <= st.mem.frags[f].extra <= 255
  {
    assert OnGrid(p, st.slots, a) && SlotOk(p, st.mem, st.slots, a);
  }

  ghost predicate Holds(s: Slots, u: int, pc: int, a: int) {
    a in s && s[a].unit == u && a <= pc < End(s, a)
  }

  /** The slots of a unit partition it up to its append point: each address lies in exactly one, and
      walking them from the unit's start accounts for every byte. */
  lemma UnitPartitioned(p: Params, st: State, u: int, pc: int) returns (a: int)
    requires Inv(p, st) && Settled(st.units, st.tops) && u in st.units && u <= pc < st.units[u].curPc
    ensures Holds(st.slots, u, pc, a) && forall b :: Holds(st.slots, u, pc, b) ==> b == a
    ensures u in st.tops && Tiled(st.slots, st.tops) && u in st.slots && st.slots[u].unit == u
    ensures Bytes(st.slots, Walk(st.slots, st.tops, u, u)) == st.units[u].curPc - u
  {
    UnitFacts(p, st, u);
    hide Inv;
    assert Anchored(st.slots, st.tops, u);
    a := SlotOfByte(st.slots, st.tops, u, pc);
    WalkBytes(st.slots, st.tops, u, u);
  }

  /** A marked fragment follows a free entry, whatever the size of its unit. */
  lemma MarkedFollowsFree(p: Params, st: State, a: int) returns (q: int)
    requires Inv(p, st) && NoLimbo(st.slots) && a in st.slots && IsMarked(st.mem.frags, st.slots[a].kind)
    ensures Precedes(st.slots, q, a) && st.slots[q].kind.Free?
  {
    q := MarkMeans(st.units, st.mem.frags, st.slots, st.tops, a, st.slots[a].kind.node);
  }

  /** In a unit no larger than the largest free entry no two free slots touch, a fragment is marked
      exactly when the slot before it is free, and no free slot touches the append point as long as
      the unit can still take fragments. */
  lemma Coalesced(p: Params, st: State, live: seq<int>, q: int, a: int)
    requires Inv(p, st) && NoLimbo(st.slots) && AppendClear(st.units, live, st.slots)
    requires Precedes(st.slots, q, a) && Small(st.units, st.slots[q].unit)
    ensures !(st.slots[q].kind.Free? && st.slots[a].kind.Free?)
    ensures st.slots[a].kind.Live? ==> (IsMarked(st.mem.frags, st.slots[a].kind) <==> st.slots[q].kind.Free?)
    ensures |live| > 0 && Small(st.units, live[0]) && !UsedUp(st.units[live[0]]) ==>
              forall x :: x in st.slots && st.slots[x].unit == live[0] && st.slots[x].kind.Free? ==>
                End(st.slots, x) != st.units[live[0]].curPc
  {
    assert Inside(st.slots, st.tops, q) && EdgeOk(st.units, st.mem.frags, st.slots, q);
    if |live| > 0 && Small(st.units, live[0]) && !UsedUp(st.units[live[0]]) {
      forall x | x in st.slots && st.slots[x].unit == live[0] && st.slots[x].kind.Free?
        ensures End(st.slots, x) != st.units[live[0]].curPc
      {
        assert !EndsAt(st.slots, live[0], st.units[live[0]].curPc, x);
      }
    }
  }

  /** What the consistency check of the free lists asserts of the entry at `a`: the slot after it is a marked
      fragment, or an entry it could not be merged with. */
  ghost predicate PassesCheck(st: State, a: int) {
    a in st.slots && st.slots[a].kind.Free? && HasNext(st.slots, a) ==>
      var n := st.slots[End(st.slots, a)];
      IsMarked(st.mem.frags, n.kind) || (n.kind.Free? && st.slots[a].size + n.size > MAX_FREE_ENTRY_SIZE)
  }

  /** The check passes exactly when the marks are exact and entries that touch are too large to be merged. */
  lemma FreeListCheck(p: Params, st: State)
    requires Inv(p, st) && NoLimbo(st.slots)
    ensures (forall a {:trigger PassesCheck(st, a)} :: PassesCheck(st, a)) <==>
            MarksExact(st.mem.frags, st.slots) && AllApart(st.slots)
  {
    MarksAre(p, st);
    var fr, s := st.mem.frags, st.slots;
    if forall a {:trigger PassesCheck(st, a)} :: PassesCheck(st, a) {
      forall q ensures FreeEdge(fr, s, q) && FreeApart(s, q) {
        assert PassesCheck(st, q);
      }
    }
    if AllMarked(fr, s) && AllApart(s) {
      forall a ensures PassesCheck(st, a) {
        assert FreeEdge(fr, s, a) && FreeApart(s, a);
      }
    }
  }
}
