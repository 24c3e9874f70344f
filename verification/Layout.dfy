/**
  The physical layout of a code cache: contiguous slots inside units.

  A unit is named by its start address. `tops[u]` is the address up to which unit `u` is
  divided into slots; in a quiescent cache it is the unit's `cur_pc`. The map from slot
  addresses to slots is constrained pointwise, so that each edit of the layout (split, join,
  append, truncate) has one short preservation proof.
 */
module Layout {
  import opened Alignment

  const PAGE_SIZE := 4096
  /** The back-pointer in front of every fragment. */
  const HEADER_SIZE := 8
  /** A free-list header of 24 bytes (next, flags, size, prev) and a footer of 2; the same minimum
      holds for private caches. */
  const MIN_FCACHE_SLOT_SIZE := 26

  /** `Live(node)`: the slot's first word points at `node`. `Limbo`: claimed by an operation in
      progress, neither on a free list nor owned by a fragment. */
  datatype Kind = Free | Live(node: int) | Limbo

  /** The fields of a unit that is keyed by its start_pc: the append point, the end of what is
      committed and the end of what is reserved. */
  datatype Unit = Unit(curPc: int, endPc: int, reservedEndPc: int, full: bool)

  datatype Slot = Slot(size: int, unit: int, kind: Kind)

  type Slots = map<int, Slot>
  type Tops = map<int, int>

  ghost function End(s: Slots, a: int): int
    requires a in s
  {
    a + s[a].size
  }

  /** The slot at `a` lies inside the divided part of its unit. */
  ghost predicate Inside(s: Slots, t: Tops, a: int) {
    a in s ==>
      && 0 < s[a].size
      && s[a].unit in t
      && s[a].unit <= a
      && End(s, a) <= t[s[a].unit]
  }

  ghost predicate Apart(s: Slots, a: int, b: int) {
    a in s && b in s && a < b ==> End(s, a) <= b
  }

  /** A slot is followed by another slot of its unit or ends the divided part. */
  ghost predicate Chained(s: Slots, t: Tops, a: int) {
    a in s && s[a].unit in t ==>
      || End(s, a) == t[s[a].unit]
      || HasNext(s, a)
  }

  ghost predicate HasNext(s: Slots, a: int)
    requires a in s
  {
    End(s, a) in s && s[End(s, a)].unit == s[a].unit
  }

  /** A unit's first slot, if it has any, starts at the unit's start. */
  ghost predicate Anchored(s: Slots, t: Tops, u: int) {
    u in t ==> u <= t[u] && (u == t[u] || (u in s && s[u].unit == u))
  }

  ghost predicate Tiled(s: Slots, t: Tops) {
    && (forall a {:trigger Inside(s, t, a)} :: Inside(s, t, a))
    && (forall a, b {:trigger Apart(s, a, b)} :: Apart(s, a, b))
    && (forall a {:trigger Chained(s, t, a)} :: Chained(s, t, a))
    && (forall u {:trigger Anchored(s, t, u)} :: Anchored(s, t, u))
  }

  // ----- edits

  ghost function Retag(s: Slots, a: int, k: Kind): Slots
    requires a in s
  {
    s[a := s[a].(kind := k)]
  }

  ghost function Split(s: Slots, a: int, n: int): Slots
    requires a in s
  {
    s[a := s[a].(size := n)][a + n := Slot(s[a].size - n, s[a].unit, Limbo)]
  }

  ghost function Join(s: Slots, a: int): Slots
    requires a in s && End(s, a) in s
  {
    s[a := s[a].(size := s[a].size + s[End(s, a)].size)] - {End(s, a)}
  }

  ghost function Append(s: Slots, t: Tops, u: int, n: int): Slots
    requires u in t
  {
    s[t[u] := Slot(n, u, Limbo)]
  }

  lemma RetagTiled(s: Slots, t: Tops, a: int, k: Kind)
    requires Tiled(s, t) && a in s
    ensures Tiled(Retag(s, a, k), t)
  {
    var r := Retag(s, a, k);
    forall x ensures Inside(r, t, x) && Chained(r, t, x) && Anchored(r, t, x) {
      assert Inside(s, t, x) && Chained(s, t, x) && Anchored(s, t, x);
    }
    forall x, y ensures Apart(r, x, y) {
      assert Apart(s, x, y);
    }
  }

  lemma SplitTiled(s: Slots, t: Tops, a: int, n: int)
    requires Tiled(s, t) && a in s && 0 < n < s[a].size
    ensures a + n !in s
    ensures Tiled(Split(s, a, n), t)
  {
    var r := Split(s, a, n);
    assert Inside(s, t, a) && Apart(s, a, a + n);
    forall x ensures Inside(r, t, x) && Chained(r, t, x) && Anchored(r, t, x) {
      assert Inside(s, t, x) && Chained(s, t, x) && Anchored(s, t, x) && Chained(s, t, a);
    }
    forall x, y ensures Apart(r, x, y) {
      assert Apart(s, x, y) && Apart(s, x, a) && Apart(s, a, x) && Apart(s, a, y);
    }
  }

  lemma JoinTiled(s: Slots, t: Tops, a: int)
    requires Tiled(s, t) && a in s && HasNext(s, a)
    ensures Tiled(Join(s, a), t)
    ensures a in Join(s, a)
  {
    var r := Join(s, a);
    var b := End(s, a);
    assert Inside(s, t, a) && Inside(s, t, b);
    forall x ensures Inside(r, t, x) && Chained(r, t, x) && Anchored(r, t, x) {
      assert Inside(s, t, x) && Chained(s, t, x) && Anchored(s, t, x) && Chained(s, t, b);
      assert Apart(s, x, a) && Apart(s, a, x);
    }
    forall x, y ensures Apart(r, x, y) {
      assert Apart(s, x, y) && Apart(s, b, y);
      if x == a && y in r && a < y {
        assert Apart(s, y, b) && Inside(s, t, y);
      }
    }
  }

  /** No slot of any unit reaches into [tops[u], tops[u] + n). */
  ghost predicate Vacant(s: Slots, t: Tops, u: int, n: int)
    requires u in t
  {
    forall a {:trigger Inside(s, t, a)} :: a in s ==> End(s, a) <= t[u] || t[u] + n <= a
  }

  lemma AppendTiled(s: Slots, t: Tops, u: int, n: int)
    requires Tiled(s, t) && u in t && 0 < n && Vacant(s, t, u, n)
    ensures t[u] !in s
    ensures Tiled(Append(s, t, u, n), t[u := t[u] + n])
  {
    var r, t' := Append(s, t, u, n), t[u := t[u] + n];
    assert Inside(s, t, t[u]) && Anchored(s, t, u);
    forall x ensures Inside(r, t', x) && Chained(r, t', x) && Anchored(r, t', x) {
      assert Inside(s, t, x) && Chained(s, t, x) && Anchored(s, t, x);
    }
    forall x, y ensures Apart(r, x, y) {
      assert Apart(s, x, y) && Inside(s, t, x) && Inside(s, t, y);
    }
  }

  lemma TruncateTiled(s: Slots, t: Tops, a: int)
    requires Tiled(s, t) && a in s && s[a].unit in t && End(s, a) == t[s[a].unit]
    ensures Tiled(s - {a}, t[s[a].unit := a])
  {
    var u := s[a].unit;
    var r, t' := s - {a}, t[u := a];
    assert Inside(s, t, a);
    forall x ensures Inside(r, t', x) && Chained(r, t', x) && Anchored(r, t', x) {
      assert Inside(s, t, x) && Chained(s, t, x) && Anchored(s, t, x);
      assert Apart(s, x, a) && Apart(s, a, x);
    }
    forall x, y ensures Apart(r, x, y) {
      assert Apart(s, x, y);
    }
  }

  // ----- what tiling means

  /** Every slot but a unit's first has a predecessor. */
  lemma FindPredecessor(s: Slots, t: Tops, x: int, a: int) returns (q: int)
    requires Tiled(s, t) && x in s && a in s && s[x].unit == s[a].unit && x < a
    ensures q in s && s[q].unit == s[a].unit && End(s, q) == a
    decreases a - x
  {
    assert Inside(s, t, x) && Inside(s, t, a) && Apart(s, x, a) && Chained(s, t, x);
    if End(s, x) == a {
      q := x;
    } else {
      q := FindPredecessor(s, t, End(s, x), a);
    }
  }

  /** Every address below a unit's top lies in exactly one slot of that unit. */
  lemma SlotOfByte(s: Slots, t: Tops, u: int, pc: int) returns (a: int)
    requires Tiled(s, t) && u in t && u <= pc < t[u]
    ensures a in s && s[a].unit == u && a <= pc < End(s, a)
    ensures forall b :: b in s && b <= pc < End(s, b) ==> b == a
  {
    assert Anchored(s, t, u);
    a := u;
    while End(s, a) <= pc
      invariant a in s && s[a].unit == u && a <= pc
      decreases pc - a
    {
      assert Inside(s, t, a) && Chained(s, t, a);
      a := End(s, a);
      assert Inside(s, t, a);
    }
    forall b | b in s && b <= pc < End(s, b) ensures b == a {
      assert Apart(s, a, b) && Apart(s, b, a);
    }
  }

  /** The slots of unit `u` from the one at `pc` on, in address order. */
  ghost function Walk(s: Slots, t: Tops, u: int, pc: int): (w: seq<int>)
    requires Tiled(s, t) && u in t
    requires pc == t[u] || (pc in s && s[pc].unit == u)
    ensures forall i :: 0 <= i < |w| ==> w[i] in s && s[w[i]].unit == u && pc <= w[i]
    ensures forall a :: a in s && s[a].unit == u && pc <= a ==> a in w
    decreases t[u] - pc
  {
    assert Inside(s, t, pc) && Chained(s, t, pc);
    if pc == t[u] then
      assert forall a :: a in s && s[a].unit == u && pc <= a ==> !Inside(s, t, a);
      []
    else
      assert forall a :: a in s && s[a].unit == u && pc < a ==> Apart(s, pc, a);
      [pc] + Walk(s, t, u, End(s, pc))
  }

  ghost predicate Increasing(w: seq<int>) {
    forall i, j :: 0 <= i < j < |w| ==> w[i] < w[j]
  }

  lemma {:induction false} WalkSorted(s: Slots, t: Tops, u: int, pc: int)
    requires Tiled(s, t) && u in t
    requires pc == t[u] || (pc in s && s[pc].unit == u)
    ensures Increasing(Walk(s, t, u, pc))
    decreases t[u] - pc
  {
    assert Inside(s, t, pc) && Chained(s, t, pc);
    if pc != t[u] {
      var rest := Walk(s, t, u, End(s, pc));
      WalkSorted(s, t, u, End(s, pc));
      assert Walk(s, t, u, pc) == [pc] + rest && pc < End(s, pc);
      assert Increasing(rest);
    }
  }

  ghost function Bytes(s: Slots, w: seq<int>): int
    requires forall i :: 0 <= i < |w| ==> w[i] in s
  {
    if w == [] then 0 else s[w[0]].size + Bytes(s, w[1..])
  }

  /** Walking a unit slot by slot accounts for every byte up to its top. */
  lemma {:induction false} WalkBytes(s: Slots, t: Tops, u: int, pc: int)
    requires Tiled(s, t) && u in t
    requires pc == t[u] || (pc in s && s[pc].unit == u)
    ensures Bytes(s, Walk(s, t, u, pc)) == t[u] - pc
    decreases t[u] - pc
  {
    assert Inside(s, t, pc) && Chained(s, t, pc);
    if pc != t[u] {
      WalkBytes(s, t, u, End(s, pc));
      assert Walk(s, t, u, pc)[1..] == Walk(s, t, u, End(s, pc));
    }
  }

  // ----- sizes

  /** The slot size fcache_add_fragment asks for. */
  function SlotRequest(align: int, size: int): (r: int)
    requires 1 <= align <= 64 && 0 <= size
    ensures r % align == 0 && MIN_FCACHE_SLOT_SIZE <= r
    ensures HEADER_SIZE <= r - size <= 89
    ensures r - align < size + HEADER_SIZE || r - align < MIN_FCACHE_SLOT_SIZE
  {
    var want := size + HEADER_SIZE;
    AlignUp(if want < MIN_FCACHE_SLOT_SIZE then MIN_FCACHE_SLOT_SIZE else want, align)
  }

  /** The size of a new unit: large enough for several fragments of `size` bytes. */
  function NewUnitSize(maxUnitSize: int, size: int): (r: int)
    ensures maxUnitSize <= r && size * 2 <= r
    ensures r == maxUnitSize || (r % PAGE_SIZE == 0 && r < size * 2 + PAGE_SIZE)
  {
    if maxUnitSize < size * 2 then AlignUp(size * 2, PAGE_SIZE) else maxUnitSize
  }

  ghost function Doubled(increment: int, n: nat): int {
    if n == 0 then increment else 2 * Doubled(increment, n - 1)
  }

  /** `n` doublings are just enough for `need` bytes. */
  ghost predicate LeastDoubling(increment: int, need: int, n: nat) {
    need <= Doubled(increment, n) && (n > 0 ==> Doubled(increment, n - 1) < need)
  }

  /** `commit` is the increment doubled just as often as it takes to reach `want`, or all that is left. */
  ghost predicate Commits(increment: int, want: int, end: int, reserved: int, commit: int) {
    exists n: nat :: LeastDoubling(increment, want - end, n)
      && commit == if Doubled(increment, n) <= reserved - end then Doubled(increment, n) else reserved - end
  }

  /** How much to commit beyond `end` to reach `want`, as far as the reservation goes. */
  method CommitSize(increment: int, want: int, end: int, reserved: int) returns (commit: int)
    requires 0 < increment && increment % PAGE_SIZE == 0
    requires end < reserved && end < want && end % PAGE_SIZE == 0 && reserved % PAGE_SIZE == 0
    ensures 0 < commit && end + commit <= reserved && (end + commit) % PAGE_SIZE == 0
    ensures want <= end + commit || end + commit == reserved
    ensures commit <= increment || end + commit / 2 < want
    ensures Commits(increment, want, end, reserved, commit)
  {
    commit := increment;
    ghost var n: nat := 0;
    while want > end + commit
      invariant 0 < commit && commit % PAGE_SIZE == 0 && commit == Doubled(increment, n)
      invariant n > 0 ==> Doubled(increment, n - 1) < want - end
      decreases want - end - commit
    {
      AlignedSum(commit, commit, PAGE_SIZE);
      commit := commit * 2;
      n := n + 1;
    }
    AlignedSum(end, commit, PAGE_SIZE);
    assert LeastDoubling(increment, want - end, n);
    if end + commit > reserved {
      commit := reserved - end;
    }
  }

  /** How the end of a fragment's slot is divided when part of it is not needed. */
  datatype Surplus = Surplus(returnable: int, slotPadding: int, minPadding: int)

  /** The sizes fcache_return_extra_space computes for a slot of `size` bytes at `start` whose fragment has
      `extra` bytes of its own and `space` unneeded ones. No subtraction goes below zero, the parts add up,
      and what stays is aligned and no smaller than the smallest slot. */
  function SurplusAt(align: int, start: int, size: int, extra: int, space: int): (r: Surplus)
    requires 1 <= align <= 64 && start % align == 0 && size % align == 0 && MIN_FCACHE_SLOT_SIZE <= size
    requires HEADER_SIZE <= extra && 0 <= space && space + extra <= size
    ensures 0 <= r.returnable && r.returnable % align == 0
    ensures 0 <= r.slotPadding < align && 0 <= r.minPadding <= MIN_FCACHE_SLOT_SIZE - HEADER_SIZE
    ensures extra + space == r.slotPadding + HEADER_SIZE + r.returnable + r.minPadding
    ensures MIN_FCACHE_SLOT_SIZE <= size - r.returnable && (size - r.returnable) % align == 0
    ensures r.minPadding > 0 ==> size - r.returnable - r.slotPadding == MIN_FCACHE_SLOT_SIZE
  {
    var all := space + extra - HEADER_SIZE;
    var short := size - all < MIN_FCACHE_SLOT_SIZE;
    var minPadding := if short then all - (size - MIN_FCACHE_SLOT_SIZE) else 0;
    var rest := if short then size - MIN_FCACHE_SLOT_SIZE else all;
    var end := start + size;
    var endAddr := end - rest;
    var slotPadding := AlignUp(endAddr, align) - endAddr;
    AlignedSum(start, size, align);
    AlignedSum(end, AlignUp(endAddr, align), align);
    AlignedSum(size, rest - slotPadding, align);
    AlignUpLeast(endAddr, align, end);
    Surplus(rest - slotPadding, slotPadding, minPadding)
  }
}
