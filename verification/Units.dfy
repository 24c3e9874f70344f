/**
  The units of all caches: the live list, the sorted dead list, the units waiting to be flushed
  and those waiting to be freed.
 */
module Units {
  import opened Lists
  import opened Options

  /** fcache_unit_t; `cache` is 0 when the unit belongs to none. */
  datatype UnitRecord = UnitRecord(
    startPc: int, curPc: int, endPc: int, reservedEndPc: int, size: int, full: bool,
    cache: int, pendingFree: bool, flushtime: nat)
  {
    predicate Valid() {
      startPc <= curPc <= endPc == startPc + size <= reservedEndPc
    }
  }

  // ----- the bytes of a cache

  function Share(us: map<int, UnitRecord>, u: int, c: int): int {
    if u in us && us[u].cache == c then us[u].size else 0
  }

  /** The committed bytes of the units on `l` that name cache `c`. */
  function CacheBytes(l: seq<int>, us: map<int, UnitRecord>, c: int): int {
    if l == [] then 0 else Share(us, l[0], c) + CacheBytes(l[1..], us, c)
  }

  lemma {:induction false} BytesWithout(l: seq<int>, us: map<int, UnitRecord>, c: int, k: int)
    requires 0 <= k < |l|
    ensures CacheBytes(l, us, c) == Share(us, l[k], c) + CacheBytes(Without(l, k), us, c)
  {
    if k == 0 {
      assert Without(l, 0) == l[1..];
    } else {
      BytesWithout(l[1..], us, c, k - 1);
      assert Without(l, k) == [l[0]] + Without(l[1..], k - 1);
    }
  }

  /** Units off the list do not matter. */
  lemma {:induction false} BytesSame(l: seq<int>, us: map<int, UnitRecord>, us': map<int, UnitRecord>, c: int, u: int)
    requires u !in l && us' - {u} == us - {u}
    ensures CacheBytes(l, us', c) == CacheBytes(l, us, c)
  {
    if l != [] {
      BytesSame(l[1..], us, us', c, u);
      assert l[0] in us' <==> l[0] in (us' - {u});
      assert l[0] in us <==> l[0] in (us - {u});
      assert l[0] in us ==> us'[l[0]] == (us' - {u})[l[0]] == us[l[0]];
    }
  }

  /** Changing one unit changes its own share only. */
  lemma BytesUpdate(l: seq<int>, us: map<int, UnitRecord>, u: int, v: UnitRecord, c: int)
    requires u in l && Distinct(l)
    ensures CacheBytes(l, us[u := v], c) == CacheBytes(l, us, c) - Share(us, u, c) + Share(us[u := v], u, c)
  {
    var k :| 0 <= k < |l| && l[k] == u;
    BytesWithout(l, us, c, k);
    BytesWithout(l, us[u := v], c, k);
    assert us[u := v] - {u} == us - {u};
    BytesSame(Without(l, k), us, us[u := v], c, u);
  }

  ghost predicate Distinct(l: seq<int>) {
    forall i, j :: 0 <= i < j < |l| ==> l[i] != l[j]
  }

  // ----- the invariant

  ghost predicate SizeSorted(us: map<int, UnitRecord>, l: seq<int>) {
    forall i, j {:trigger l[i], l[j]} :: 0 <= i < j < |l| && l[i] in us && l[j] in us ==> us[l[i]].size <= us[l[j]].size
  }

  ghost predicate TimeSorted(us: map<int, UnitRecord>, l: seq<int>) {
    forall i, j {:trigger l[i], l[j]} :: 0 <= i < j < |l| && l[i] in us && l[j] in us ==>
      us[l[i]].flushtime <= us[l[j]].flushtime
  }

  /** A cache's size is the sum over the units that name it. */
  ghost predicate SizeOk(live: seq<int>, us: map<int, UnitRecord>, sizes: map<int, int>, c: int) {
    c in sizes ==> sizes[c] == CacheBytes(live, us, c)
  }

  ghost predicate DeadOk(us: map<int, UnitRecord>, u: int) {
    u in us ==> us[u].cache == 0
  }

  /** A unit on its way out: still on the live list, not yet on the dead one. */
  ghost predicate Leaving(live: seq<int>, us: map<int, UnitRecord>, u: int, now: nat) {
    u in live && u in us && us[u].pendingFree && us[u].flushtime <= now
  }

  datatype State = State(
    units: map<int, UnitRecord>, live: seq<int>, dead: seq<int>, numDead: nat,
    toFlush: seq<int>, toFree: seq<int>, sizes: map<int, int>, now: nat)

  ghost predicate ListsOk(st: State) {
    && Distinct(st.live) && Distinct(st.dead)
    && (forall u :: u in st.units <==> u in st.live || u in st.dead)
    && (forall u :: u in st.live ==> u !in st.dead)
    && st.numDead == |st.dead|
    && SizeSorted(st.units, st.dead)
    && (forall u {:trigger DeadOk(st.units, u)} :: u in st.dead ==> DeadOk(st.units, u))
  }

  ghost predicate QueuesOk(st: State) {
    && Distinct(st.toFlush) && Distinct(st.toFree)
    && (forall u :: u in st.toFlush ==> u in st.live && u in st.units && u !in st.toFree && st.units[u].cache != 0)
    && (forall u {:trigger Leaving(st.live, st.units, u, st.now)} :: u in st.toFree ==>
         Leaving(st.live, st.units, u, st.now))
    && TimeSorted(st.units, st.toFree)
  }

  ghost predicate Inv(st: State) {
    && 0 !in st.sizes
    && (forall u {:trigger st.units[u]} :: u in st.units ==>
          st.units[u].Valid() && (st.units[u].cache == 0 || st.units[u].cache in st.sizes))
    && ListsOk(st) && QueuesOk(st)
    && (forall c {:trigger SizeOk(st.live, st.units, st.sizes, c)} :: SizeOk(st.live, st.units, st.sizes, c))
  }

  // ----- steps

  lemma StillIn(l: seq<int>, k: int)
    requires 0 <= k < |l| && Distinct(l)
    ensures Distinct(Without(l, k))
    ensures forall x :: x in Without(l, k) <==> x in l && x != l[k]
  {
    var l' := Without(l, k);
    forall x ensures x in l' <==> x in l && x != l[k] {
      if x in l && x != l[k] {
        var i :| 0 <= i < |l| && l[i] == x;
        assert l'[if i < k then i else i - 1] == x;
      }
      if x in l' {
        var i :| 0 <= i < |l'| && l'[i] == x;
        assert l[if i < k then i else i + 1] == x;
      }
    }
  }

  /** The queues do not mention `u`, and nothing else changed about their units. */
  lemma QueuesKept(st: State, st': State, u: int)
    requires QueuesOk(st) && u !in st.toFlush && u !in st.toFree
    requires st'.toFlush == st.toFlush && st'.toFree == st.toFree && st'.now == st.now
    requires st'.units - {u} == st.units - {u}
    requires forall x :: x in st.live && x != u ==> x in st'.live
    ensures QueuesOk(st')
  {
    forall x | x != u ensures x in st.units <==> x in st'.units {
      assert x in st.units <==> x in (st.units - {u});
      assert x in st'.units <==> x in (st'.units - {u});
    }
    forall x | x != u && x in st.units ensures x in st'.units && st'.units[x] == st.units[x] {
      assert x in (st.units - {u}) && (st'.units - {u})[x] == (st.units - {u})[x];
    }
    forall x | x in st'.toFree ensures Leaving(st'.live, st'.units, x, st'.now) {
      assert Leaving(st.live, st.units, x, st.now);
    }
  }

  /** The unit as fcache_create_unit hands it out. */
  function Renewed(v: UnitRecord, c: int): UnitRecord {
    v.(curPc := v.startPc, full := false, cache := c, pendingFree := false, flushtime := 0)
  }

  function Reused(st: State, k: int, c: int): State
    requires 0 <= k < |st.dead| && st.dead[k] in st.units && c in st.sizes && 0 < st.numDead
  {
    var u := st.dead[k];
    st.(units := st.units[u := Renewed(st.units[u], c)], live := [u] + st.live,
        dead := Without(st.dead, k), numDead := st.numDead - 1,
        sizes := st.sizes[c := st.sizes[c] + st.units[u].size])
  }

  lemma ReuseStep(st: State, k: int, c: int)
    requires Inv(st) && 0 <= k < |st.dead| && c in st.sizes
    ensures st.dead[k] in st.units && 0 < st.numDead && Inv(Reused(st, k, c))
  {
    var u, st' := st.dead[k], Reused(st, k, c);
    assert u in st.dead;
    StillIn(st.dead, k);
    assert st'.units - {u} == st.units - {u};
    assert u !in st.toFree by {
      assert u in st.toFree ==> Leaving(st.live, st.units, u, st.now);
    }
    QueuesKept(st, st', u);
    forall d ensures SizeOk(st'.live, st'.units, st'.sizes, d) {
      assert SizeOk(st.live, st.units, st.sizes, d);
      BytesSame(st.live, st.units, st'.units, d, u);
      assert st'.live[1..] == st.live;
    }
    forall x | x in st'.dead ensures DeadOk(st'.units, x) {
      assert DeadOk(st.units, x);
    }
    WithoutSorted(st.units, st.dead, k);
  }

  lemma WithoutSorted(us: map<int, UnitRecord>, l: seq<int>, k: int)
    requires 0 <= k < |l| && SizeSorted(us, l)
    ensures SizeSorted(us, Without(l, k))
  {
    var l' := Without(l, k);
    forall i, j | 0 <= i < j < |l'| && l'[i] in us && l'[j] in us ensures us[l'[i]].size <= us[l'[j]].size {
      var i', j' := if i < k then i else i + 1, if j < k then j else j + 1;
      assert l[i'] == l'[i] && l[j'] == l'[j];
    }
  }

  function Created(st: State, u: int, v: UnitRecord): State
    requires v.cache in st.sizes
  {
    st.(units := st.units[u := v], live := [u] + st.live, sizes := st.sizes[v.cache := st.sizes[v.cache] + v.size])
  }

  lemma CreateStep(st: State, u: int, v: UnitRecord)
    requires Inv(st) && u !in st.units && v.Valid() && v.cache in st.sizes
    ensures Inv(Created(st, u, v))
  {
    var st' := Created(st, u, v);
    assert u !in st.live && u !in st.dead;
    assert st'.units - {u} == st.units - {u};
    assert u !in st.toFree by {
      assert u in st.toFree ==> Leaving(st.live, st.units, u, st.now);
    }
    QueuesKept(st, st', u);
    forall d ensures SizeOk(st'.live, st'.units, st'.sizes, d) {
      assert SizeOk(st.live, st.units, st.sizes, d);
      BytesSame(st.live, st.units, st'.units, d, u);
      assert st'.live[1..] == st.live;
    }
    forall x | x in st'.dead ensures DeadOk(st'.units, x) {
      assert DeadOk(st.units, x);
    }
  }

  // ----- leaving the live list

  /** remove_unit_from_cache, where the unit has one. */
  function SizesWithout(sizes: map<int, int>, v: UnitRecord): map<int, int> {
    if v.cache in sizes then sizes[v.cache := sizes[v.cache] - v.size] else sizes
  }

  function Retired(st: State, k: int, at: int): State
    requires 0 <= k < |st.live| && st.live[k] in st.units && 0 <= at <= |st.dead|
  {
    var u := st.live[k];
    st.(units := st.units[u := st.units[u].(cache := 0)], live := Without(st.live, k),
        dead := st.dead[..at] + [u] + st.dead[at..], numDead := st.numDead + 1,
        sizes := SizesWithout(st.sizes, st.units[u]))
  }

  lemma LeaveSizes(st: State, k: int, us: map<int, UnitRecord>)
    requires Inv(st) && 0 <= k < |st.live| && st.live[k] in st.units && us - {st.live[k]} == st.units - {st.live[k]}
    ensures forall c {:trigger SizeOk(Without(st.live, k), us, SizesWithout(st.sizes, st.units[st.live[k]]), c)} ::
              SizeOk(Without(st.live, k), us, SizesWithout(st.sizes, st.units[st.live[k]]), c)
  {
    var u, l, sizes := st.live[k], Without(st.live, k), SizesWithout(st.sizes, st.units[st.live[k]]);
    StillIn(st.live, k);
    forall c ensures SizeOk(l, us, sizes, c) {
      assert SizeOk(st.live, st.units, st.sizes, c);
      BytesWithout(st.live, st.units, c, k);
      BytesSame(l, st.units, us, c, u);
    }
  }

  lemma RetireStep(st: State, k: int, at: int)
    requires Inv(st) && 0 <= k < |st.live| && st.live[k] !in st.toFlush && st.live[k] !in st.toFree
    requires st.live[k] in st.units && 0 <= at <= |st.dead|
    requires forall i :: 0 <= i < at && st.dead[i] in st.units ==>
        st.units[st.dead[i]].size <= st.units[st.live[k]].size
    requires forall i :: at <= i < |st.dead| && st.dead[i] in st.units ==>
        st.units[st.live[k]].size <= st.units[st.dead[i]].size
    ensures Inv(Retired(st, k, at))
  {
    var u, st' := st.live[k], Retired(st, k, at);
    assert u in st.live;
    StillIn(st.live, k);
    assert st'.units - {u} == st.units - {u};
    QueuesKept(st, st', u);
    LeaveSizes(st, k, st'.units);
    forall c ensures SizeOk(st'.live, st'.units, st'.sizes, c) {
      assert SizeOk(Without(st.live, k), st'.units, SizesWithout(st.sizes, st.units[u]), c);
    }
    Inserted(st.units, st'.units, st.dead, u, at);
    forall x | x in st'.dead ensures DeadOk(st'.units, x) {
      assert x != u ==> x in st.dead && DeadOk(st.units, x);
    }
  }

  /** The dead list stays sorted and free of repetitions. */
  lemma Inserted(us: map<int, UnitRecord>, us': map<int, UnitRecord>, l: seq<int>, u: int, at: int)
    requires 0 <= at <= |l| && Distinct(l) && SizeSorted(us, l) && u !in l && u in us
    requires us' == us[u := us[u].(cache := 0)]
    requires forall i :: 0 <= i < at && l[i] in us ==> us[l[i]].size <= us[u].size
    requires forall i :: at <= i < |l| && l[i] in us ==> us[u].size <= us[l[i]].size
    ensures var l' := l[..at] + [u] + l[at..];
      Distinct(l') && SizeSorted(us', l') && forall x :: x in l' <==> x in l || x == u
  {
    var l' := l[..at] + [u] + l[at..];
    assert l == l[..at] + l[at..] && l'[at] == u;
    forall i, j | 0 <= i < j < |l'| ensures l'[i] != l'[j] {
      var i' := Place(l, u, at, i);
      var j' := Place(l, u, at, j);
    }
    forall i, j | 0 <= i < j < |l'| && l'[i] in us' && l'[j] in us' ensures us'[l'[i]].size <= us'[l'[j]].size {
      var i' := Place(l, u, at, i);
      var j' := Place(l, u, at, j);
    }
    forall x ensures x in l' <==> x in l || x == u {}
  }

  /** Where an entry of the longer list was in the shorter one. */
  lemma Place(l: seq<int>, u: int, at: int, i: int) returns (i': int)
    requires 0 <= at <= |l| && 0 <= i <= |l|
    ensures i' == (if i < at then i else i - 1) && (l[..at] + [u] + l[at..])[i] == if i == at then u else l[i']
  {
    i' := if i < at then i else i - 1;
  }

  function Dealloced(st: State, k: int): State
    requires 0 <= k < |st.live| && st.live[k] in st.units
  {
    var u := st.live[k];
    st.(units := st.units - {u}, live := Without(st.live, k), sizes := SizesWithout(st.sizes, st.units[u]))
  }

  lemma DeallocStep(st: State, k: int)
    requires Inv(st) && 0 <= k < |st.live| && st.live[k] !in st.toFlush && st.live[k] !in st.toFree
    ensures st.live[k] in st.units && Inv(Dealloced(st, k))
  {
    var u, st' := st.live[k], Dealloced(st, k);
    assert u in st.live;
    StillIn(st.live, k);
    assert st'.units - {u} == st.units - {u};
    QueuesKept(st, st', u);
    LeaveSizes(st, k, st'.units);
    forall c ensures SizeOk(st'.live, st'.units, st'.sizes, c) {
      assert SizeOk(Without(st.live, k), st'.units, SizesWithout(st.sizes, st.units[u]), c);
    }
    forall x | x in st'.dead ensures DeadOk(st'.units, x) {
      assert DeadOk(st.units, x);
    }
  }

  // ----- changing a unit that stays live

  /** `u` stays on the live list with value `v`; `sizes` follows. */
  lemma UpdateStep(st: State, u: int, v: UnitRecord, sizes: map<int, int>)
    requires Inv(st) && u in st.live && u !in st.toFlush && u !in st.toFree
    requires u in st.units && v.Valid() && (v.cache == 0 || v.cache in sizes) && sizes.Keys == st.sizes.Keys
    requires forall c {:trigger sizes[c]} :: c in sizes ==>
               sizes[c] - (if v.cache == c then v.size else 0) == st.sizes[c] - Share(st.units, u, c)
    ensures Inv(st.(units := st.units[u := v], sizes := sizes))
  {
    var st' := st.(units := st.units[u := v], sizes := sizes);
    assert st'.units - {u} == st.units - {u};
    QueuesKept(st, st', u);
    forall c ensures SizeOk(st'.live, st'.units, st'.sizes, c) {
      assert SizeOk(st.live, st.units, st.sizes, c);
      BytesUpdate(st.live, st.units, u, v, c);
    }
    forall x | x in st'.dead ensures DeadOk(st'.units, x) {
      assert DeadOk(st.units, x);
    }
  }

  /** remove_unit_from_cache */
  lemma ClearStep(st: State, u: int)
    requires Inv(st) && u in st.live && u !in st.toFlush && u !in st.toFree && u in st.units && st.units[u].cache != 0
    ensures st.units[u].cache in st.sizes
    ensures Inv(st.(units := st.units[u := st.units[u].(cache := 0)], sizes := SizesWithout(st.sizes, st.units[u])))
  {
    assert st.units[u].Valid();
    UpdateStep(st, u, st.units[u].(cache := 0), SizesWithout(st.sizes, st.units[u]));
  }

  /** A chain of marked units joins the queue. */
  lemma EnqueueStep(st: State, chain: seq<int>)
    requires Inv(st) && Distinct(chain)
    requires forall u :: u in chain ==> u !in st.toFree && u !in st.toFlush
    requires forall u :: u in chain ==> Leaving(st.live, st.units, u, st.now) && st.units[u].flushtime == st.now
    ensures Inv(st.(toFree := st.toFree + chain))
  {
    var st' := st.(toFree := st.toFree + chain);
    forall x | x in st'.toFree ensures Leaving(st'.live, st'.units, x, st'.now) {
      assert Leaving(st.live, st.units, x, st.now);
    }
    forall i, j | 0 <= i < j < |st'.toFree| ensures st'.toFree[i] != st'.toFree[j] {
      assert j >= |st.toFree| ==> st'.toFree[j] in chain;
      assert i < |st.toFree| ==> st'.toFree[i] in st.toFree;
    }
    forall i, j | 0 <= i < j < |st'.toFree| && st'.toFree[i] in st.units && st'.toFree[j] in st.units
      ensures st.units[st'.toFree[i]].flushtime <= st.units[st'.toFree[j]].flushtime
    {
      assert st'.toFree[i] in st'.toFree && Leaving(st'.live, st'.units, st'.toFree[i], st'.now);
      assert j >= |st.toFree| ==> st'.toFree[j] in chain;
    }
  }

  // ----- freeing what is due

  /** fcache_free_unit's heuristic: no more dead units than max(5, a quarter of the threads). */
  predicate Keeps(numDead: nat, threads: nat) {
    numDead < 5 || numDead * 4 <= threads
  }

  /** The number of dead units at which the heuristic stops keeping them. */
  function DeadLimit(threads: nat): nat {
    if threads / 4 + 1 < 5 then 5 else threads / 4 + 1
  }

  lemma KeepsBelowLimit(numDead: nat, threads: nat)
    ensures Keeps(numDead, threads) <==> numDead < DeadLimit(threads)
  {
  }

  /** The units whose flushtime has come, at the front of a sorted queue. */
  function Due(us: map<int, UnitRecord>, l: seq<int>, t: nat): (n: nat)
    ensures n <= |l|
  {
    if l == [] || l[0] !in us || t < us[l[0]].flushtime then 0 else 1 + Due(us, l[1..], t)
  }

  /** On a sorted queue these are all that are due. */
  lemma {:induction false} DueExact(us: map<int, UnitRecord>, l: seq<int>, t: nat)
    requires TimeSorted(us, l) && forall i :: 0 <= i < |l| ==> l[i] in us
    ensures forall i :: 0 <= i < |l| ==> (i < Due(us, l, t) <==> us[l[i]].flushtime <= t)
  {
    if l != [] {
      var r := l[1..];
      assert forall i :: 0 <= i < |r| ==> r[i] == l[i + 1];
      DueExact(us, r, t);
      forall i | 0 <= i < |l| ensures i < Due(us, l, t) <==> us[l[i]].flushtime <= t {
        if i > 0 {
          assert r[i - 1] == l[i];
          assert us[l[0]].flushtime <= us[l[i]].flushtime;
        }
      }
    }
  }

  /** Freeing the due units dereferences no NULL cache: those that go on the dead list have one. */
  ghost predicate SafeToFree(st: State, t: nat, threads: nat) {
    forall i {:trigger st.toFree[i]} ::
      0 <= i < Due(st.units, st.toFree, t) && i < DeadLimit(threads) - st.numDead && st.toFree[i] in st.units ==>
        st.units[st.toFree[i]].cache != 0
  }

  /** Every unit waiting to be freed still names its cache. */
  ghost predicate AllCached(st: State) {
    forall u {:trigger st.units[u]} :: u in st.toFree && u in st.units ==> st.units[u].cache != 0
  }

  /** The dead units after `i` more were freed. */
  function DeadAfter(numDead: nat, i: nat, threads: nat): nat {
    if DeadLimit(threads) <= numDead then numDead
    else if numDead + i < DeadLimit(threads) then numDead + i
    else DeadLimit(threads)
  }

  lemma QueueFacts(st: State)
    requires Inv(st)
    ensures Distinct(st.toFree) && TimeSorted(st.units, st.toFree)
    ensures forall u :: u in st.toFree ==> u in st.units && u in st.live
  {
    forall u | u in st.toFree ensures u in st.units && u in st.live {
      assert Leaving(st.live, st.units, u, st.now);
    }
  }

  lemma DeadFacts(st: State)
    requires Inv(st)
    ensures Distinct(st.live) && SizeSorted(st.units, st.dead)
    ensures forall j :: 0 <= j < |st.dead| ==> st.dead[j] in st.units
  {
    assert forall j :: 0 <= j < |st.dead| ==> st.dead[j] in st.dead;
  }

  /** A unit that is not live waits for nothing. */
  lemma NotWaiting(st: State, u: int)
    requires Inv(st) && (u in st.dead || u !in st.units)
    ensures u !in st.live && u !in st.toFlush && u !in st.toFree
  {
    assert u in st.toFree ==> Leaving(st.live, st.units, u, st.now);
  }

  lemma LiveNotDead(st: State, u: int)
    requires Inv(st) && u in st.live
    ensures u !in st.dead
  {
  }

  lemma UnitFacts(st: State, u: int)
    requires Inv(st) && u in st.units
    ensures 0 !in st.sizes && (st.units[u].cache == 0 || st.units[u].cache in st.sizes)
  {
    assert st.units[u].Valid();
  }

  lemma PopStep(st: State)
    requires Inv(st) && st.toFree != []
    ensures var u := st.toFree[0];
      && u in st.units && u in st.live && u !in st.toFlush && u !in st.toFree[1..]
      && Inv(st.(toFree := st.toFree[1..], units := st.units[u := st.units[u].(pendingFree := false)]))
  {
    var u := st.toFree[0];
    assert u in st.toFree && Leaving(st.live, st.units, u, st.now);
    var st1 := st.(toFree := st.toFree[1..]);
    forall x | x in st1.toFree ensures Leaving(st1.live, st1.units, x, st1.now) {
      assert Leaving(st.live, st.units, x, st.now);
    }
    UpdateStep(st1, u, st.units[u].(pendingFree := false), st.sizes);
  }

  /** `i` units of `o` have been freed without fault. */
  ghost predicate FreedSoFar(o: State, n: State, i: nat, t: nat, threads: nat) {
    && i <= Due(o.units, o.toFree, t) && n.toFree == o.toFree[i..]
    && Due(o.units, o.toFree, t) == i + Due(o.units, o.toFree[i..], t)
    && (forall j {:trigger o.toFree[j]} :: i <= j < |o.toFree| ==>
          o.toFree[j] in n.units && o.toFree[j] in o.units && n.units[o.toFree[j]] == o.units[o.toFree[j]])
    && (forall j {:trigger o.toFree[j]} ::
         0 <= j < i && j < DeadLimit(threads) - o.numDead && o.toFree[j] in o.units ==>
          o.units[o.toFree[j]].cache != 0)
    && Disposed(o, n, i, threads)
  }

  /** The first `i` units of the queue are gone from the live list; the dead list took the first of them, as
      many as the heuristic lets it, and no other unit changed. */
  ghost predicate Disposed(o: State, n: State, i: nat, threads: nat)
    requires i <= |o.toFree|
  {
    var kept := DeadAfter(o.numDead, i, threads) - o.numDead;
    && n.numDead == o.numDead + kept && 0 <= kept <= i
    && (forall u :: u in n.live <==> u in o.live && u !in o.toFree[..i])
    && (forall u :: u in n.dead <==> u in o.dead || u in o.toFree[..kept])
    && (forall u {:trigger n.units[u]} {:trigger o.units[u]} :: u in o.units && u !in o.toFree[..i] ==>
          u in n.units && n.units[u] == o.units[u])
  }

  /** The next unit is due, and faults just when it is to be kept and names no cache. */
  lemma FreeStep(o: State, n: State, i: nat, t: nat, threads: nat)
    requires FreedSoFar(o, n, i, t, threads) && n.toFree != []
    requires n.toFree[0] in n.units && n.units[n.toFree[0]].flushtime <= t
    ensures i < Due(o.units, o.toFree, t) && i < |o.toFree| && n.toFree[0] == o.toFree[i] && o.toFree[i] in o.units
    ensures n.units[n.toFree[0]] == o.units[o.toFree[i]]
    ensures Keeps(n.numDead, threads) <==> i < DeadLimit(threads) - o.numDead
    ensures Keeps(n.numDead, threads) && n.units[n.toFree[0]].cache == 0 ==> !SafeToFree(o, t, threads)
  {
    assert o.toFree[i..][0] == o.toFree[i];
  }

  /** Exactly the due units left the queue and the live list; the dead list grew to its limit at most. */
  ghost predicate FreedDue(o: State, n: State, t: nat, threads: nat) {
    var i := Due(o.units, o.toFree, t);
    n.toFree == o.toFree[i..] && Disposed(o, n, i, threads)
  }

  lemma FreedNone(o: State, t: nat, threads: nat)
    requires Inv(o)
    ensures FreedSoFar(o, o, 0, t, threads)
  {
    QueueFacts(o);
    assert o.toFree[0..] == o.toFree;
  }

  lemma FreedAll(o: State, n: State, i: nat, t: nat, threads: nat)
    requires FreedSoFar(o, n, i, t, threads)
    requires n.toFree == [] || (n.toFree[0] in n.units && t < n.units[n.toFree[0]].flushtime)
    ensures FreedDue(o, n, t, threads) && SafeToFree(o, t, threads)
  {
    if n.toFree != [] {
      assert o.toFree[i..][0] == o.toFree[i];
    }
  }

  lemma FreedNext(o: State, n: State, n': State, i: nat, t: nat, threads: nat)
    requires FreedSoFar(o, n, i, t, threads) && n.toFree != []
    requires n.toFree[0] in n.units && n.units[n.toFree[0]].flushtime <= t
    requires Distinct(o.toFree) && n'.toFree == n.toFree[1..]
    requires !Keeps(n.numDead, threads) || n.units[n.toFree[0]].cache != 0
    requires n'.numDead == if Keeps(n.numDead, threads) then n.numDead + 1 else n.numDead
    requires n'.units - {n.toFree[0]} == n.units - {n.toFree[0]}
    requires forall x :: x in n'.live <==> x in n.live && x != n.toFree[0]
    requires forall x :: x in n'.dead <==> x in n.dead || (Keeps(n.numDead, threads) && x == n.toFree[0])
    ensures FreedSoFar(o, n', i + 1, t, threads)
  {
    FreeStep(o, n, i, t, threads);
    assert n'.toFree == o.toFree[i + 1..] == o.toFree[i..][1..];
    assert o.toFree[..i + 1] == o.toFree[..i] + [o.toFree[i]];
    forall j | i + 1 <= j < |o.toFree|
      ensures o.toFree[j] in n'.units && o.toFree[j] in o.units && n'.units[o.toFree[j]] == o.units[o.toFree[j]]
    {
      var x, u := o.toFree[j], n.toFree[0];
      assert x != u && n.units[x] == o.units[x];
      assert x in (n.units - {u}) && (n'.units - {u})[x] == (n.units - {u})[x];
    }
    DisposedNext(o, n, n', i, threads);
  }

  lemma DisposedNext(o: State, n: State, n': State, i: nat, threads: nat)
    requires i < |o.toFree| && Disposed(o, n, i, threads)
    requires n'.numDead == if Keeps(n.numDead, threads) then n.numDead + 1 else n.numDead
    requires n'.units - {o.toFree[i]} == n.units - {o.toFree[i]}
    requires forall x :: x in n'.live <==> x in n.live && x != o.toFree[i]
    requires forall x :: x in n'.dead <==> x in n.dead || (Keeps(n.numDead, threads) && x == o.toFree[i])
    ensures Disposed(o, n', i + 1, threads)
  {
    var u, kept := o.toFree[i], DeadAfter(o.numDead, i, threads) - o.numDead;
    assert o.toFree[..i + 1] == o.toFree[..i] + [u];
    KeepsBelowLimit(n.numDead, threads);
    assert Keeps(n.numDead, threads) ==> kept == i;
    forall x | x in o.units && x !in o.toFree[..i + 1] ensures x in n'.units && n'.units[x] == o.units[x] {
      assert x in (n.units - {u}) && (n'.units - {u})[x] == (n.units - {u})[x];
    }
  }

  lemma WaitingUnit(st: State, u: int)
    requires Inv(st) && u in st.toFlush
    ensures u in st.units && u in st.live && st.units[u].cache != 0
  {
  }

  /** A flushed unit; only the last one of a chain still names its cache. */
  function Flushed(v: UnitRecord, now: nat, last: bool): UnitRecord {
    v.(pendingFree := true, flushtime := now, cache := if last then v.cache else 0)
  }

  predicate IsLast(l: seq<int>, u: int) {
    l != [] && l[|l| - 1] == u
  }

  lemma LastOnly(l: seq<int>, u: int)
    requires Distinct(l) && u in l
    ensures u in l[..|l| - 1] <==> !IsLast(l, u)
  {
    var i :| 0 <= i < |l| && l[i] == u;
    assert i < |l| - 1 ==> l[..|l| - 1][i] == u;
  }

  /** A unit flushed after time `t` is not freed at `t`. */
  lemma NotYetDue(o: State, n: State, t: nat, threads: nat, u: int)
    requires Inv(o) && FreedDue(o, n, t, threads) && u in o.toFree && u in o.units && o.units[u].flushtime > t
    ensures u in n.toFree && u in n.live
  {
    QueueFacts(o);
    assert forall i :: 0 <= i < |o.toFree| ==> o.toFree[i] in o.toFree;
    DueExact(o.units, o.toFree, t);
    var k :| 0 <= k < |o.toFree| && o.toFree[k] == u;
    var d := Due(o.units, o.toFree, t);
    assert o.toFree[d..][k - d] == u;
  }

  /** Appending a chain keeps the queue's caches known just when the chain is a single unit. */
  lemma Cleared(o: State, n: State, chain: seq<int>)
    requires Inv(o) && Inv(n) && chain != [] && chain == o.toFlush
    requires n.toFree == o.toFree + chain && n.units.Keys == o.units.Keys
    requires forall u {:trigger n.units[u]} :: u in n.units ==>
               n.units[u].cache == if u in chain[..|chain| - 1] then 0 else o.units[u].cache
    ensures AllCached(n) <==> AllCached(o) && |chain| == 1
  {
    if |chain| > 1 {
      assert chain[..|chain| - 1][0] == chain[0];
      WaitingUnit(o, chain[0]);
      assert chain[0] in chain[..|chain| - 1] && chain[0] in n.toFree;
      assert n.units[chain[0]].cache == 0;
    } else {
      assert chain[..|chain| - 1] == [] && chain == [chain[0]];
      WaitingUnit(o, chain[0]);
      assert AllCached(n) ==> AllCached(o) by {
        forall u | AllCached(n) && u in o.toFree && u in o.units ensures o.units[u].cache != 0 {
          assert u in n.toFree && n.units[u].cache != 0;
        }
      }
    }
  }

  class AllUnits {
    var units: map<int, UnitRecord>
    var live: seq<int>
    var dead: seq<int>
    var numDead: nat
    var toFlush: seq<int>
    var toFree: seq<int>
    var sizes: map<int, int>
    var now: nat

    ghost function S(): State
      reads this
    {
      State(units, live, dead, numDead, toFlush, toFree, sizes, now)
    }

    constructor ()
      ensures S() == State(map[], [], [], 0, [], [], map[], 0) && Inv(S())
    {
      units, live, dead, numDead, toFlush, toFree, sizes, now := map[], [], [], 0, [], [], map[], 0;
    }

    /** fcache_cache_init without its first unit */
    method AddCache(c: int)
      requires Inv(S()) && c != 0 && c !in sizes
      requires forall u {:trigger units[u]} :: u in units ==> units[u].cache != c
      modifies this`sizes
      ensures Inv(S()) && sizes == old(sizes)[c := 0]
    {
      NoBytes(live, units, c);
      ghost var st, st' := S(), S().(sizes := sizes[c := 0]);
      forall d ensures SizeOk(live, units, st'.sizes, d) {
        assert SizeOk(live, units, st.sizes, d);
      }
      sizes := sizes[c := 0];
    }

    /** fcache_create_unit's search of the dead list: the first fit is the smallest. */
    method FindDead(c: int, size: nat, maxSize: nat) returns (k: nat)
      requires Inv(S()) && c in sizes
      ensures k <= |dead|
      ensures k < |dead| ==> Fits(dead[k], c, size, maxSize)
      ensures forall d :: d in dead && Fits(d, c, size, maxSize) ==>
          k < |dead| && dead[k] in units && units[dead[k]].size <= units[d].size
    {
      k := 0;
      while k < |dead|
        invariant 0 <= k <= |dead|
        invariant forall i :: 0 <= i < k ==> !Fits(dead[i], c, size, maxSize)
      {
        assert dead[k] in dead;
        if size <= units[dead[k]].size && (maxSize == 0 || sizes[c] + units[dead[k]].size <= maxSize) {
          return;
        }
        k := k + 1;
      }
    }

    /** fcache_create_unit: a fitting dead unit, else `newUnit`, reserved at `start` with no more
        than `commitIncrement` bytes committed. */
    method CreateUnit(c: int, size: nat, maxSize: nat, commitIncrement: nat, newUnit: int, start: int)
        returns (u: int, ghost k: nat)
      requires Inv(S()) && c in sizes && newUnit !in units
      modifies this`units, this`live, this`dead, this`numDead, this`sizes
      ensures Inv(S())
      ensures forall d :: d in old(dead) && old(Fits(d, c, size, maxSize)) ==>
                k < |old(dead)| && old(Fits(u, c, size, maxSize)) && old(units)[u].size <= old(units)[d].size
      ensures k < |old(dead)| ==>
                u == old(dead)[k] && u in old(units) && old(Fits(u, c, size, maxSize)) && 0 < old(numDead)
                  && S() == Reused(old(S()), k, c)
      ensures k >= |old(dead)| ==>
                var n := Min(commitIncrement, size);
                var v := UnitRecord(start, start, start + n, start + size, n, false, c, false, 0);
                u == newUnit && S() == Created(old(S()), u, v)
      // an empty unit of the cache, whatever it was before
      ensures u in units && u in live && u !in dead && u !in toFree && u !in toFlush
      ensures var v := units[u];
        v.curPc == v.startPc && !v.full && v.cache == c && !v.pendingFree && v.flushtime == 0
    {
      hide Inv;
      ghost var st := S();
      var i := FindDead(c, size, maxSize);
      k := i;
      ghost var unit := if i < |dead| then dead[i] else newUnit;
      NotWaiting(st, unit);
      DeadFacts(st);
      if i < |dead| {
        ReuseStep(st, i, c);
        u := dead[i];
        sizes := sizes[c := sizes[c] + units[u].size];
        units := units[u := Renewed(units[u], c)];
        dead, numDead, live := Without(dead, i), numDead - 1, [u] + live;
      } else {
        u := newUnit;
        var n := Min(commitIncrement, size);
        var v := UnitRecord(start, start, start + n, start + size, n, false, c, false, 0);
        CreateStep(st, u, v);
        sizes := sizes[c := sizes[c] + n];
        units, live := units[u := v], [u] + live;
      }
      LiveNotDead(S(), u);
    }

    /** A dead unit that can be reused. */
    ghost predicate Fits(u: int, c: int, size: nat, maxSize: nat)
      reads this
    {
      u in units && c in sizes && size <= units[u].size && (maxSize == 0 || sizes[c] + units[u].size <= maxSize)
    }

    /** cache_extend_commitment */
    method ExtendCommitment(u: int, k: nat)
      requires Inv(S()) && u in live && u in units && units[u].cache in sizes && u !in toFlush && u !in toFree
      requires units[u].endPc + k <= units[u].reservedEndPc
      modifies this`units, this`sizes
      ensures Inv(S())
      ensures var v := old(units)[u];
        units == old(units)[u := v.(endPc := v.endPc + k, size := v.size + k, full := false)]
      ensures sizes == old(sizes)[old(units)[u].cache := old(sizes)[old(units)[u].cache] + k]
    {
      ghost var st := S();
      var v := units[u];
      var v' := v.(endPc := v.endPc + k, size := v.size + k, full := false);
      UpdateStep(st, u, v', sizes[v.cache := sizes[v.cache] + k]);
      units := units[u := v'];
      sizes := sizes[v.cache := sizes[v.cache] + k];
    }

    /** extend_unit_end's claim of `k` more bytes; a rest of less than `hole` bytes is claimed as well. */
    method ExtendUnitEnd(u: int, k: nat, hole: nat)
      requires Inv(S()) && u in live && u in units && u !in toFlush && u !in toFree
      requires units[u].curPc + k <= units[u].endPc
      modifies this`units
      ensures Inv(S())
      ensures var v := old(units)[u]; var eaten := v.endPc - v.curPc - k < hole;
        units == old(units)[u := v.(curPc := if eaten then v.endPc else v.curPc + k, full := v.full || eaten)]
    {
      var v := units[u];
      v := v.(curPc := v.curPc + k);
      if v.endPc - v.curPc < hole {
        v := v.(curPc := v.endPc, full := true);
      }
      UpdateStep(S(), u, v, sizes);
      units := units[u := v];
    }

    /** try_for_more_space's marking of a unit: it leaves its cache's own list for this one. */
    method QueueForFlush(u: int)
      requires Inv(S()) && u in live && u in units && u !in toFlush && u !in toFree && units[u].cache != 0
      modifies this`toFlush
      ensures Inv(S()) && toFlush == [u] + old(toFlush)
    {
      toFlush := [u] + toFlush;
    }

    /** append_units_to_free_list: every unit of the chain but the last loses its cache. */
    method AppendUnitsToFreeList(chain: seq<int>)
      requires Inv(S()) && chain != [] && Distinct(chain)
      requires forall u :: u in chain ==> u !in toFree && u !in toFlush
      requires forall u :: u in chain ==> Leaving(live, units, u, now) && units[u].flushtime == now
      modifies this`units, this`sizes, this`toFree
      ensures Inv(S()) && toFree == old(toFree) + chain && units.Keys == old(units).Keys
      ensures forall u {:trigger units[u]} :: u in units ==>
                units[u] == if u in chain[..|chain| - 1] then old(units)[u].(cache := 0) else old(units)[u]
    {
      hide Inv;
      ghost var o := S();
      var i := 0;
      while i < |chain| - 1
        invariant 0 <= i < |chain| && Inv(S()) && S() == o.(units := units, sizes := sizes)
        invariant units.Keys == o.units.Keys
        invariant forall u {:trigger units[u]} :: u in units ==>
                    units[u] == if u in chain[..i] then o.units[u].(cache := 0) else o.units[u]
      {
        var u := chain[i];
        assert u in chain && u !in chain[..i] && Leaving(live, o.units, u, now);
        if units[u].cache != 0 {
          ClearStep(S(), u);
          sizes := sizes[units[u].cache := sizes[units[u].cache] - units[u].size];
          units := units[u := units[u].(cache := 0)];
        }
        assert chain[..i + 1] == chain[..i] + [u];
        i := i + 1;
      }
      forall u | u in chain ensures Leaving(live, units, u, now) && units[u].flushtime == now {
        assert Leaving(live, o.units, u, now);
      }
      EnqueueStep(S(), chain);
      toFree := toFree + chain;
    }

    /** fcache_flush_pending_units, as far as the units go. */
    method FlushPending()
      requires Inv(S())
      modifies this`units, this`sizes, this`toFree, this`toFlush, this`now
      ensures Inv(S()) && toFlush == [] && toFree == old(toFree) + old(toFlush)
      ensures now == old(now) + if old(toFlush) == [] then 0 else 1
      ensures units.Keys == old(units).Keys
      ensures forall u {:trigger units[u]} :: u in units ==>
                units[u] == if u in old(toFlush) then Flushed(old(units)[u], now, IsLast(old(toFlush), u))
                            else old(units)[u]
      // no thread that is in a flushed unit has already been waited for
      ensures forall u {:trigger units[u]} :: u in old(toFlush) ==> u in units && units[u].flushtime > old(now)
      ensures AllCached(S()) <==> old(AllCached(S())) && |old(toFlush)| <= 1
    {
      var chain := toFlush;
      ghost var o := S();
      toFlush := [];
      if chain == [] {
        return;
      }
      now := now + 1;
      assert Inv(S()) by {
        forall u | u in toFree ensures Leaving(live, units, u, now) {
          assert Leaving(o.live, o.units, u, o.now);
        }
      }
      MarkFlushed(chain);
      AppendUnitsToFreeList(chain);
      Cleared(o, S(), chain);
      forall u | u in chain ensures u in o.units && (u in chain[..|chain| - 1] <==> !IsLast(chain, u)) {
        WaitingUnit(o, u);
        LastOnly(chain, u);
      }
    }

    /** fcache_flush_pending_units' walks over the chain it took. */
    method MarkFlushed(chain: seq<int>)
      requires Inv(S()) && Distinct(chain)
      requires forall u :: u in chain ==> u in live && u in units && u !in toFree && u !in toFlush
      modifies this`units
      ensures Inv(S()) && units.Keys == old(units).Keys
      ensures forall u {:trigger units[u]} :: u in units ==>
                units[u] == if u in chain then old(units)[u].(pendingFree := true, flushtime := now) else old(units)[u]
    {
      ghost var o := S();
      var i := 0;
      while i < |chain|
        invariant 0 <= i <= |chain| && Inv(S()) && S() == o.(units := units) && units.Keys == o.units.Keys
        invariant forall u {:trigger units[u]} :: u in units ==>
                    units[u] == if u in chain[..i] then o.units[u].(pendingFree := true, flushtime := now)
                      else o.units[u]
      {
        var u := chain[i];
        assert u in chain && o.units[u].Valid();
        UpdateStep(S(), u, units[u].(pendingFree := true, flushtime := now), sizes);
        units := units[u := units[u].(pendingFree := true, flushtime := now)];
        assert chain[..i + 1] == chain[..i] + [u];
        i := i + 1;
      }
      assert chain[..i] == chain;
    }

    /** fcache_free_unit; not `ok` is the NULL dereference of remove_unit_from_cache. Without `reuse` the
        unit is not kept and the caller deallocates its memory. */
    method FreeUnit(u: int, reuse: bool, threads: nat, ghost k: int) returns (ok: bool, ghost at: int)
      requires Inv(S()) && 0 <= k < |live| && live[k] == u && u in units && u !in toFlush && u !in toFree
      modifies this`units, this`live, this`dead, this`numDead, this`sizes
      ensures ok <==> !(reuse && old(Keeps(numDead, threads))) || old(units)[u].cache != 0
      ensures ok ==> Inv(S())
      ensures ok && reuse && old(Keeps(numDead, threads)) ==> 0 <= at <= |old(dead)| && S() == Retired(old(S()), k, at)
      ensures ok && !(reuse && old(Keeps(numDead, threads))) ==> S() == Dealloced(old(S()), k)
    {
      hide Inv;
      DeadFacts(S());
      UnitFacts(S(), u);
      ok, at := true, 0;
      ghost var st := S();
      live := RemoveFromLive(u, k);
      var c := units[u].cache;
      if reuse && Keeps(numDead, threads) {
        if c == 0 {
          return false, 0;
        }
        var i := InsertionPoint(u);
        at := i;
        RetireStep(st, k, at);
        dead, numDead := dead[..i] + [u] + dead[i..], numDead + 1;
        sizes := sizes[c := sizes[c] - units[u].size];
        units := units[u := units[u].(cache := 0)];
      } else {
        DeallocStep(st, k);
        if c != 0 {
          sizes := sizes[c := sizes[c] - units[u].size];
        }
        units := units - {u};
      }
    }

    /** Unlinking from the doubly linked live list. */
    method RemoveFromLive(u: int, ghost k: int) returns (l: seq<int>)
      requires Distinct(live) && 0 <= k < |live| && live[k] == u
      ensures l == Without(live, k)
    {
      var i :| 0 <= i < |live| && live[i] == u;
      l := live[..i] + live[i + 1..];
    }

    /** Where a unit goes on the dead list, kept sorted small to large. */
    method InsertionPoint(u: int) returns (i: nat)
      requires u in units && SizeSorted(units, dead) && forall j :: 0 <= j < |dead| ==> dead[j] in units
      ensures i <= |dead|
      ensures forall j :: 0 <= j < i ==> dead[j] in units && units[dead[j]].size < units[u].size
      ensures forall j :: i <= j < |dead| ==> dead[j] in units && units[u].size <= units[dead[j]].size
    {
      i := 0;
      while i < |dead| && units[dead[i]].size < units[u].size
        invariant 0 <= i <= |dead|
        invariant forall j :: 0 <= j < i ==> dead[j] in units && units[dead[j]].size < units[u].size
      {
        i := i + 1;
      }
    }

    /** One round of fcache_free_pending_units. */
    method FreeNext(threads: nat) returns (ok: bool)
      requires Inv(S()) && toFree != [] && toFree[0] in units
      modifies this`units, this`live, this`dead, this`numDead, this`sizes, this`toFree
      ensures ok <==> !old(Keeps(numDead, threads)) || old(units[toFree[0]]).cache != 0
      ensures ok ==> Inv(S()) && toFree == old(toFree)[1..]
      ensures ok ==> numDead == if old(Keeps(numDead, threads)) then old(numDead) + 1 else old(numDead)
      ensures ok ==> units - {old(toFree[0])} == old(units) - {old(toFree[0])}
      ensures ok ==> forall x :: x in live <==> x in old(live) && x != old(toFree[0])
      ensures ok ==> forall x :: x in dead <==> x in old(dead) || (old(Keeps(numDead, threads)) && x == old(toFree[0]))
    {
      hide Inv;
      var u := toFree[0];
      PopStep(S());
      toFree := toFree[1..];
      units := units[u := units[u].(pendingFree := false)];
      ghost var k :| 0 <= k < |live| && live[k] == u;
      DeadFacts(S());
      StillIn(live, k);
      ghost var at;
      ok, at := FreeUnit(u, true, threads, k);
    }

    /** fcache_free_pending_units: the units whose flushtime has come, unless a unit that is to be
        kept on the dead list has lost its cache. */
    method FreePending(t: nat, threads: nat) returns (ok: bool)
      requires Inv(S())
      modifies this`units, this`live, this`dead, this`numDead, this`sizes, this`toFree
      ensures ok <==> old(SafeToFree(S(), t, threads))
      ensures ok ==> Inv(S()) && FreedDue(old(S()), S(), t, threads)
    {
      hide Inv, FreedSoFar, FreedDue, Due, SafeToFree, TimeSorted, Keeps;
      ghost var o, i := S(), 0;
      ok := true;
      QueueFacts(o);
      FreedNone(o, t, threads);
      while toFree != [] && units[toFree[0]].flushtime <= t
        invariant Inv(S()) && FreedSoFar(o, S(), i, t, threads) && (toFree != [] ==> toFree[0] in units)
        decreases |toFree|
      {
        QueueFacts(S());
        FreeStep(o, S(), i, t, threads);
        ghost var st := S();
        ok := FreeNext(threads);
        if !ok {
          return;
        }
        FreedNext(o, st, S(), i, t, threads);
        QueueFacts(S());
        i := i + 1;
      }
      FreedAll(o, S(), i, t, threads);
    }
  }

  lemma {:induction false} NoBytes(l: seq<int>, us: map<int, UnitRecord>, c: int)
    requires forall u {:trigger us[u]} :: u in us ==> us[u].cache != c
    ensures CacheBytes(l, us, c) == 0
  {
    if l != [] {
      NoBytes(l[1..], us, c);
    }
  }

  /** While the dead list can take all that wait, one that names no cache is one too many. */
  lemma UnsafeNow(st: State, threads: nat)
    requires Inv(st) && st.numDead + |st.toFree| <= DeadLimit(threads)
    ensures SafeToFree(st, st.now, threads) ==> AllCached(st)
  {
    QueueFacts(st);
    assert forall i :: 0 <= i < |st.toFree| ==> st.toFree[i] in st.toFree;
    DueExact(st.units, st.toFree, st.now);
    forall u | SafeToFree(st, st.now, threads) && u in st.toFree && u in st.units ensures st.units[u].cache != 0 {
      var i :| 0 <= i < |st.toFree| && st.toFree[i] == u;
      assert Leaving(st.live, st.units, u, st.now);
      assert st.units[st.toFree[i]].flushtime <= st.now;
      assert i < Due(st.units, st.toFree, st.now) && i < DeadLimit(threads) - st.numDead;
    }
  }

  /** Freeing is safe whenever it happens and however many threads there are exactly when every
      waiting unit still names its cache. */
  lemma SafeForever(st: State)
    requires Inv(st)
    ensures AllCached(st) <==> forall t, threads :: SafeToFree(st, t, threads)
  {
    UnsafeNow(st, 4 * (|st.toFree| + st.numDead + 5));
    forall t, threads | AllCached(st) ensures SafeToFree(st, t, threads) {
      forall i | 0 <= i < |st.toFree| && st.toFree[i] in st.units ensures st.units[st.toFree[i]].cache != 0 {
        var u := st.toFree[i];
        assert u in st.toFree && st.units[u].cache != 0;
      }
    }
  }

  /** Flushing and then freeing for threads that were last seen before the flush frees none of the flushed
      units under them. */
  method FlushThenFree(a: AllUnits, t: nat, threads: nat) returns (ok: bool)
    requires Inv(a.S()) && t <= a.now
    modifies a
    ensures ok ==> forall u :: u in old(a.toFlush) ==> u in a.toFree && u in a.live
  {
    hide Inv, SafeToFree, AllCached, FreedDue;
    ghost var was := a.toFlush;
    a.FlushPending();
    ghost var o := a.S();
    QueueFacts(o);
    assert forall u :: u in was ==> u in o.toFree && o.units[u].flushtime > t;
    ok := a.FreePending(t, threads);
    if ok {
      forall u | u in was ensures u in a.toFree && u in a.live {
        NotYetDue(o, a.S(), t, threads, u);
      }
    }
  }

  /** Two units marked before either is flushed: freeing them follows a NULL cache. */
  method ChainOfTwoFaults() returns (ok: bool)
    ensures !ok
  {
    hide Inv, SafeToFree, AllCached, Reused;
    var a := new AllUnits();
    a.AddCache(1);
    ghost var k;
    var u, v;
    u, k := a.CreateUnit(1, 4096, 0, 4096, 10, 0x10000);
    v, k := a.CreateUnit(1, 4096, 0, 4096, 11, 0x20000);
    assert u in a.live && v in a.live;
    a.QueueForFlush(u);
    a.QueueForFlush(v);
    a.FlushPending();
    UnsafeNow(a.S(), 1);
    ok := a.FreePending(a.now, 1);
  }
}
