/**
  The pending signals of a thread: for every signal number a list, newest first, and the flag that
  tells the dispatcher and the generated code to look at them.
 */
module Signals {

  const MAX_SIGNUM := 64

  type SigNum = n: int | 1 <= n <= MAX_SIGNUM witness 1

  /** A signal as it arrives: unblocked, with a handler of the application. */
  datatype Sig = Sig(num: SigNum, handler: int)

  /** sigpending_t: what will be started, and as the how manieth signal of the thread it arrived. */
  datatype Pend = Pend(handler: int, ghost stamp: nat)

  /** The lists of all signal numbers. */
  type Queues = p: seq<seq<Pend>> | |p| == MAX_SIGNUM + 1 witness seq(MAX_SIGNUM + 1, _ => [])

  /** The flag is positive while a signal is pending and negative while one is handled; `arrived` are all
      signals so far, and `dropped` the stamps of those given up. */
  datatype SigInfo = SigInfo(flag: int, lists: Queues, arrived: seq<Sig>, dropped: set<nat>)

  /** sig_is_alarm_signal */
  predicate IsAlarm(n: int) {
    n == 14 || n == 26 || n == 27
  }

  /** The lowest number from `n` on with a pending signal, or one past the last number. */
  ghost function LowestFrom(p: Queues, n: int): (r: int)
    requires 1 <= n <= MAX_SIGNUM + 1
    ensures n <= r <= MAX_SIGNUM + 1 && (r <= MAX_SIGNUM ==> p[r] != [])
    ensures forall k :: n <= k < r ==> p[k] == []
    decreases MAX_SIGNUM + 1 - n
  {
    if n == MAX_SIGNUM + 1 || p[n] != [] then n else LowestFrom(p, n + 1)
  }

  ghost function Lowest(p: Queues): (r: int)
    ensures 1 <= r <= MAX_SIGNUM + 1 && (r <= MAX_SIGNUM ==> p[r] != [])
    ensures forall k :: 1 <= k < r ==> p[k] == []
  {
    LowestFrom(p, 1)
  }

  ghost predicate AnyPending(g: SigInfo) {
    Lowest(g.lists) <= MAX_SIGNUM
  }

  ghost predicate FlagOk(g: SigInfo) {
    -1 <= g.flag <= 1 && (g.flag > 0 ==> AnyPending(g))
  }

  /** No pending signal is forgotten. */
  ghost predicate Flagged(g: SigInfo) {
    AnyPending(g) ==> g.flag != 0
  }

  /** record_pending_signal: put first on its number's list. Of three alarms the middle one is given up. */
  ghost function Recorded(g: SigInfo, x: Sig): SigInfo {
    var l := g.lists[x.num];
    var full := IsAlarm(x.num) && |l| >= 2;
    SigInfo(if g.flag == 0 then 1 else g.flag,
            g.lists[x.num := [Pend(x.handler, |g.arrived|)] + if full then l[1..] else l],
            g.arrived + [x],
            if full then g.dropped + {l[0].stamp} else g.dropped)
  }

  ghost function RecordedAll(g: SigInfo, xs: seq<Sig>): SigInfo {
    if xs == [] then g else Recorded(RecordedAll(g, xs[..|xs| - 1]), xs[|xs| - 1])
  }

  /** The signal receive_pending_signal starts. */
  ghost function First(g: SigInfo): Pend
    requires AnyPending(g)
  {
    g.lists[Lowest(g.lists)][0]
  }

  ghost function Taken(g: SigInfo): SigInfo
    requires AnyPending(g)
  {
    var n := Lowest(g.lists);
    g.(flag := -1, lists := g.lists[n := g.lists[n][1..]])
  }

  // ----- every signal is accounted for

  /** Entry `j` of the list of number `n` is a signal of that number. */
  ghost predicate EntryOk(g: SigInfo, n: int, j: int) {
    0 <= n <= MAX_SIGNUM && 0 <= j < |g.lists[n]| ==>
      var e := g.lists[n][j];
      e.stamp < |g.arrived| && g.arrived[e.stamp].num == n && g.arrived[e.stamp].handler == e.handler
  }

  ghost predicate NewestFirst(l: seq<Pend>) {
    forall i, j :: 0 <= i < j < |l| ==> l[i].stamp > l[j].stamp
  }

  ghost predicate Waits(l: seq<Pend>, i: nat) {
    exists j :: 0 <= j < |l| && l[j].stamp == i
  }

  /** Signal `i` was started, or waits, or was given up: exactly one of them. */
  ghost predicate FateOk(g: SigInfo, started: seq<Pend>, i: int) {
    0 <= i < |g.arrived| ==>
      var waits := Waits(g.lists[g.arrived[i].num], i);
      && (Waits(started, i) || waits || i in g.dropped)
      && !(Waits(started, i) && waits) && !(Waits(started, i) && i in g.dropped) && !(waits && i in g.dropped)
  }

  ghost predicate StartOk(g: SigInfo, e: Pend) {
    e.stamp < |g.arrived| && g.arrived[e.stamp].handler == e.handler
  }

  /** `started` are signals that arrived, each once; every other signal that arrived is pending, once, in
      its number's list, or is an alarm that was given up. */
  ghost predicate Accounted(g: SigInfo, started: seq<Pend>) {
    && (forall n, j {:trigger EntryOk(g, n, j)} :: EntryOk(g, n, j))
    && (forall n :: 0 <= n <= MAX_SIGNUM ==> NewestFirst(g.lists[n]) && (IsAlarm(n) ==> |g.lists[n]| <= 2))
    && (forall k :: 0 <= k < |started| ==> StartOk(g, started[k]))
    && (forall k, l :: 0 <= k < l < |started| ==> started[k].stamp != started[l].stamp)
    && (forall i {:trigger FateOk(g, started, i)} :: FateOk(g, started, i))
    && (forall i :: i in g.dropped ==> i < |g.arrived| && IsAlarm(g.arrived[i].num))
  }

  /** What a list holds without its newest entry. */
  lemma TailWaits(l: seq<Pend>, i: nat)
    requires l != [] && NewestFirst(l)
    ensures NewestFirst(l[1..]) && (Waits(l[1..], i) <==> Waits(l, i) && i != l[0].stamp)
  {
    if Waits(l, i) && i != l[0].stamp {
      var j :| 0 <= j < |l| && l[j].stamp == i;
      assert l[1..][j - 1].stamp == i;
    }
    if Waits(l[1..], i) {
      var j :| 0 <= j < |l[1..]| && l[1..][j].stamp == i;
      assert l[j + 1].stamp == i;
    }
  }

  lemma HeadWaits(l: seq<Pend>, e: Pend, i: nat)
    ensures Waits([e] + l, i) <==> Waits(l, i) || i == e.stamp
  {
    var r := [e] + l;
    if Waits(l, i) {
      var j :| 0 <= j < |l| && l[j].stamp == i;
      assert r[j + 1].stamp == i;
    }
    assert r[0] == e;
  }

  lemma BackWaits(l: seq<Pend>, e: Pend, i: nat)
    ensures Waits(l + [e], i) <==> Waits(l, i) || i == e.stamp
  {
    var r := l + [e];
    if Waits(l, i) {
      var j :| 0 <= j < |l| && l[j].stamp == i;
      assert r[j].stamp == i;
    }
    assert r[|l|] == e;
  }

  lemma RecordedLists(g: SigInfo, started: seq<Pend>, x: Sig)
    requires Accounted(g, started)
    ensures forall j :: 0 <= j < |g.lists[x.num]| ==> g.lists[x.num][j].stamp < |g.arrived|
    ensures forall m, j {:trigger EntryOk(Recorded(g, x), m, j)} :: EntryOk(Recorded(g, x), m, j)
    ensures forall m :: 0 <= m <= MAX_SIGNUM ==>
                          var l := Recorded(g, x).lists[m]; NewestFirst(l) && (IsAlarm(m) ==> |l| <= 2)
  {
    var r, n, t := Recorded(g, x), x.num, |g.arrived|;
    forall j | 0 <= j < |g.lists[n]| ensures g.lists[n][j].stamp < t {
      assert EntryOk(g, n, j);
    }
    forall m, j ensures EntryOk(r, m, j) {
      assert EntryOk(g, m, j) && EntryOk(g, m, j - 1);
    }
    forall m | 0 <= m <= MAX_SIGNUM ensures NewestFirst(r.lists[m]) && (IsAlarm(m) ==> |r.lists[m]| <= 2) {
      assert NewestFirst(g.lists[m]);
      assert forall j :: 0 < j < |r.lists[n]| ==> r.lists[n][j].stamp < t;
    }
  }

  lemma RecordedOk(g: SigInfo, started: seq<Pend>, x: Sig)
    requires Accounted(g, started)
    ensures Accounted(Recorded(g, x), started)
  {
    RecordedLists(g, started, x);
    var r, n, t := Recorded(g, x), x.num, |g.arrived|;
    var l := g.lists[n];
    var full := IsAlarm(n) && |l| >= 2;
    if full {
      assert EntryOk(g, n, 0) && Waits(l, l[0].stamp);
    }
    forall i ensures FateOk(r, started, i) {
      assert FateOk(g, started, i);
      if 0 <= i <= t {
        if full {
          TailWaits(l, i);
        }
        HeadWaits(if full then l[1..] else l, Pend(x.handler, t), i);
        NotYet(g, started, l, i);
      }
    }
  }

  lemma NotYet(g: SigInfo, started: seq<Pend>, l: seq<Pend>, i: nat)
    requires Accounted(g, started) && forall j :: 0 <= j < |l| ==> l[j].stamp < |g.arrived|
    ensures i >= |g.arrived| ==> !Waits(started, i) && !Waits(l, i) && i !in g.dropped
  {
    forall k | 0 <= k < |started| ensures started[k].stamp < |g.arrived| {
      assert StartOk(g, started[k]);
    }
  }

  /** A third alarm replaces the newer of the two that are pending; the oldest stays. */
  lemma ThirdAlarm(g: SigInfo, started: seq<Pend>, x: Sig)
    requires Accounted(g, started) && IsAlarm(x.num) && |g.lists[x.num]| >= 2
    ensures var l, r := g.lists[x.num], Recorded(g, x);
      && l[1].stamp < l[0].stamp && r.dropped == g.dropped + {l[0].stamp}
      && r.lists[x.num] == [Pend(x.handler, |g.arrived|), l[1]]
  {
    assert NewestFirst(g.lists[x.num]);
  }

  /** Starting the first pending signal. */
  lemma TakenOk(g: SigInfo, started: seq<Pend>)
    requires Accounted(g, started) && AnyPending(g)
    ensures Accounted(Taken(g), started + [First(g)])
  {
    var r, n, e := Taken(g), Lowest(g.lists), First(g);
    var l, started' := g.lists[n], started + [First(g)];
    assert EntryOk(g, n, 0);
    forall m, j ensures EntryOk(r, m, j) {
      assert EntryOk(g, m, j) && EntryOk(g, m, j + 1);
    }
    forall m | 0 <= m <= MAX_SIGNUM ensures NewestFirst(r.lists[m]) && (IsAlarm(m) ==> |r.lists[m]| <= 2) {
      assert NewestFirst(g.lists[m]);
    }
    assert l[0] == e && Waits(l, e.stamp) && FateOk(g, started, e.stamp);
    forall k | 0 <= k < |started| ensures started[k].stamp != e.stamp {
      assert started[k].stamp == e.stamp ==> Waits(started, e.stamp);
    }
    forall i ensures FateOk(r, started', i) {
      assert FateOk(g, started, i);
      if 0 <= i < |g.arrived| {
        TailWaits(l, i);
        BackWaits(started, e, i);
      }
    }
    forall k | 0 <= k < |started'| ensures StartOk(r, started'[k]) {
      assert k < |started| ==> StartOk(g, started[k]);
    }
  }

  /** The accounts do not depend on the flag. */
  lemma FlagFree(g: SigInfo, started: seq<Pend>, flag: int)
    requires Accounted(g, started)
    ensures Accounted(g.(flag := flag), started)
  {
    var r := g.(flag := flag);
    forall n, j ensures EntryOk(r, n, j) {
      assert EntryOk(g, n, j);
    }
    forall i ensures FateOk(r, started, i) {
      assert FateOk(g, started, i);
    }
    forall k | 0 <= k < |started| ensures StartOk(r, started[k]) {
      assert StartOk(g, started[k]);
    }
  }

  lemma {:induction false} RecordedAllOk(g: SigInfo, started: seq<Pend>, xs: seq<Sig>)
    ensures var r := RecordedAll(g, xs);
      && (Accounted(g, started) ==> Accounted(r, started)) && (FlagOk(g) ==> FlagOk(r)) && (Flagged(g) ==> Flagged(r))
      && r.arrived == g.arrived + xs && (AnyPending(r) <==> AnyPending(g) || xs != [])
      && r.flag == (if xs != [] && g.flag == 0 then 1 else g.flag)
  {
    if xs != [] {
      var n := |xs| - 1;
      RecordedAllOk(g, started, xs[..n]);
      var m := RecordedAll(g, xs[..n]);
      if Accounted(g, started) {
        RecordedOk(m, started, xs[n]);
      }
      assert xs[..n] + [xs[n]] == xs;
      assert Recorded(m, xs[n]).lists[xs[n].num] != [];
    }
  }

  // ----- the order in which signals are started

  ghost predicate IsPending(g: SigInfo, n: int, j: int) {
    1 <= n <= MAX_SIGNUM && 0 <= j < |g.lists[n]|
  }

  /** The signal that is started is the newest of the lowest pending number. */
  lemma FirstWhich(g: SigInfo, started: seq<Pend>, n: int, j: int)
    requires Accounted(g, started) && AnyPending(g) && IsPending(g, n, j)
    ensures var k := Lowest(g.lists); k < n || (k == n && (j == 0 || g.lists[n][j].stamp < First(g).stamp))
  {
  }

  /** It is the oldest pending one exactly when it is alone in its number and every pending signal of a
      higher number arrived later. */
  lemma OldestExactly(g: SigInfo, started: seq<Pend>)
    requires Accounted(g, started) && AnyPending(g)
    ensures (forall n, j {:trigger IsPending(g, n, j)} :: IsPending(g, n, j) ==>
               First(g).stamp <= g.lists[n][j].stamp) <==>
            |g.lists[Lowest(g.lists)]| == 1
            && forall n, j {:trigger IsPending(g, n, j)} :: Lowest(g.lists) < n && IsPending(g, n, j) ==>
                 First(g).stamp < g.lists[n][j].stamp
  {
    var k, e := Lowest(g.lists), First(g);
    var l := g.lists[k];
    if forall n, j {:trigger IsPending(g, n, j)} :: IsPending(g, n, j) ==> e.stamp <= g.lists[n][j].stamp {
      if |l| > 1 {
        assert NewestFirst(l) && IsPending(g, k, 1);
      }
      forall n, j | k < n && IsPending(g, n, j) ensures e.stamp < g.lists[n][j].stamp {
        assert EntryOk(g, n, j) && EntryOk(g, k, 0);
      }
    }
  }

  /** Two signals, the one of the higher number first: the other one is started first. */
  lemma LowerFirst(g: SigInfo, hi: Sig, lo: Sig)
    requires !AnyPending(g) && lo.num <= hi.num
    ensures var r := RecordedAll(g, [hi, lo]); AnyPending(r) && First(r) == Pend(lo.handler, |g.arrived| + 1)
  {
    var xs := [hi, lo];
    assert xs[..1] == [hi] && [hi][..0] == [];
    assert RecordedAll(g, [hi]) == Recorded(RecordedAll(g, []), hi);
    var r := RecordedAll(g, xs);
    assert r == Recorded(Recorded(g, hi), lo) && r.lists[lo.num] != [];
  }

  // ----- how many are pending

  /** The signals pending in the lists from number `n` on. */
  ghost function CountFrom(p: Queues, n: int): (r: nat)
    requires 1 <= n <= MAX_SIGNUM + 1
    ensures r == 0 <==> forall k :: n <= k <= MAX_SIGNUM ==> p[k] == []
    decreases MAX_SIGNUM + 1 - n
  {
    if n == MAX_SIGNUM + 1 then 0 else |p[n]| + CountFrom(p, n + 1)
  }

  ghost function Count(g: SigInfo): (r: nat)
    ensures r == 0 <==> !AnyPending(g)
  {
    CountFrom(g.lists, 1)
  }

  /** Changing one list changes its own share only. */
  lemma {:induction false} CountUpdate(p: Queues, k: SigNum, l: seq<Pend>, n: int)
    requires 1 <= n <= MAX_SIGNUM + 1
    ensures CountFrom(p[k := l], n) == CountFrom(p, n) + if n <= k then |l| - |p[k]| else 0
    decreases MAX_SIGNUM + 1 - n
  {
    if n <= MAX_SIGNUM {
      CountUpdate(p, k, l, n + 1);
    }
  }

  /** Starting a signal takes it off the pending ones. */
  lemma TakenOne(g: SigInfo)
    requires AnyPending(g)
    ensures Count(Taken(g)) == Count(g) - 1
  {
    var n := Lowest(g.lists);
    CountUpdate(g.lists, n, g.lists[n][1..], 1);
  }

  /** One that arrives joins them, unless it takes the place of an alarm. */
  lemma RecordedOne(g: SigInfo, x: Sig)
    ensures Count(Recorded(g, x)) == Count(g) + if IsAlarm(x.num) && |g.lists[x.num]| >= 2 then 0 else 1
  {
    CountUpdate(g.lists, x.num, Recorded(g, x).lists[x.num], 1);
  }
}
