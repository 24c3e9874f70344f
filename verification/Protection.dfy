/**
  Self-protection of the runtime's data sections: any number of threads open and close windows in
  which a section is writable, and the sections protected on context switches are writable while
  some thread is in the runtime. Threads interleave between every two statements that lock, test,
  count or change pages.
 */
module Protection {

  /** .rspdata, .fspdata and .cspdata */
  datatype Sec = Rare | Freq | Cxtsw

  /** A data section: its lock's owner (0 for none), its counter, which lies in the section itself,
      and whether its pages are writable. `open` are the windows threads have open on it, and
      `held` says that it is kept writable for the threads in the runtime. */
  datatype Section = Section(lock: int, count: int, writable: bool, open: multiset<int>, held: bool)

  /** Progress through protect_data_section. Unprotecting makes the pages writable first and counts
      second; protecting counts first and makes them read-only second. */
  datatype Phase = AtLock | AtFirst | AtSecond | AtUnlock

  /** What a thread executes next. */
  datatype Pc =
    | Outside                  // none of the functions
    | EnterLock                // dynamorio_unprotect: about to lock
    | EnterCount               //   about to count itself in
    | EnterUnlock              //   about to unlock
    | LeaveLock                // dynamorio_protect: about to lock
    | LeaveCount               //   about to count itself out
    | LeaveUnlock              //   about to unlock
    // protect_data_section, for a window of the thread's own or from one of those two functions
    | Call(write: bool, phase: Phase, sec: Sec, own: bool)

  /** protect_info's lock and num_threads_unprot, the three sections, and where the threads are.
      `inside` are the threads counted in. */
  datatype State = State(lock: int, num: int, rare: Section, freq: Section, cxtsw: Section, pcs: map<int, Pc>,
                         inside: set<int>)

  function Get(st: State, s: Sec): Section {
    match s case Rare => st.rare case Freq => st.freq case Cxtsw => st.cxtsw
  }

  function Set(st: State, s: Sec, v: Section): State {
    match s case Rare => st.(rare := v) case Freq => st.(freq := v) case Cxtsw => st.(cxtsw := v)
  }

  function PcOf(st: State, t: int): Pc {
    if t in st.pcs then st.pcs[t] else Outside
  }

  function Goto(st: State, t: int, pc: Pc): State {
    st.(pcs := st.pcs[t := pc])
  }

  // ----- the steps

  /** What a thread outside may start. */
  datatype Choice = Unprotect(sec: Sec) | Protect(sec: Sec) | EnterRuntime | LeaveRuntime

  /** Calls are paired: a thread closes windows it has opened and leaves the runtime it entered. */
  predicate MayStart(st: State, t: int, c: Choice) {
    match c
    case Unprotect(s) => true
    case Protect(s) => Get(st, s).open[t] > 0
    case EnterRuntime => t !in st.inside
    case LeaveRuntime => t in st.inside
  }

  function Started(c: Choice): Pc {
    match c
    case Unprotect(s) => Call(true, AtLock, s, true)
    case Protect(s) => Call(false, AtLock, s, true)
    case EnterRuntime => EnterLock
    case LeaveRuntime => LeaveLock
  }

  /** A thread can take its next step: locks are free when it wants them. */
  predicate Enabled(st: State, t: int, c: Choice) {
    && t != 0
    && match PcOf(st, t)
       case Outside => MayStart(st, t, c)
       case EnterLock => st.lock == 0
       case LeaveLock => st.lock == 0
       case Call(_, AtLock, s, _) => Get(st, s).lock == 0
       case _ => true
  }

  /** Where protect_data_section returns to. */
  function ReturnTo(pc: Pc): Pc
    requires pc.Call?
  {
    if pc.own then Outside
    else if pc.write then if pc.sec == Cxtsw then Call(true, AtLock, Freq, false) else EnterUnlock
    else if pc.sec == Freq then Call(false, AtLock, Cxtsw, false) else LeaveUnlock
  }

  /** The counter goes up or down by a window, or by the runtime's hold. */
  function Counted(v: Section, t: int, pc: Pc): Section
    requires pc.Call?
  {
    var v' := v.(count := if pc.write then v.count + 1 else v.count - 1);
    if !pc.own then v'.(held := pc.write)
    else v'.(open := if pc.write then v.open + multiset{t} else v.open - multiset{t})
  }

  /** The pages change if the counter is 0. */
  function Made(v: Section, write: bool): Section {
    if v.count == 0 then v.(writable := write) else v
  }

  /** The section after a step of protect_data_section. */
  function NextSection(v: Section, t: int, pc: Pc): Section
    requires pc.Call?
  {
    match pc.phase
    case AtLock => v.(lock := t)
    case AtFirst => if pc.write then Made(v, true) else Counted(v, t, pc)
    case AtSecond => if pc.write then Counted(v, t, pc) else Made(v, false)
    case AtUnlock => v.(lock := 0)
  }

  function NextPc(pc: Pc): Pc
    requires pc.Call?
  {
    match pc.phase
    case AtLock => pc.(phase := AtFirst)
    case AtFirst => pc.(phase := AtSecond)
    case AtSecond => pc.(phase := AtUnlock)
    case AtUnlock => ReturnTo(pc)
  }

  function CallStep(st: State, t: int, pc: Pc): State
    requires pc.Call?
  {
    Goto(Set(st, pc.sec, NextSection(Get(st, pc.sec), t, pc)), t, NextPc(pc))
  }

  function Next(st: State, t: int, c: Choice): State {
    match PcOf(st, t)
    case Outside => Goto(st, t, Started(c))
    case EnterLock => Goto(st.(lock := t), t, EnterCount)
    case EnterCount =>
      Goto(st.(num := st.num + 1, inside := st.inside + {t}), t,
           if st.num + 1 == 1 then Call(true, AtLock, Cxtsw, false) else EnterUnlock)
    case EnterUnlock => Goto(st.(lock := 0), t, Outside)
    case LeaveLock => Goto(st.(lock := t), t, LeaveCount)
    case LeaveCount =>
      if st.num <= 0 then Goto(st.(num := 0), t, LeaveUnlock)
      else Goto(st.(num := st.num - 1, inside := st.inside - {t}), t,
                if st.num - 1 > 0 then LeaveUnlock else Call(false, AtLock, Freq, false))
    case LeaveUnlock => Goto(st.(lock := 0), t, Outside)
    case Call(_, _, _, _) => CallStep(st, t, PcOf(st, t))
  }

  // ----- the invariant

  /** The thread owns the lock of `s`. */
  predicate InSection(pc: Pc, s: Sec) {
    pc.Call? && pc.phase != AtLock && pc.sec == s
  }

  /** The thread owns protect_info's lock. */
  predicate InProtect(pc: Pc) {
    pc.EnterCount? || pc.EnterUnlock? || pc.LeaveCount? || pc.LeaveUnlock? || (pc.Call? && !pc.own)
  }

  /** The counter counts the windows and the hold; the pages are writable while it is positive and
      between the two actions of a thread in the critical section. `pc` is where the lock's owner is. */
  ghost predicate Counts(v: Section, pc: Pc, s: Sec) {
    && v.count == |v.open| + (if v.held then 1 else 0)
    && (v.lock != 0 ==> InSection(pc, s))
    && (v.writable <==> v.count > 0 || (v.lock != 0 && pc.Call? && pc.phase == AtSecond))
  }

  ghost predicate SectionOk(st: State, s: Sec) {
    Counts(Get(st, s), PcOf(st, Get(st, s).lock), s)
  }

  /** Threads in a critical section own its lock, and what they rely on holds. */
  ghost predicate ThreadOk(st: State, t: int) {
    var pc := PcOf(st, t);
    && (pc.Call? && pc.phase != AtLock ==> Get(st, pc.sec).lock == t)
    && (InProtect(pc) ==> st.lock == t)
    && (pc.EnterLock? || pc.EnterCount? ==> t !in st.inside)
    && (pc.LeaveLock? || pc.LeaveCount? ==> t in st.inside)
    && (pc.Call? && !pc.write && pc.own && (pc.phase == AtLock || pc.phase == AtFirst) ==> Get(st, pc.sec).open[t] > 0)
    && (pc.Call? && !pc.own ==> pc.sec != Rare)
  }

  /** Whether the runtime keeps `s` writable while the owner of protect_info's lock is at `pc`. */
  predicate HeldAt(pc: Pc, s: Sec, some: bool) {
    if !pc.Call? || pc.own then s != Rare && some
    else if pc.write then
      || (s == Cxtsw && (pc.sec == Freq || pc.phase == AtUnlock))
      || (s == Freq && pc.sec == Freq && pc.phase == AtUnlock)
    else
      var before := pc.phase == AtLock || pc.phase == AtFirst;
      (s == Cxtsw && (pc.sec == Freq || before)) || (s == Freq && pc.sec == Freq && before)
  }

  ghost predicate ProtectOk(st: State) {
    var pc := PcOf(st, st.lock);
    && (st.lock != 0 ==> InProtect(pc))
    && st.rare.held == HeldAt(pc, Rare, st.inside != {})
    && st.freq.held == HeldAt(pc, Freq, st.inside != {})
    && st.cxtsw.held == HeldAt(pc, Cxtsw, st.inside != {})
    && (pc.Call? && !pc.own ==> st.inside == if pc.write then {st.lock} else {})
  }

  ghost predicate Inv(st: State) {
    && st.num == |st.inside| && 0 !in st.inside && 0 !in st.pcs
    && SectionOk(st, Rare) && SectionOk(st, Freq) && SectionOk(st, Cxtsw)
    && (forall t {:trigger ThreadOk(st, t)} :: ThreadOk(st, t))
    && ProtectOk(st)
  }

  // ----- every step keeps it

  lemma Others(st: State, st': State, t: int)
    requires (forall x {:trigger ThreadOk(st, x)} :: ThreadOk(st, x)) && ThreadOk(st', t)
    requires forall x :: x != t ==> PcOf(st', x) == PcOf(st, x)
    requires forall x :: x != t ==> (x in st'.inside <==> x in st.inside)
    requires st'.lock == st.lock || (st.lock == 0 && st'.lock == t) || (st.lock == t && st'.lock == 0)
    requires forall s :: SameFor(Get(st, s), Get(st', s), t)
    requires t != 0 && 0 !in st.pcs && 0 !in st'.pcs
    ensures forall x {:trigger ThreadOk(st', x)} :: ThreadOk(st', x)
  {
    forall x ensures ThreadOk(st', x) {
      assert ThreadOk(st, x);
    }
  }

  /** For the other threads the section is as before. */
  ghost predicate SameFor(v: Section, v': Section, t: int) {
    && (v'.lock == v.lock || (v.lock == 0 && v'.lock == t) || (v.lock == t && v'.lock == 0))
    && forall x :: x != t ==> v'.open[x] == v.open[x]
  }

  /** Only `t` moved. */
  ghost predicate OnlyMoved(st: State, st': State, t: int) {
    t != 0 && 0 !in st.pcs && 0 !in st'.pcs && forall x :: x != t ==> PcOf(st', x) == PcOf(st, x)
  }

  lemma SectionKept(st: State, st': State, t: int, s: Sec)
    requires OnlyMoved(st, st', t) && SectionOk(st, s) && Get(st', s) == Get(st, s) && !InSection(PcOf(st, t), s)
    ensures SectionOk(st', s)
  {
  }

  /** A step outside protect_info's critical section that leaves the holds alone. */
  lemma ProtectKept(st: State, st': State, t: int)
    requires OnlyMoved(st, st', t) && ProtectOk(st) && ThreadOk(st, t) && !InProtect(PcOf(st, t))
    requires st'.lock == st.lock && st'.inside == st.inside
    requires forall s {:trigger Get(st', s)} :: Get(st', s).held == Get(st, s).held
    ensures ProtectOk(st')
  {
    assert Get(st', Rare).held == Get(st, Rare).held;
    assert Get(st', Freq).held == Get(st, Freq).held;
    assert Get(st', Cxtsw).held == Get(st, Cxtsw).held;
  }

  lemma StartKeeps(st: State, t: int, c: Choice)
    requires Inv(st) && PcOf(st, t).Outside? && Enabled(st, t, c)
    ensures Inv(Next(st, t, c))
  {
    var st' := Next(st, t, c);
    assert ThreadOk(st, t);
    Others(st, st', t);
  }

  /** dynamorio_unprotect and dynamorio_protect take and release their lock. */
  lemma LockKeeps(st: State, t: int, c: Choice)
    requires Inv(st) && Enabled(st, t, c)
    requires var pc := PcOf(st, t); pc.EnterLock? || pc.LeaveLock? || pc.EnterUnlock? || pc.LeaveUnlock?
    ensures Inv(Next(st, t, c))
  {
    var st' := Next(st, t, c);
    assert ThreadOk(st, t);
    SectionKept(st, st', t, Rare);
    SectionKept(st, st', t, Freq);
    SectionKept(st, st', t, Cxtsw);
    Others(st, st', t);
  }

  /** A thread counts itself in or out. */
  lemma CountKeeps(st: State, t: int, c: Choice)
    requires Inv(st) && Enabled(st, t, c) && (PcOf(st, t).EnterCount? || PcOf(st, t).LeaveCount?)
    ensures Inv(Next(st, t, c))
  {
    var st' := Next(st, t, c);
    assert ThreadOk(st, t);
    SectionKept(st, st', t, Rare);
    SectionKept(st, st', t, Freq);
    SectionKept(st, st', t, Cxtsw);
    CountFacts(st, t);
    Others(st, st', t);
  }

  lemma CountFacts(st: State, t: int)
    requires Inv(st)
    ensures t !in st.inside ==>
        |st.inside + {t}| == st.num + 1 && (st.num == 0 ==> st.inside == {} && st.inside + {t} == {t})
    ensures t in st.inside ==> 0 < st.num && |st.inside - {t}| == st.num - 1 && (st.num == 1 ==> st.inside - {t} == {})
  {
    if t in st.inside && st.num == 1 {
      assert |st.inside - {t}| == 0;
    }
  }

  // ----- protect_data_section

  /** What the owner of a section's lock relies on: it has the window it closes, and a hold to set is
      not set, one to drop is. */
  predicate Due(v: Section, t: int, pc: Pc)
    requires pc.Call?
  {
    && t != 0
    && (if pc.phase == AtLock then v.lock == 0 else v.lock == t)
    && (!pc.own && pc.write && pc.phase != AtUnlock ==> !v.held)
    && (!pc.own && !pc.write && (pc.phase == AtLock || pc.phase == AtFirst) ==> v.held)
    && (pc.own && !pc.write && (pc.phase == AtLock || pc.phase == AtFirst) ==> v.open[t] > 0)
  }

  lemma CallDue(st: State, t: int, c: Choice)
    requires Inv(st) && PcOf(st, t).Call? && Enabled(st, t, c)
    ensures Due(Get(st, PcOf(st, t).sec), t, PcOf(st, t))
    ensures SectionOk(st, PcOf(st, t).sec) && ThreadOk(st, t)
  {
    assert ThreadOk(st, t);
  }

  lemma SectionStep(v: Section, t: int, pc: Pc)
    requires pc.Call? && Due(v, t, pc) && Counts(v, if v.lock == 0 then Outside else pc, pc.sec)
    ensures var v' := NextSection(v, t, pc);
      Counts(v', if v'.lock == 0 then Outside else NextPc(pc), pc.sec) && SameFor(v, v', t)
  {
    if pc.own && pc.phase == AtFirst && !pc.write {
      assert v.open == (v.open - multiset{t}) + multiset{t};
    }
  }

  /** `t` went to `pc` and section `s` became `v`; nothing else changed. */
  ghost predicate Stepped(st: State, st': State, t: int, s: Sec, v: Section, pc: Pc) {
    && st'.lock == st.lock && st'.num == st.num && st'.inside == st.inside
    && OnlyMoved(st, st', t) && PcOf(st', t) == pc
    && Get(st', s) == v && forall x {:trigger Get(st', x)} :: x != s ==> Get(st', x) == Get(st, x)
  }

  lemma CallSteps(st: State, t: int, c: Choice)
    requires Inv(st) && PcOf(st, t).Call? && Enabled(st, t, c)
    ensures var pc := PcOf(st, t);
      Stepped(st, Next(st, t, c), t, pc.sec, NextSection(Get(st, pc.sec), t, pc), NextPc(pc))
  {
    hide NextSection, NextPc, SectionOk, ThreadOk, ProtectOk;
  }

  lemma CallSections(st: State, st': State, t: int, pc: Pc)
    requires pc.Call? && pc == PcOf(st, t) && Due(Get(st, pc.sec), t, pc)
    requires Stepped(st, st', t, pc.sec, NextSection(Get(st, pc.sec), t, pc), NextPc(pc))
    requires SectionOk(st, Rare) && SectionOk(st, Freq) && SectionOk(st, Cxtsw)
    ensures SectionOk(st', Rare) && SectionOk(st', Freq) && SectionOk(st', Cxtsw)
    ensures forall s :: SameFor(Get(st, s), Get(st', s), t)
  {
    var v := Get(st, pc.sec);
    assert SectionOk(st, pc.sec);
    assert v.lock == 0 ==> PcOf(st, 0) == Outside;
    SectionStep(v, t, pc);
    hide NextSection, NextPc, Counts, SameFor;
    assert SectionOk(st', pc.sec);
    forall s | s != pc.sec ensures SectionOk(st', s) {
      assert SectionOk(st, s);
      SectionKept(st, st', t, s);
    }
    forall s ensures SameFor(Get(st, s), Get(st', s), t) {
      SameForAll(Get(st, s), t);
    }
  }

  lemma SameForAll(v: Section, t: int)
    ensures SameFor(v, v, t)
  {
  }

  lemma CallThreads(st: State, st': State, t: int, pc: Pc)
    requires pc.Call? && pc == PcOf(st, t) && Due(Get(st, pc.sec), t, pc)
    requires Stepped(st, st', t, pc.sec, NextSection(Get(st, pc.sec), t, pc), NextPc(pc))
    requires forall s :: SameFor(Get(st, s), Get(st', s), t)
    requires forall x {:trigger ThreadOk(st, x)} :: ThreadOk(st, x)
    ensures forall x {:trigger ThreadOk(st', x)} :: ThreadOk(st', x)
  {
    assert ThreadOk(st, t);
    assert ThreadOk(st', t) by {
      hide SameFor;
      assert pc.phase != AtUnlock ==> Get(st', pc.sec).lock == t;
    }
    hide SameFor, ThreadOk, NextSection, NextPc;
    Others(st, st', t);
  }

  /** The holds agree with the step. */
  lemma HoldStep(v: Section, t: int, pc: Pc, s: Sec)
    requires pc.Call? && !pc.own && pc.sec != Rare && v.held == HeldAt(pc, pc.sec, pc.write)
    ensures HeldAt(NextPc(pc), s, pc.write) ==
            if s == pc.sec then NextSection(v, t, pc).held else HeldAt(pc, s, pc.write)
  {
  }

  lemma CallProtect(st: State, st': State, t: int, pc: Pc)
    requires pc.Call? && pc == PcOf(st, t) && ThreadOk(st, t) && ProtectOk(st) && !pc.own
    requires Stepped(st, st', t, pc.sec, NextSection(Get(st, pc.sec), t, pc), NextPc(pc))
    ensures ProtectOk(st')
  {
    var v := Get(st, pc.sec);
    HoldStep(v, t, pc, Rare);
    HoldStep(v, t, pc, Freq);
    HoldStep(v, t, pc, Cxtsw);
    assert (st.inside != {}) == pc.write;
    assert InProtect(NextPc(pc));
    hide HeldAt, NextSection;
    assert Get(st', Rare) == st'.rare && Get(st', Freq) == st'.freq && Get(st', Cxtsw) == st'.cxtsw;
  }

  lemma OwnProtect(st: State, st': State, t: int, pc: Pc)
    requires pc.Call? && pc == PcOf(st, t) && ThreadOk(st, t) && ProtectOk(st) && pc.own
    requires Stepped(st, st', t, pc.sec, NextSection(Get(st, pc.sec), t, pc), NextPc(pc))
    ensures ProtectOk(st')
  {
    assert NextSection(Get(st, pc.sec), t, pc).held == Get(st, pc.sec).held;
    hide NextSection, NextPc, HeldAt;
    ProtectKept(st, st', t);
  }

  lemma CallKeeps(st: State, t: int, c: Choice)
    requires Inv(st) && PcOf(st, t).Call? && Enabled(st, t, c)
    ensures Inv(Next(st, t, c))
  {
    var pc, st' := PcOf(st, t), Next(st, t, c);
    CallDue(st, t, c);
    CallSteps(st, t, c);
    hide SectionOk, ThreadOk, ProtectOk, SameFor, NextSection, NextPc, Next, Enabled, Due;
    CallSections(st, st', t, pc);
    CallThreads(st, st', t, pc);
    if pc.own {
      OwnProtect(st, st', t, pc);
    } else {
      CallProtect(st, st', t, pc);
    }
  }

  /** Every step of every thread keeps the invariant. */
  lemma StepKeeps(st: State, t: int, c: Choice)
    requires Inv(st) && Enabled(st, t, c)
    ensures Inv(Next(st, t, c))
  {
    hide Inv, Next, Enabled;
    match PcOf(st, t)
    case Outside => StartKeeps(st, t, c);
    case EnterCount => CountKeeps(st, t, c);
    case LeaveCount => CountKeeps(st, t, c);
    case Call(_, _, _, _) => CallKeeps(st, t, c);
    case _ => LockKeeps(st, t, c);
  }

  // ----- whole runs

  datatype Move = Move(thread: int, choice: Choice)

  predicate CanRun(st: State, moves: seq<Move>)
    decreases |moves|
  {
    moves == []
      || (Enabled(st, moves[0].thread, moves[0].choice)
           && CanRun(Next(st, moves[0].thread, moves[0].choice), moves[1..]))
  }

  function After(st: State, moves: seq<Move>): State
    decreases |moves|
  {
    if moves == [] then st else After(Next(st, moves[0].thread, moves[0].choice), moves[1..])
  }

  /** The end of initialization: the first thread is in the runtime with its window on the rarely
      written section still open. */
  function Initial(t: int): State {
    var held := Section(0, 1, true, multiset{}, true);
    State(0, 1, Section(0, 1, true, multiset{t}, false), held, held, map[], {t})
  }

  lemma InitialOk(t: int)
    requires t != 0
    ensures Inv(Initial(t))
  {
    var st := Initial(t);
    forall x ensures ThreadOk(st, x) {}
    assert |{t}| == 1 && |multiset{t}| == 1;
  }

  /** The thread is past the calls that let it in and before those that let it out. */
  predicate Settled(pc: Pc) {
    !(pc.Call? && !pc.own)
  }

  /** The thread is about to write the counter. */
  predicate AtCounter(pc: Pc) {
    pc.Call? && ((pc.write && pc.phase == AtSecond) || (!pc.write && pc.phase == AtFirst))
  }

  ghost predicate Safe(st: State) {
    // no window is ever closed under a thread
    && (forall s, t :: Get(st, s).open[t] > 0 ==> Get(st, s).writable)
    // a thread in the runtime can write both context-switch sections
    && (forall t :: t in st.inside && Settled(PcOf(st, t)) ==> st.freq.writable && st.cxtsw.writable)
    // counters lie in the sections they guard, and are written only when that does not fault
    && (forall t :: AtCounter(PcOf(st, t)) ==> Get(st, PcOf(st, t).sec).writable)
    // the source's assertions: no counter is decremented at 0
    && (forall t :: AtCounter(PcOf(st, t)) && !PcOf(st, t).write ==> Get(st, PcOf(st, t).sec).count > 0)
    && (forall t :: PcOf(st, t).LeaveCount? ==> st.num > 0)
    // between calls the pages are writable exactly when the counter is positive
    && (forall s :: Get(st, s).lock == 0 ==> (Get(st, s).writable <==> Get(st, s).count > 0))
  }

  /** And when no thread is in the runtime or has a window open, they are read-only. */
  ghost predicate Guarded(st: State) {
    st.lock == 0 ==>
      && (st.cxtsw.lock == 0 ==> (st.cxtsw.writable <==> st.inside != {} || st.cxtsw.open != multiset{}))
      && (st.freq.lock == 0 ==> (st.freq.writable <==> st.inside != {} || st.freq.open != multiset{}))
      && (st.rare.lock == 0 ==> (st.rare.writable <==> st.rare.open != multiset{}))
  }

  lemma InvSafe(st: State)
    requires Inv(st)
    ensures Safe(st) && Guarded(st)
  {
    forall s ensures SectionOk(st, s) {}
    forall s, t | Get(st, s).open[t] > 0 ensures Get(st, s).writable {
      assert SectionOk(st, s) && t in Get(st, s).open;
    }
    forall t | t in st.inside && Settled(PcOf(st, t)) ensures st.freq.writable && st.cxtsw.writable {
      assert ThreadOk(st, t);
      assert st.freq.held && st.cxtsw.held;
    }
    forall t | AtCounter(PcOf(st, t))
      ensures Get(st, PcOf(st, t).sec).writable && (!PcOf(st, t).write ==> Get(st, PcOf(st, t).sec).count > 0)
    {
      CounterReady(st, t);
    }
    forall t | PcOf(st, t).LeaveCount? ensures st.num > 0 {
      assert ThreadOk(st, t);
      CountFacts(st, t);
    }
  }

  lemma CounterReady(st: State, t: int)
    requires Inv(st) && AtCounter(PcOf(st, t))
    ensures Get(st, PcOf(st, t).sec).writable && (!PcOf(st, t).write ==> Get(st, PcOf(st, t).sec).count > 0)
  {
    var pc := PcOf(st, t);
    assert ThreadOk(st, t) && SectionOk(st, pc.sec) && t != 0;
    if !pc.write && pc.own {
      assert t in Get(st, pc.sec).open;
    }
  }

  /** In every interleaving of paired calls, everything Safe and Guarded say holds at all times. */
  lemma {:induction false} RunSafe(st: State, moves: seq<Move>)
    requires Inv(st) && CanRun(st, moves)
    ensures Inv(After(st, moves)) && Safe(After(st, moves)) && Guarded(After(st, moves))
    decreases |moves|
  {
    hide Inv, Safe, Guarded, Next, Enabled;
    if moves == [] {
      InvSafe(st);
    } else {
      StepKeeps(st, moves[0].thread, moves[0].choice);
      RunSafe(Next(st, moves[0].thread, moves[0].choice), moves[1..]);
    }
  }

  // ----- what a call does

  /** Thread `t` is executing call `c`. */
  predicate OnWay(pc: Pc, c: Choice) {
    match c
    case Unprotect(s) => pc.Call? && pc.write && pc.own && pc.sec == s
    case Protect(s) => pc.Call? && !pc.write && pc.own && pc.sec == s
    case EnterRuntime => pc.EnterLock? || pc.EnterCount? || pc.EnterUnlock? || (pc.Call? && pc.write && !pc.own)
    case LeaveRuntime => pc.LeaveLock? || pc.LeaveCount? || pc.LeaveUnlock? || (pc.Call? && !pc.write && !pc.own)
  }

  /** It has counted. */
  predicate HasCounted(pc: Pc, c: Choice) {
    match c
    case Unprotect(_) => pc.Call? ==> pc.phase == AtUnlock
    case Protect(_) => pc.Call? ==> pc.phase == AtSecond || pc.phase == AtUnlock
    case EnterRuntime => !pc.EnterLock? && !pc.EnterCount?
    case LeaveRuntime => !pc.LeaveLock? && !pc.LeaveCount?
  }

  /** The windows `t` has open on `s`. */
  function Windows(st: State, s: Sec, t: int): int {
    Get(st, s).open[t]
  }

  /** How many windows more `t` has on `s` after call `c`. */
  function Opened(c: Choice, s: Sec): int {
    if c == Unprotect(s) then 1 else if c == Protect(s) then -1 else 0
  }

  /** From `o` to `st` the call `c` of `t` did all it does to its windows and to where it is, or nothing. */
  ghost predicate Effect(o: State, st: State, t: int, c: Choice, done: bool) {
    && (forall s {:trigger Windows(st, s, t)} ::
          Windows(st, s, t) - Windows(o, s, t) == if done then Opened(c, s) else 0)
    && (t in st.inside <==>
        if done && c.EnterRuntime? then true else if done && c.LeaveRuntime? then false else t in o.inside)
  }

  ghost predicate Midway(o: State, st: State, t: int, c: Choice) {
    OnWay(PcOf(st, t), c) && Effect(o, st, t, c, HasCounted(PcOf(st, t), c))
  }

  /** The call that `t` started in `o` has returned, and has had its effect. */
  ghost predicate Finished(o: State, st: State, t: int, c: Choice) {
    PcOf(st, t).Outside? && Effect(o, st, t, c, true)
  }

  lemma CallStarts(st: State, t: int, c: Choice)
    requires Inv(st) && PcOf(st, t).Outside? && Enabled(st, t, c)
    ensures Midway(st, Next(st, t, c), t, c)
  {
    forall s ensures Get(Next(st, t, c), s) == Get(st, s) {}
  }

  lemma SectionLeaves(v: Section, x: int, pc: Pc, t: int)
    requires pc.Call? && x != t
    ensures NextSection(v, x, pc).open[t] == v.open[t]
  {
  }

  /** The other threads do not touch the windows of `t`. */
  lemma OthersLeave(st: State, t: int, x: int, d: Choice)
    requires Inv(st) && Enabled(st, x, d) && x != t
    ensures var st' := Next(st, x, d);
      && PcOf(st', t) == PcOf(st, t) && (t in st'.inside <==> t in st.inside)
      && forall s {:trigger Windows(st', s, t)} :: Windows(st', s, t) == Windows(st, s, t)
  {
    var pc, st' := PcOf(st, x), Next(st, x, d);
    if pc.Call? {
      CallSteps(st, x, d);
      SectionLeaves(Get(st, pc.sec), x, pc, t);
      hide Inv, Next, NextSection, NextPc;
      forall s ensures Windows(st', s, t) == Windows(st, s, t) {}
    } else {
      OtherSteps(st, x, d);
    }
  }

  /** A step outside protect_data_section changes no section and moves no other thread. */
  lemma OtherSteps(st: State, x: int, d: Choice)
    requires !PcOf(st, x).Call?
    ensures var st' := Next(st, x, d);
      && (forall s {:trigger Get(st', s)} :: Get(st', s) == Get(st, s))
      && forall t {:trigger PcOf(st', t)} {:trigger t in st'.inside} :: t != x ==>
           PcOf(st', t) == PcOf(st, t) && (t in st'.inside <==> t in st.inside)
  {
    forall s ensures Get(Next(st, x, d), s) == Get(st, s) {}
  }

  /** What a step of the thread itself does to its windows on `s`. */
  function Delta(pc: Pc, s: Sec): int {
    if pc.Call? && pc.own && pc.sec == s && AtCounter(pc) then if pc.write then 1 else -1 else 0
  }

  lemma OwnCall(v: Section, t: int, pc: Pc)
    requires pc.Call? && Due(v, t, pc)
    ensures NextSection(v, t, pc).open[t] == v.open[t] + Delta(pc, pc.sec)
    ensures var l := NextSection(v, t, pc).lock; l == 0 || l == t
  {
  }

  /** The sections after a step of the thread itself. */
  lemma OwnStep(st: State, t: int, d: Choice)
    requires Inv(st) && Enabled(st, t, d) && !PcOf(st, t).Outside?
    ensures var pc, st' := PcOf(st, t), Next(st, t, d);
      && (forall s {:trigger Windows(st', s, t)} :: Windows(st', s, t) - Windows(st, s, t) == Delta(pc, s))
      && (forall s {:trigger Get(st', s)} :: Get(st', s).lock in {0, t, Get(st, s).lock})
  {
    var pc, st' := PcOf(st, t), Next(st, t, d);
    if pc.Call? {
      CallDue(st, t, d);
      CallSteps(st, t, d);
      OwnCall(Get(st, pc.sec), t, pc);
      hide Inv, Next, NextSection, NextPc, Due;
      forall s
        ensures Windows(st', s, t) - Windows(st, s, t) == Delta(pc, s)
        ensures Get(st', s).lock in {0, t, Get(st, s).lock}
      {
      }
    } else {
      hide Inv;
      forall s ensures Get(st', s) == Get(st, s) {}
    }
  }

  /** One step further on the way of every call that `pc` is on the way of. */
  ghost predicate Further(pc: Pc, pc': Pc) {
    && Left(pc') < Left(pc)
    && forall c {:trigger OnWay(pc, c)} :: OnWay(pc, c) ==>
         && (OnWay(pc', c) || (pc'.Outside? && HasCounted(pc, c)))
         && (HasCounted(pc', c) <==> HasCounted(pc, c) || AtEffect(pc, c))
  }

  lemma FurtherCall(pc: Pc)
    requires pc.Call? && (!pc.own ==> pc.sec != Rare)
    ensures Further(pc, NextPc(pc))
  {
  }

  /** The steps outside protect_data_section. */
  predicate Follows(pc: Pc, pc': Pc) {
    match pc
    case EnterLock => pc' == EnterCount
    case EnterCount => pc' == EnterUnlock || pc' == Call(true, AtLock, Cxtsw, false)
    case LeaveLock => pc' == LeaveCount
    case LeaveCount => pc' == LeaveUnlock || pc' == Call(false, AtLock, Freq, false)
    case EnterUnlock => pc'.Outside?
    case LeaveUnlock => pc'.Outside?
    case _ => false
  }

  lemma FurtherOther(pc: Pc, pc': Pc)
    requires Follows(pc, pc')
    ensures Further(pc, pc')
  {
  }

  /** Where a step of the thread itself leads. */
  lemma OwnPc(st: State, t: int, d: Choice)
    requires Inv(st) && Enabled(st, t, d) && !PcOf(st, t).Outside?
    ensures var pc, st' := PcOf(st, t), Next(st, t, d);
      && Further(pc, PcOf(st', t)) && (t in st'.inside <==> pc.EnterCount? || (t in st.inside && !pc.LeaveCount?))
      && st'.lock in {0, t, st.lock}
  {
    hide Further, SectionOk, ProtectOk;
    var pc := PcOf(st, t);
    assert ThreadOk(st, t);
    CountFacts(st, t);
    if pc.Call? {
      FurtherCall(pc);
      CallSteps(st, t, d);
      hide Inv, Next, NextPc;
    } else {
      hide Inv;
      FurtherOther(pc, PcOf(Next(st, t, d), t));
    }
  }

  /** The thread is about to count on behalf of call `c`. */
  predicate AtEffect(pc: Pc, c: Choice) {
    if c.Unprotect? || c.Protect? then AtCounter(pc) else pc.EnterCount? || pc.LeaveCount?
  }

  lemma CallGoesOn(o: State, st: State, t: int, c: Choice, x: int, d: Choice)
    requires Inv(st) && Midway(o, st, t, c) && Enabled(st, x, d)
    ensures Midway(o, Next(st, x, d), t, c) || Finished(o, Next(st, x, d), t, c)
  {
    if x != t {
      OthersLeave(st, t, x, d);
    } else {
      OwnStep(st, t, d);
      OwnPc(st, t, d);
      OwnEffect(o, st, Next(st, t, d), t, c);
    }
  }

  lemma OwnEffect(o: State, st: State, st': State, t: int, c: Choice)
    requires Midway(o, st, t, c)
    requires forall s {:trigger Windows(st', s, t)} :: Windows(st', s, t) - Windows(st, s, t) == Delta(PcOf(st, t), s)
    requires var pc := PcOf(st, t);
      && (t in st'.inside <==> pc.EnterCount? || (t in st.inside && !pc.LeaveCount?))
      && Further(pc, PcOf(st', t))
    ensures Midway(o, st', t, c) || Finished(o, st', t, c)
  {
    var pc := PcOf(st, t);
    forall s ensures Windows(st', s, t) - Windows(o, s, t) ==
                     if HasCounted(PcOf(st', t), c) then Opened(c, s) else 0
    {
      assert Windows(st', s, t) - Windows(st, s, t) == Delta(pc, s);
      assert Windows(st, s, t) - Windows(o, s, t) == if HasCounted(pc, c) then Opened(c, s) else 0;
    }
  }

  /** In every interleaving a call of `t`, once it returns, has opened or closed just the one window it is
      for, or has let the thread in or out of the runtime; until then it is on its way. */
  lemma {:induction false} CallTakesEffect(o: State, st: State, moves: seq<Move>, t: int, c: Choice)
    requires Inv(st) && Midway(o, st, t, c) && CanRun(st, moves)
    requires forall i {:trigger moves[..i]} :: 0 <= i < |moves| ==> !PcOf(After(st, moves[..i]), t).Outside?
    ensures if PcOf(After(st, moves), t).Outside? then Finished(o, After(st, moves), t, c)
            else Midway(o, After(st, moves), t, c)
    decreases |moves|
  {
    hide Inv, Next, Enabled, Effect;
    if moves != [] {
      var m := moves[0];
      var st', rest := Next(st, m.thread, m.choice), moves[1..];
      StepKeeps(st, m.thread, m.choice);
      CallGoesOn(o, st, t, c, m.thread, m.choice);
      if rest != [] {
        assert moves[..1] == [m] && After(st, [m]) == After(st', []);
        forall i | 0 <= i < |rest| ensures !PcOf(After(st', rest[..i]), t).Outside? {
          assert moves[..i + 1] == [m] + rest[..i] && ([m] + rest[..i])[1..] == rest[..i];
        }
        CallTakesEffect(o, st', rest, t, c);
      }
    }
  }

  /** How many steps of its own a thread is from the end of its call, at most. */
  function Left(pc: Pc): nat {
    match pc
    case Outside => 0
    case EnterUnlock => 1
    case LeaveUnlock => 1
    case EnterCount => 10
    case LeaveCount => 10
    case EnterLock => 11
    case LeaveLock => 11
    case Call(write, phase, sec, own) =>
      (match phase case AtLock => 4 case AtFirst => 3 case AtSecond => 2 case AtUnlock => 1)
      + if own then 0 else if (write && sec == Cxtsw) || (!write && sec == Freq) then 5 else 1
  }

  /** No other thread holds a lock. */
  ghost predicate Unhindered(st: State, t: int) {
    (st.lock == 0 || st.lock == t) && forall s {:trigger Get(st, s)} :: Get(st, s).lock == 0 || Get(st, s).lock == t
  }

  lemma OwnProgress(st: State, t: int, d: Choice)
    requires Inv(st) && t != 0 && !PcOf(st, t).Outside? && Unhindered(st, t)
    ensures Enabled(st, t, d) && Unhindered(Next(st, t, d), t) && Left(PcOf(Next(st, t, d), t)) < Left(PcOf(st, t))
  {
    CanGoOn(st, t, d);
    OwnStep(st, t, d);
    OwnPc(st, t, d);
    var st' := Next(st, t, d);
    hide Inv, Next, Left;
    assert Further(PcOf(st, t), PcOf(st', t));
    forall s ensures Get(st', s).lock == 0 || Get(st', s).lock == t {
      assert Get(st, s).lock == 0 || Get(st, s).lock == t;
    }
  }

  lemma CanGoOn(st: State, t: int, d: Choice)
    requires Inv(st) && t != 0 && !PcOf(st, t).Outside? && Unhindered(st, t)
    ensures Enabled(st, t, d)
  {
    var pc := PcOf(st, t);
    assert ThreadOk(st, t);
    if pc.Call? {
      assert SectionOk(st, pc.sec) && (Get(st, pc.sec).lock == 0 || Get(st, pc.sec).lock == t);
    }
  }

  /** Left alone, a thread finishes its call, and the call takes effect. */
  lemma {:induction false} FinishesAlone(o: State, st: State, t: int, c: Choice) returns (moves: seq<Move>)
    requires Inv(st) && t != 0 && Midway(o, st, t, c) && Unhindered(st, t)
    ensures |moves| <= Left(PcOf(st, t)) && (forall i :: 0 <= i < |moves| ==> moves[i].thread == t)
    ensures CanRun(st, moves) && Inv(After(st, moves)) && Finished(o, After(st, moves), t, c)
    decreases Left(PcOf(st, t))
  {
    hide Inv, Next, Enabled, Effect, Unhindered, Left;
    OwnProgress(st, t, c);
    StepKeeps(st, t, c);
    CallGoesOn(o, st, t, c, t, c);
    var st' := Next(st, t, c);
    var rest := [];
    if !PcOf(st', t).Outside? {
      rest := FinishesAlone(o, st', t, c);
    }
    moves := [Move(t, c)] + rest;
    assert moves[1..] == rest;
  }

  /** The same from the start: an unprotect call ends with the section writable and one window more, a
      protect call with one less, and the other two with the thread in or out of the runtime. */
  lemma CallAlone(st: State, t: int, c: Choice) returns (moves: seq<Move>)
    requires Inv(st) && PcOf(st, t).Outside? && Enabled(st, t, c) && Unhindered(st, t)
    ensures moves != [] && moves[0] == Move(t, c) && |moves| <= 12
    ensures (forall i :: 0 <= i < |moves| ==> moves[i].thread == t) && CanRun(st, moves)
    ensures Finished(st, After(st, moves), t, c) && Safe(After(st, moves))
    ensures c.Unprotect? ==> Get(After(st, moves), c.sec).writable
    ensures c.EnterRuntime? ==> After(st, moves).freq.writable && After(st, moves).cxtsw.writable
  {
    CallStarts(st, t, c);
    StepKeeps(st, t, c);
    var st' := Next(st, t, c);
    StartUnhindered(st, t, c);
    hide Inv, Enabled, Unhindered, Next;
    var rest := FinishesAlone(st, st', t, c);
    moves := [Move(t, c)] + rest;
    assert moves[1..] == rest;
    var end := After(st, moves);
    InvSafe(end);
    if c.Unprotect? {
      assert Windows(end, c.sec, t) - Windows(st, c.sec, t) == 1;
    }
  }

  lemma StartUnhindered(st: State, t: int, c: Choice)
    requires PcOf(st, t).Outside? && Unhindered(st, t)
    ensures Unhindered(Next(st, t, c), t) && Left(PcOf(Next(st, t, c), t)) <= 11
  {
    var st' := Next(st, t, c);
    forall s ensures Get(st', s) == Get(st, s) {}
    forall s ensures Get(st', s).lock == 0 || Get(st', s).lock == t {
      assert Get(st, s).lock == 0 || Get(st, s).lock == t;
    }
  }

  /** The threads never all wait for one another. */
  lemma NoDeadlock(st: State, t: int) returns (x: int)
    requires Inv(st) && t != 0 && !PcOf(st, t).Outside?
    ensures x != 0 && !PcOf(st, x).Outside? && forall c :: Enabled(st, x, c)
  {
    x := t;
    assert ThreadOk(st, x);
    if (PcOf(st, x).EnterLock? || PcOf(st, x).LeaveLock?) && st.lock != 0 {
      x := st.lock;
      assert ThreadOk(st, x);
    }
    var pc := PcOf(st, x);
    if pc.Call? && pc.phase == AtLock && Get(st, pc.sec).lock != 0 {
      x := Get(st, pc.sec).lock;
      assert SectionOk(st, pc.sec) && ThreadOk(st, x);
    }
  }
}
