/**
  The dispatcher's protocol, for one thread on Unix: how the thread goes between the dispatcher,
  fragments, system calls and native execution, how entrances are aborted by flushes and pending
  signals, and what the application then executes. The assertions of the source are the
  preconditions of the methods.
 */
module Dispatch {
  import opened Options
  import opened Signals

  /** dcontext->whereami */
  datatype Where = InDispatch | InFcache | InApp

  /** Where control is. In a system call: the length of its instruction, and whether the call itself
      chose where the application goes on. */
  datatype Place = LoopHead | InFragment | InSyscall(length: int, redirected: bool) | Native

  /** What the application did: code; a system call of `length` bytes; a handler that was started when
      the application was about to execute `at`; or a client had it issue another system call with the
      instruction it had just executed. */
  datatype Event =
    | Ran(at: int, to: int)
    | Called(at: int, length: int, to: int, redirected: bool)
    | Signal(handler: int, at: int, stamp: nat)
    | Invoked(at: int, length: int)

  /** A system call at the end of a block. `redirect` is the asynch_target pre_system_call sets for calls
      that choose where to go on; `early` and `late` are signals that arrive on the way in. */
  datatype Call = Call(kind: Kind, skip: bool, length: int, redirect: Option<int>, early: seq<Sig>, late: seq<Sig>)

  /** Sigreturn and clone are past the point of no return when they are entered. */
  datatype Kind = Ordinary | Sigreturn | Clone

  /** A thread: the fields of its dcontext; its pending signals; where control is, the address the
      application is to go on from, and what it did. */
  datatype Thread = Thread(
    whereami: Where, couldBeLinking: bool, atSyscall: bool, nextTag: int, asynchTarget: int,
    sig: SigInfo, place: Place, app: int, log: seq<Event>)

  // ----- signals

  ghost function Arrived(s: Thread, xs: seq<Sig>): Thread {
    s.(sig := RecordedAll(s.sig, xs))
  }

  ghost function WithFlag(s: Thread, flag: int): Thread {
    s.(sig := s.sig.(flag := flag))
  }

  /** receive_pending_signal: the application goes on in the handler of the newest signal of the lowest
      pending number, which returns to next_tag. The flag is negative while one is handled, and cleared
      only when none is found. */
  ghost function Received(s: Thread): Thread {
    if !AnyPending(s.sig) then WithFlag(s, 0)
    else
      var e := First(s.sig);
      s.(sig := Taken(s.sig), nextTag := e.handler, app := e.handler,
         log := s.log + [Signal(e.handler, s.nextTag, e.stamp)])
  }

  // ----- the protocol

  /** What each place promises. */
  ghost predicate Valid(s: Thread) {
    && FlagOk(s.sig)
    && match s.place
       case LoopHead => s.couldBeLinking && s.whereami == InDispatch && !s.atSyscall && s.nextTag == s.app
       case InFragment => !s.couldBeLinking && s.whereami == InFcache && !s.atSyscall && s.asynchTarget == s.app
       case InSyscall(length, redirected) =>
         && !s.couldBeLinking && s.whereami == InFcache && s.atSyscall
         && (redirected || s.asynchTarget == s.app + length)
       case Native => !s.couldBeLinking && s.whereami == InApp && !s.atSyscall && s.nextTag == s.app
  }

  /** The events lead from `start` to `end`, each beginning where the one before left the application: no
      address is lost or repeated, an ordinary system call goes on right after itself, and every handler
      was started at the address the application was about to execute. */
  ghost predicate Follows(start: int, log: seq<Event>, end: int) {
    if log == [] then start == end
    else
      match log[|log| - 1]
      case Ran(at, to) => Follows(start, log[..|log| - 1], at) && end == to
      case Called(at, length, to, redirected) =>
        Follows(start, log[..|log| - 1], at) && end == to && (redirected || to == at + length)
      case Signal(handler, at, _) => Follows(start, log[..|log| - 1], at) && end == handler
      case Invoked(at, length) => Follows(start, log[..|log| - 1], at) && end == at - length
  }

  /** Where an event leaves the application. */
  ghost function Goes(e: Event): int {
    match e
    case Ran(_, to) => to
    case Called(_, _, to, _) => to
    case Signal(handler, _, _) => handler
    case Invoked(at, length) => at - length
  }

  /** The signals whose handlers were started. */
  ghost function Started(log: seq<Event>): seq<Pend> {
    if log == [] then [] else Started(log[..|log| - 1]) + StartedBy(log[|log| - 1])
  }

  ghost function StartedBy(e: Event): seq<Pend> {
    if e.Signal? then [Pend(e.handler, e.stamp)] else []
  }

  lemma LogMore(start: int, log: seq<Event>, e: Event)
    ensures Started(log + [e]) == Started(log) + StartedBy(e)
    ensures Follows(start, log, e.at) && (e.Called? && !e.redirected ==> e.to == e.at + e.length) ==>
              Follows(start, log + [e], Goes(e))
  {
    assert (log + [e])[..|log|] == log;
  }

  /** The protocol holds, the application went where it should, and every signal that arrived was started
      once, or is pending, or is an alarm that was given up. */
  ghost predicate Ok(start: int, s: Thread) {
    Valid(s) && Followed(start, s)
  }

  ghost predicate Followed(start: int, s: Thread) {
    Follows(start, s.log, s.app) && Accounted(s.sig, Started(s.log))
  }

  // ----- the steps

  /** The application did something. */
  ghost function Logged(s: Thread, e: Event): Thread {
    s.(app := Goes(e), log := s.log + [e])
  }

  /** dispatch_enter_fcache past the flush check: with a signal pending the generated code returns. */
  ghost function FragmentEntered(s: Thread, pc: int, arriving: seq<Sig>): Thread {
    var a := Arrived(s.(couldBeLinking := false, asynchTarget := s.nextTag, nextTag := pc, whereami := InFcache),
      arriving);
    if a.sig.flag > 0 then Received(a.(couldBeLinking := true, whereami := InDispatch, nextTag := a.asynchTarget))
    else a.(place := InFragment)
  }

  ghost function Lowered(s: Thread): Thread {
    if s.sig.flag > 0 then WithFlag(s, -1) else s
  }

  /** The flag when the generated code looks at it for a sigreturn or clone: the first time, or, if a signal
      came in between, the second. */
  ghost function Insisted(s: Thread, early: seq<Sig>, late: seq<Sig>): Thread {
    Arrived(Lowered(Arrived(Lowered(s), early)), late)
  }

  /** handle_system_call, with next_tag after the call. */
  ghost function CallHandled(s: Thread, call: Call, pc: int): Thread {
    var target := if call.redirect.Some? then call.redirect.value else s.nextTag;
    if call.skip then
      var c := Logged(s.(asynchTarget := target, nextTag := target),
                      Called(s.app, call.length, target, call.redirect.Some?));
      Arrived(Arrived(c, call.early), call.late)
    else
      var e := s.(asynchTarget := target, atSyscall := true, nextTag := pc, whereami := InFcache);
      if call.kind == Ordinary then
        var a := Arrived(e, call.early);
        if a.sig.flag > 0 then
          Arrived(Received(a.(whereami := InDispatch, atSyscall := false, nextTag := s.nextTag - call.length)),
            call.late)
        else Arrived(a.(place := InSyscall(call.length, call.redirect.Some?)), call.late)
      else Insisted(e, call.early, call.late).(place := InSyscall(call.length, call.redirect.Some?))
  }

  /** What the application did since it left, and where it is now: if there is a `call` to be handled, at
      its instruction. */
  ghost function Ended(s: Thread, target: int, call: Option<Call>): Thread {
    if s.place.InSyscall? then
      var c := Logged(s, Called(s.app, s.place.length, s.asynchTarget, s.place.redirected));
      if call.Some? then Logged(c, Invoked(s.asynchTarget, call.value.length)) else c
    else Logged(s, Ran(s.app, if call.Some? then target - call.value.length else target))
  }

  /** dispatch_enter_dynamorio. A fragment or native code has come to `target`; `call` is a system call to
      be handled first, whose instruction ends there. */
  ghost function Returned(s: Thread, target: int, call: Option<Call>, pc: int): Thread {
    if s.place.Native? then
      Ended(s, target, None).(whereami := InDispatch, nextTag := target, couldBeLinking := true, place := LoopHead)
    else
      var r := Ended(s, target, call).(
        whereami := InDispatch, atSyscall := false, nextTag := if s.place.InSyscall? then s.asynchTarget else target);
      var h := if call.Some? then CallHandled(r, call.value, pc) else r;
      if h.atSyscall then h else ExitProcessed(h.(couldBeLinking := true, place := LoopHead))
  }

  /** dispatch_exit_fcache */
  ghost function ExitProcessed(s: Thread): Thread {
    if s.sig.flag != 0 then Received(s) else s
  }

  /** dispatch_enter_native: as long as a signal keeps the thread from leaving, its flag is dropped. */
  ghost function WentNative(s: Thread, arriving: seq<seq<Sig>>): Thread {
    Dropped(s.(couldBeLinking := false, whereami := InApp, place := Native), arriving)
  }

  ghost function Dropped(s: Thread, arriving: seq<seq<Sig>>): Thread
    decreases |arriving|
  {
    var a := if arriving == [] then s else Arrived(s, arriving[0]);
    if a.sig.flag <= 0 then a
    else if arriving == [] then WithFlag(a, 0)
    else Dropped(WithFlag(a, 0), arriving[1..])
  }

  /** One turn of a thread's life; one that does not apply where the thread is changes nothing. */
  datatype Turn =
    | Return(target: int, call: Option<Call>)
    | Fragment(arriving: seq<Sig>)
    | FlushedFragment
    | GoNative(waves: seq<seq<Sig>>)
    | Arrive(xs: seq<Sig>)

  ghost function Step(s: Thread, turn: Turn, pc: int): Thread {
    match turn
    case Return(target, call) => if s.whereami != InDispatch then Returned(s, target, call, pc) else s
    case Fragment(arriving) => if s.whereami == InDispatch then FragmentEntered(s, pc, arriving) else s
    case FlushedFragment => s
    case GoNative(waves) => if s.whereami == InDispatch then WentNative(s, waves) else s
    case Arrive(xs) => Arrived(s, xs)
  }

  ghost function Play(s: Thread, turns: seq<Turn>, pc: int): Thread
    decreases |turns|
  {
    if turns == [] then s else Play(Step(s, turns[0], pc), turns[1..], pc)
  }

  // ----- every run

  lemma LoggedOk(start: int, s: Thread, e: Event)
    requires Followed(start, s) && e.at == s.app && !e.Signal?
    requires e.Called? && !e.redirected ==> e.to == e.at + e.length
    ensures Followed(start, Logged(s, e))
  {
    LogMore(start, s.log, e);
    assert Started(s.log) + [] == Started(s.log);
  }

  lemma ArrivedOk(start: int, s: Thread, xs: seq<Sig>)
    requires Followed(start, s) && FlagOk(s.sig)
    ensures var r := Arrived(s, xs);
      Followed(start, r) && FlagOk(r.sig) && (Flagged(s.sig) ==> Flagged(r.sig))
  {
    RecordedAllOk(s.sig, Started(s.log), xs);
  }

  lemma LoweredOk(start: int, s: Thread)
    requires Followed(start, s) && FlagOk(s.sig)
    ensures var r := Lowered(s);
      Followed(start, r) && FlagOk(r.sig) && r.sig.flag <= 0 && (Flagged(s.sig) ==> Flagged(r.sig))
  {
    FlagFree(s.sig, Started(s.log), -1);
  }

  /** Receiving a signal where the application's next address is in next_tag. */
  lemma ReceivedOk(start: int, s: Thread)
    requires Followed(start, s) && s.nextTag == s.app
    ensures var r := Received(s);
      Followed(start, r) && r.nextTag == r.app && -1 <= r.sig.flag <= 0 && Flagged(r.sig)
  {
    if AnyPending(s.sig) {
      var e := First(s.sig);
      LogMore(start, s.log, Signal(e.handler, s.nextTag, e.stamp));
      TakenOk(s.sig, Started(s.log));
    } else {
      FlagFree(s.sig, Started(s.log), 0);
    }
  }

  lemma ReceivedFields(s: Thread)
    ensures var r := Received(s);
      r == s.(sig := r.sig, nextTag := r.nextTag, app := r.app, log := r.log)
  {
  }

  lemma FragmentOk(start: int, s: Thread, pc: int, arriving: seq<Sig>)
    requires Ok(start, s) && s.place.LoopHead?
    ensures var r := FragmentEntered(s, pc, arriving);
      && Ok(start, r) && (Flagged(s.sig) ==> Flagged(r.sig))
      && if Arrived(s, arriving).sig.flag <= 0 then r.place.InFragment? && r.log == s.log
         else r.place.LoopHead? && exists h, i :: r.log == s.log + [Signal(h, s.app, i)]
    ensures var r, g := FragmentEntered(s, pc, arriving), RecordedAll(s.sig, arriving);
      if g.flag > 0 then AnyPending(g) && r.log == s.log + [Signal(First(g).handler, s.app, First(g).stamp)]
      else r.nextTag == pc && r.asynchTarget == s.app && r.sig == g
    ensures FragmentEntered(s, pc, arriving).sig.arrived == s.sig.arrived + arriving
  {
    RecordedAllOk(s.sig, [], arriving);
    ArrivedOk(start, s, arriving);
    var a := Arrived(s.(couldBeLinking := false, asynchTarget := s.nextTag, nextTag := pc, whereami := InFcache),
      arriving);
    if a.sig.flag > 0 {
      ReceivedOk(start, a.(couldBeLinking := true, whereami := InDispatch, nextTag := a.asynchTarget));
    }
  }

  /** The application is at a system call, and the dispatcher about to handle it. */
  ghost predicate AtCall(start: int, s: Thread, call: Call) {
    && FlagOk(s.sig) && Followed(start, s)
    && !s.couldBeLinking && !s.atSyscall && s.whereami == InDispatch && s.nextTag - call.length == s.app
  }

  /** After a system call was handled: it departed, or the dispatcher goes on. */
  ghost predicate AfterCall(start: int, s: Thread) {
    && FlagOk(s.sig) && Followed(start, s) && !s.couldBeLinking
    && if s.atSyscall then Valid(s) && s.place.InSyscall? else s.whereami == InDispatch && s.nextTag == s.app
  }

  lemma SkipOk(start: int, s: Thread, call: Call, pc: int)
    requires AtCall(start, s, call) && call.skip
    ensures var r := CallHandled(s, call, pc);
      AfterCall(start, r) && !r.atSyscall && (Flagged(s.sig) ==> Flagged(r.sig))
  {
    var target := if call.redirect.Some? then call.redirect.value else s.nextTag;
    var c := s.(asynchTarget := target, nextTag := target);
    var e := Called(s.app, call.length, target, call.redirect.Some?);
    LoggedOk(start, c, e);
    ArrivedOk(start, Logged(c, e), call.early);
    ArrivedOk(start, Arrived(Logged(c, e), call.early), call.late);
  }

  lemma OrdinaryOk(start: int, s: Thread, call: Call, pc: int)
    requires AtCall(start, s, call) && !call.skip && call.kind == Ordinary
    ensures var r := CallHandled(s, call, pc); AfterCall(start, r) && (Flagged(s.sig) ==> Flagged(r.sig))
    ensures CallHandled(s, call, pc).atSyscall <==> Arrived(s, call.early).sig.flag <= 0
  {
    hide Follows, Started, Accounted, AnyPending, RecordedAll;
    var target := if call.redirect.Some? then call.redirect.value else s.nextTag;
    var a := Arrived(s.(asynchTarget := target, atSyscall := true, nextTag := pc, whereami := InFcache), call.early);
    ArrivedOk(start, s, call.early);
    if a.sig.flag > 0 {
      AbortOk(start, a, s.nextTag - call.length, call.late);
    } else {
      DepartOk(start, a, InSyscall(call.length, call.redirect.Some?), call.late);
    }
  }

  lemma AbortOk(start: int, a: Thread, at: int, late: seq<Sig>)
    requires Followed(start, a) && !a.couldBeLinking && at == a.app
    ensures var r := Arrived(Received(a.(whereami := InDispatch, atSyscall := false, nextTag := at)), late);
      AfterCall(start, r) && !r.atSyscall && Flagged(r.sig)
  {
    hide Follows, Started;
    var b := a.(whereami := InDispatch, atSyscall := false, nextTag := at);
    ReceivedOk(start, b);
    ArrivedOk(start, Received(b), late);
  }

  lemma DepartOk(start: int, a: Thread, place: Place, late: seq<Sig>)
    requires Followed(start, a) && FlagOk(a.sig) && Valid(a.(place := place)) && place.InSyscall?
    ensures var r := Arrived(a.(place := place), late);
        AfterCall(start, r) && r.atSyscall && (Flagged(a.sig) ==> Flagged(r.sig))
  {
    hide Follows, Started;
    ArrivedOk(start, a.(place := place), late);
  }

  lemma InsistOk(start: int, s: Thread, call: Call, pc: int)
    requires AtCall(start, s, call) && !call.skip && call.kind != Ordinary
    ensures var r := CallHandled(s, call, pc); AfterCall(start, r) && r.atSyscall && (Flagged(s.sig) ==> Flagged(r.sig))
  {
    var target := if call.redirect.Some? then call.redirect.value else s.nextTag;
    var e := s.(asynchTarget := target, atSyscall := true, nextTag := pc, whereami := InFcache);
    LoweredOk(start, e);
    ArrivedOk(start, Lowered(e), call.early);
    var a := Arrived(Lowered(e), call.early);
    LoweredOk(start, a);
    ArrivedOk(start, Lowered(a), call.late);
  }

  lemma CallOk(start: int, s: Thread, call: Call, pc: int)
    requires AtCall(start, s, call)
    ensures AfterCall(start, CallHandled(s, call, pc)) && (Flagged(s.sig) ==> Flagged(CallHandled(s, call, pc).sig))
    ensures CallHandled(s, call, pc).atSyscall <==>
        !call.skip && !(call.kind == Ordinary && Arrived(s, call.early).sig.flag > 0)
  {
    hide AfterCall, CallHandled;
    if call.skip {
      SkipOk(start, s, call, pc);
    } else if call.kind == Ordinary {
      OrdinaryOk(start, s, call, pc);
    } else {
      InsistOk(start, s, call, pc);
    }
  }

  lemma EndedOk(start: int, s: Thread, target: int, call: Option<Call>)
    requires Ok(start, s) && !s.place.LoopHead?
    ensures Followed(start, Ended(s, target, call))
  {
    hide Followed;
    if s.place.InSyscall? {
      var e := Called(s.app, s.place.length, s.asynchTarget, s.place.redirected);
      LoggedOk(start, s, e);
      if call.Some? {
        LoggedOk(start, Logged(s, e), Invoked(s.asynchTarget, call.value.length));
      }
    } else {
      LoggedOk(start, s, Ran(s.app, if call.Some? then target - call.value.length else target));
    }
  }

  lemma EndedWhere(s: Thread, target: int, call: Option<Call>)
    requires Valid(s)
    ensures var r := Ended(s, target, call);
      && r == s.(app := r.app, log := r.log)
      && r.app == (if s.place.InSyscall? then s.asynchTarget else target) - if call.Some? then call.value.length else 0
  {
  }

  lemma ReturnedOk(start: int, s: Thread, target: int, call: Option<Call>, pc: int)
    requires Ok(start, s) && !s.place.LoopHead?
    ensures Ok(start, Returned(s, target, call, pc)) && (Flagged(s.sig) ==> Flagged(Returned(s, target, call, pc).sig))
  {
    hide Follows, Started, CallHandled, Received, Accounted, AnyPending;
    if s.place.Native? {
      EndedOk(start, s, target, None);
    } else {
      EndedOk(start, s, target, call);
      var r := Ended(s, target, call).(
        whereami := InDispatch, atSyscall := false, nextTag := if s.place.InSyscall? then s.asynchTarget else target);
      if call.Some? {
        CallOk(start, r, call.value, pc);
      }
      var h := if call.Some? then CallHandled(r, call.value, pc) else r;
      if !h.atSyscall {
        var l := h.(couldBeLinking := true, place := LoopHead);
        ReceivedOk(start, l);
        ReceivedFields(l);
      }
    }
  }

  lemma {:induction false} DroppedOk(start: int, s: Thread, arriving: seq<seq<Sig>>)
    requires Followed(start, s) && FlagOk(s.sig)
    ensures var r := Dropped(s, arriving);
      r == s.(sig := r.sig) && -1 <= r.sig.flag <= 0 && Followed(start, r)
    ensures s.sig.arrived + (if arriving == [] then [] else arriving[0]) <= Dropped(s, arriving).sig.arrived
    decreases |arriving|
  {
    hide Accounted;
    if arriving != [] {
      ArrivedOk(start, s, arriving[0]);
      RecordedAllOk(s.sig, [], arriving[0]);
    }
    var a := if arriving == [] then s else Arrived(s, arriving[0]);
    FlagFree(a.sig, Started(a.log), 0);
    if a.sig.flag > 0 && arriving != [] {
      DroppedOk(start, WithFlag(a, 0), arriving[1..]);
    }
  }

  /** Every turn keeps the protocol. */
  lemma StepOk(start: int, s: Thread, turn: Turn, pc: int)
    requires Ok(start, s)
    ensures Ok(start, Step(s, turn, pc))
    ensures Flagged(s.sig) && !turn.GoNative? ==> Flagged(Step(s, turn, pc).sig)
  {
    match turn
    case Return(target, call) =>
      if s.whereami != InDispatch {
        ReturnedOk(start, s, target, call, pc);
      }
    case Fragment(arriving) =>
      if s.whereami == InDispatch {
        FragmentOk(start, s, pc, arriving);
      }
    case GoNative(waves) =>
      if s.whereami == InDispatch {
        DroppedOk(start, s.(couldBeLinking := false, whereami := InApp, place := Native), waves);
      }
    case FlushedFragment =>
    case Arrive(xs) => ArrivedOk(start, s, xs);
  }

  /** On every run the protocol holds and the application goes where it should. */
  lemma {:induction false} PlayOk(start: int, s: Thread, turns: seq<Turn>, pc: int)
    requires Ok(start, s)
    ensures Ok(start, Play(s, turns, pc))
    decreases |turns|
  {
    if turns != [] {
      StepOk(start, s, turns[0], pc);
      PlayOk(start, Step(s, turns[0], pc), turns[1..], pc);
    }
  }

  /** Leaving the flush-aborted turns out of a run changes nothing. */
  lemma {:induction false} FlushesInvisible(s: Thread, turns: seq<Turn>, pc: int)
    ensures Play(s, Unflushed(turns), pc) == Play(s, turns, pc)
    decreases |turns|
  {
    if turns != [] {
      FlushesInvisible(Step(s, turns[0], pc), turns[1..], pc);
      var rest := Unflushed(turns[1..]);
      if turns[0].FlushedFragment? {
        assert Unflushed(turns) == rest;
      } else {
        assert Unflushed(turns) == [turns[0]] + rest && ([turns[0]] + rest)[1..] == rest;
      }
    }
  }

  function Unflushed(turns: seq<Turn>): seq<Turn> {
    if turns == [] then []
    else (if turns[0].FlushedFragment? then [] else [turns[0]]) + Unflushed(turns[1..])
  }

  // ----- the signal that native execution drops

  /** A signal keeps the thread from going native. */
  ghost predicate Drops(s: Thread, turn: Turn) {
    && turn.GoNative? && s.whereami == InDispatch
    && (if turn.waves == [] then s else Arrived(s, turn.waves[0])).sig.flag > 0
  }

  /** Once a flag was dropped with signals pending, it stays down. */
  lemma {:induction false} DroppedDown(s: Thread, arriving: seq<seq<Sig>>)
    requires s.sig.flag == 0 && AnyPending(s.sig)
    ensures !Flagged(Dropped(s, arriving).sig)
    decreases |arriving|
  {
    if arriving != [] {
      RecordedAllOk(s.sig, [], arriving[0]);
    }
    if arriving != [] && Arrived(s, arriving[0]).sig.flag > 0 {
      DroppedDown(WithFlag(Arrived(s, arriving[0]), 0), arriving[1..]);
    }
  }

  /** A turn leaves pending signals without a flag exactly when it drops one on the way to native code. */
  lemma StepFlagged(start: int, s: Thread, turn: Turn, pc: int)
    requires Ok(start, s) && Flagged(s.sig)
    ensures Flagged(Step(s, turn, pc).sig) <==> !Drops(s, turn)
  {
    hide Followed, Accounted, Returned, FragmentEntered;
    StepOk(start, s, turn, pc);
    if turn.GoNative? && s.whereami == InDispatch {
      var b := s.(couldBeLinking := false, whereami := InApp, place := Native);
      var a := if turn.waves == [] then b else Arrived(b, turn.waves[0]);
      if turn.waves != [] {
        RecordedAllOk(b.sig, [], turn.waves[0]);
      }
      if a.sig.flag > 0 && turn.waves != [] {
        DroppedDown(WithFlag(a, 0), turn.waves[1..]);
      }
    }
  }

  /** Some turn of the run drops a signal. */
  ghost predicate DropsIn(s: Thread, turns: seq<Turn>, pc: int)
    decreases |turns|
  {
    turns != [] && (Drops(s, turns[0]) || DropsIn(Step(s, turns[0], pc), turns[1..], pc))
  }

  /** Signals are never left pending without a flag but by a run that drops one. */
  lemma {:induction false} PlayFlagged(start: int, s: Thread, turns: seq<Turn>, pc: int)
    requires Ok(start, s) && Flagged(s.sig) && !DropsIn(s, turns, pc)
    ensures Flagged(Play(s, turns, pc).sig)
    decreases |turns|
  {
    if turns != [] {
      StepOk(start, s, turns[0], pc);
      StepFlagged(start, s, turns[0], pc);
      PlayFlagged(start, Step(s, turns[0], pc), turns[1..], pc);
    }
  }

  // ----- pending signals are started

  /** The last thing that happened is that a handler was started, and it is what the application executes
      next. */
  ghost predicate HandlerStarted(s: Thread) {
    s.log != [] && s.log[|s.log| - 1].Signal? && s.app == s.nextTag == s.log[|s.log| - 1].handler
  }

  /** On the way back from the cache there is a signal to be started: a flagged one, or one that arrives while
      a system call is handled. */
  ghost predicate SignalDue(s: Thread, call: Option<Call>) {
    (s.sig.flag != 0 && AnyPending(s.sig)) || (call.Some? && (call.value.early != [] || call.value.late != []))
  }

  lemma ReceivedOne(s: Thread)
    ensures var r := Received(s);
      if AnyPending(s.sig) then
        && HandlerStarted(r) && r.log == s.log + [Signal(First(s.sig).handler, s.nextTag, First(s.sig).stamp)]
        && Count(r.sig) == Count(s.sig) - 1 && r.sig.flag == -1
      else r == WithFlag(s, 0)
  {
    if AnyPending(s.sig) {
      TakenOne(s.sig);
    }
  }

  /** What dispatch_exit_fcache leaves: a handler was started exactly when a signal was due or one was started
      just before. */
  lemma ExitStarts(s: Thread)
    requires s.place.LoopHead?
    ensures var r := ExitProcessed(s);
      && (s.sig.flag != 0 && AnyPending(s.sig) ==> HandlerStarted(r) && Count(r.sig) == Count(s.sig) - 1)
      && (!(s.sig.flag != 0 && AnyPending(s.sig)) ==> r == s.(sig := r.sig) && Count(r.sig) == Count(s.sig))
      && s.log <= r.log
  {
    ReceivedOne(s);
  }

  /** After a system call was handled and not entered, a signal was started or is still due, exactly when one
      was due before. */
  ghost predicate CameBack(s: Thread, r: Thread, call: Call) {
    var more := r.sig.flag != 0 && AnyPending(r.sig);
    && s.log <= r.log
    && if SignalDue(s, Some(call)) then HandlerStarted(r) || more
       else !more && |s.log| < |r.log| && !r.log[|r.log| - 1].Signal?
  }

  lemma SkipBack(s: Thread, call: Call, pc: int)
    requires FlagOk(s.sig) && call.skip
    ensures CameBack(s, CallHandled(s, call, pc), call)
  {
    hide AnyPending, Accounted, RecordedAll;
    var target := if call.redirect.Some? then call.redirect.value else s.nextTag;
    var c := Logged(s.(asynchTarget := target, nextTag := target),
                    Called(s.app, call.length, target, call.redirect.Some?));
    RecordedAllOk(c.sig, [], call.early);
    RecordedAllOk(Arrived(c, call.early).sig, [], call.late);
  }

  lemma AbortBack(s: Thread, call: Call, pc: int)
    requires FlagOk(s.sig) && !call.skip && call.kind == Ordinary && Arrived(s, call.early).sig.flag > 0
    ensures CameBack(s, CallHandled(s, call, pc), call)
  {
    hide AnyPending, Accounted, RecordedAll, Received, Count;
    var target := if call.redirect.Some? then call.redirect.value else s.nextTag;
    var a := Arrived(s.(asynchTarget := target, atSyscall := true, nextTag := pc, whereami := InFcache), call.early);
    RecordedAllOk(s.sig, [], call.early);
    var b := a.(whereami := InDispatch, atSyscall := false, nextTag := s.nextTag - call.length);
    ReceivedOne(b);
    RecordedAllOk(Received(b).sig, [], call.late);
    assert HandlerStarted(Arrived(Received(b), call.late));
  }

  /** Where a system call goes on. */
  ghost function GoesOn(s: Thread, call: Call): int {
    if call.redirect.Some? then call.redirect.value else s.nextTag
  }

  /** An entered system call: the code cache is entered at `pc`, and the place to come back to is noted. */
  ghost predicate Entered(s: Thread, r: Thread, call: Call, pc: int) {
    && r.nextTag == pc && r.whereami == InFcache && r.asynchTarget == GoesOn(s, call)
    && r.place == InSyscall(call.length, call.redirect.Some?) && r.app == s.app && r.log == s.log
  }

  lemma EnteredCall(s: Thread, call: Call, pc: int)
    requires !s.atSyscall
    ensures var r := CallHandled(s, call, pc); r.atSyscall ==> Entered(s, r, call, pc)
  {
    hide RecordedAll, First, Taken, AnyPending;
  }

  /** What handling a system call does to the application: if it is skipped it goes on as if it had been
      executed, an ordinary one that meets a signal is interrupted at its own instruction by the signal that is
      first in line, and any other is entered. */
  lemma CallEvents(s: Thread, call: Call, pc: int)
    requires FlagOk(s.sig) && !s.atSyscall
    ensures var r, g := CallHandled(s, call, pc), RecordedAll(s.sig, call.early);
      if call.skip then
        && r.log == s.log + [Called(s.app, call.length, GoesOn(s, call), call.redirect.Some?)]
        && r.app == r.nextTag == GoesOn(s, call) && !r.atSyscall
      else if call.kind == Ordinary && g.flag > 0 then
        && AnyPending(g) && r.log == s.log + [Signal(First(g).handler, s.nextTag - call.length, First(g).stamp)]
        && r.app == r.nextTag == First(g).handler && !r.atSyscall && r.whereami == InDispatch
      else r.atSyscall && Entered(s, r, call, pc)
  {
    hide AnyPending, Accounted, RecordedAll, First, Taken;
    RecordedAllOk(s.sig, [], call.early);
  }

  /** No signal that arrives on the way is lost. */
  lemma CallArrivals(s: Thread, call: Call, pc: int)
    ensures CallHandled(s, call, pc).sig.arrived == s.sig.arrived + call.early + call.late
  {
    hide AnyPending, Accounted, First;
    RecordedAllOk(s.sig, [], call.early);
    RecordedAllOk(Lowered(s).sig, [], call.early);
    var early := Arrived(s, call.early);
    RecordedAllOk(early.sig, [], call.late);
    RecordedAllOk(Lowered(Arrived(Lowered(s), call.early)).sig, [], call.late);
    var a := Arrived(s.(asynchTarget := GoesOn(s, call), atSyscall := true, nextTag := pc, whereami := InFcache),
      call.early);
    RecordedAllOk(
      Received(a.(whereami := InDispatch, atSyscall := false, nextTag := s.nextTag - call.length)).sig, [], call.late);
    hide RecordedAll;
  }

  lemma CallBack(s: Thread, call: Call, pc: int)
    requires FlagOk(s.sig) && !s.atSyscall
    ensures var r := CallHandled(s, call, pc); s.log <= r.log && (!r.atSyscall ==> CameBack(s, r, call))
  {
    CallEvents(s, call, pc);
    hide CallHandled, AnyPending, SignalDue, HandlerStarted, First, RecordedAll;
    if call.skip {
      SkipBack(s, call, pc);
    } else if call.kind == Ordinary && Arrived(s, call.early).sig.flag > 0 {
      AbortBack(s, call, pc);
    }
  }

  /** The first thing a return logs: what the application did since it left. */
  ghost function CameFrom(s: Thread, target: int, call: Option<Call>): Event {
    if s.place.InSyscall? then Called(s.app, s.place.length, s.asynchTarget, s.place.redirected)
    else Ran(s.app, if call.Some? && !s.place.Native? then target - call.value.length else target)
  }

  lemma EndedFirst(s: Thread, target: int, call: Option<Call>)
    requires s.place.InSyscall? || s.place.InFragment?
    ensures var r := Ended(s, target, call);
      s.log + [CameFrom(s, target, call)] <= r.log && r.sig == s.sig && !r.log[|r.log| - 1].Signal?
  {
  }

  /** dispatch_exit_fcache, after what was logged so far: `due` is whether a signal was due at the return. */
  lemma ExitAfter(s: Thread, h: Thread, due: bool)
    requires s.log <= h.log && |s.log| < |h.log| && !h.atSyscall
    requires var more := h.sig.flag != 0 && AnyPending(h.sig);
      if due then HandlerStarted(h) || more else !more && !h.log[|h.log| - 1].Signal?
    ensures var r := ExitProcessed(h.(couldBeLinking := true, place := LoopHead));
      h.log <= r.log && !r.atSyscall && r.place.LoopHead? && (HandlerStarted(r) <==> due)
  {
    var l := h.(couldBeLinking := true, place := LoopHead);
    ExitStarts(l);
    ExitStays(l);
    hide ExitProcessed, AnyPending;
  }

  lemma Ahead(a: seq<Event>, b: seq<Event>, c: seq<Event>)
    requires a <= b <= c
    ensures a <= c
  {
  }

  /** Coming back from a fragment or a system call starts a handler exactly when a signal is due. */
  lemma ReturnStarts(s: Thread, target: int, call: Option<Call>, pc: int)
    requires Valid(s) && !s.place.LoopHead? && !s.place.Native?
    ensures var r := Returned(s, target, call, pc);
      s.log + [CameFrom(s, target, call)] <= r.log && (!r.atSyscall ==> (HandlerStarted(r) <==> SignalDue(s, call)))
    ensures call.None? ==> !Returned(s, target, call, pc).atSyscall && Returned(s, target, call, pc).place.LoopHead?
  {
    hide CallHandled, ExitProcessed, AnyPending, CameFrom, Ended, HandlerStarted;
    EndedWhere(s, target, call);
    EndedFirst(s, target, call);
    var r := Ended(s, target, call).(
      whereami := InDispatch, atSyscall := false, nextTag := if s.place.InSyscall? then s.asynchTarget else target);
    if call.Some? {
      CallBack(r, call.value, pc);
    }
    var h := if call.Some? then CallHandled(r, call.value, pc) else r;
    Ahead(s.log + [CameFrom(s, target, call)], r.log, h.log);
    if !h.atSyscall {
      ExitAfter(s, h, SignalDue(s, call));
      Ahead(s.log + [CameFrom(s, target, call)], h.log, Returned(s, target, call, pc).log);
    }
  }

  /** And then there is one less to be started. */
  lemma ReturnCounts(s: Thread, target: int, pc: int)
    requires Valid(s) && !s.place.LoopHead? && !s.place.Native?
    ensures Count(Returned(s, target, None, pc).sig) == Count(s.sig) - if SignalDue(s, None) then 1 else 0
  {
    EndedWhere(s, target, None);
    var h := Ended(s, target, None).(whereami := InDispatch, atSyscall := false, couldBeLinking := true,
      place := LoopHead, nextTag := if s.place.InSyscall? then s.asynchTarget else target);
    ExitStarts(h);
    hide ExitProcessed, AnyPending, Ended;
    assert Returned(s, target, None, pc) == ExitProcessed(h);
  }

  lemma ExitStays(s: Thread)
    ensures ExitProcessed(s).atSyscall == s.atSyscall && ExitProcessed(s).place == s.place
  {
  }

  /** For every target: enter a fragment and come back from it there. */
  function Rounds(targets: seq<int>): seq<Turn> {
    if targets == [] then [] else [Fragment([]), Return(targets[0], None)] + Rounds(targets[1..])
  }

  /** Entering a fragment without new signals: an unhandled one sends the thread back at once and is started,
      else none is. */
  lemma QuietEntrance(start: int, s: Thread, pc: int)
    requires Ok(start, s) && s.place.LoopHead?
    ensures var m := FragmentEntered(s, pc, []);
      if s.sig.flag > 0 then m.place.LoopHead? && Count(m.sig) == Count(s.sig) - 1
      else m.place.InFragment? && m.sig == s.sig
  {
    var b := s.(asynchTarget := s.nextTag);
    ReceivedOne(b);
    ReceivedFields(b);
    hide Received, AnyPending, Followed;
    assert Arrived(s, []) == s;
    assert s.sig.flag > 0 ==> FragmentEntered(s, pc, []) == Received(b);
  }

  /** A round starts one pending signal. */
  lemma OneRound(start: int, s: Thread, target: int, pc: int)
    requires Ok(start, s) && s.place.LoopHead? && Flagged(s.sig)
    ensures var r := Step(Step(s, Fragment([]), pc), Return(target, None), pc);
      && Ok(start, r) && r.place.LoopHead? && Flagged(r.sig)
      && Count(r.sig) == if AnyPending(s.sig) then Count(s.sig) - 1 else 0
  {
    var m := Step(s, Fragment([]), pc);
    StepOk(start, s, Fragment([]), pc);
    StepOk(start, m, Return(target, None), pc);
    QuietEntrance(start, s, pc);
    if s.sig.flag <= 0 {
      ReturnStarts(m, target, None, pc);
      ReturnCounts(m, target, pc);
    }
    hide Returned, FragmentEntered, AnyPending, Followed;
  }

  /** Flagged signals are all started, one per round, as long as no new ones arrive. */
  lemma {:induction false} RoundsStart(start: int, s: Thread, targets: seq<int>, pc: int)
    requires Ok(start, s) && s.place.LoopHead? && Flagged(s.sig)
    ensures var r := Play(s, Rounds(targets), pc);
      && Ok(start, r) && r.place.LoopHead? && Flagged(r.sig)
      && Count(r.sig) == if Count(s.sig) <= |targets| then 0 else Count(s.sig) - |targets|
    decreases |targets|
  {
    hide Ok, Step, AnyPending, Flagged;
    if targets != [] {
      OneRound(start, s, targets[0], pc);
      var turns, rest := Rounds(targets), Rounds(targets[1..]);
      var m := Step(s, turns[0], pc);
      assert turns[1..] == [Return(targets[0], None)] + rest && turns[1..][1..] == rest;
      assert Play(s, turns, pc) == Play(m, turns[1..], pc) == Play(Step(m, turns[1], pc), rest, pc);
      RoundsStart(start, Step(m, turns[1], pc), targets[1..], pc);
    }
  }

  /** A signal that arrives in the dispatcher just before the thread goes native stays pending, unflagged. */
  lemma SignalStranded(s: Thread, x: Sig, pc: int)
    requires Ok(s.app, s) && s.place.LoopHead? && s.sig.flag == 0
    ensures !Flagged(Play(s, [Arrive([x]), GoNative([])], pc).sig)
  {
    var turns := [Arrive([x]), GoNative([])];
    assert turns[1..] == [GoNative([])] && turns[1..][1..] == [];
    var s1 := Step(s, turns[0], pc);
    RecordedAllOk(s.sig, [], [x]);
    var s2 := Step(s1, turns[1], pc);
    assert s2.sig == s1.sig.(flag := 0);
    assert Play(s1, turns[1..], pc) == Play(s2, [], pc);
  }

  /** Signals are not started in the order of their arrival: of two that arrive in the dispatcher, the second
      is started first if its number is not higher. */
  lemma SecondStartsFirst(s: Thread, x: Sig, y: Sig, pc: int)
    requires Valid(s) && s.place.LoopHead? && s.sig.flag == 0 && !AnyPending(s.sig) && y.num <= x.num
    ensures Play(s, [Fragment([x, y])], pc).log == s.log + [Signal(y.handler, s.app, |s.sig.arrived| + 1)]
  {
    var turns := [Fragment([x, y])];
    LowerFirst(s.sig, x, y);
    RecordedAllOk(s.sig, [], [x, y]);
    assert turns[1..] == [];
    assert Play(s, turns, pc) == Play(Step(s, turns[0], pc), [], pc);
  }

  class Dcontext {
    var whereami: Where
    var couldBeLinking: bool
    var atSyscall: bool
    var nextTag: int
    var asynchTarget: int
    var signalsPending: int
    /** sig_info's pending signals */
    var sigpending: Queues

    ghost var place: Place
    ghost var app: int
    ghost var log: seq<Event>
    ghost var arrived: seq<Sig>
    ghost var dropped: set<nat>

    ghost function T(): Thread
      reads this
    {
      Thread(whereami, couldBeLinking, atSyscall, nextTag, asynchTarget,
             SigInfo(signalsPending, sigpending, arrived, dropped), place, app, log)
    }

    /** A new thread, about to dispatch to `start`. */
    constructor (start: int)
      ensures Ok(start, T()) && Flagged(T().sig) && place == Native && app == start && log == []
    {
      whereami, couldBeLinking, atSyscall, nextTag, asynchTarget := InApp, false, false, start, 0;
      signalsPending, sigpending := 0, seq(MAX_SIGNUM + 1, _ => []);
      place, app, log, arrived, dropped := Native, start, [], [], {};
    }

    method EnterNolinking()
      requires couldBeLinking
      modifies this`couldBeLinking
      ensures !couldBeLinking
    {
      couldBeLinking := false;
    }

    method EnterCouldbelinking()
      requires !couldBeLinking && !atSyscall
      modifies this`couldBeLinking
      ensures couldBeLinking
    {
      couldBeLinking := true;
    }

    /** record_pending_signal, for unblocked signals that will run a handler. */
    method RecordPendingSignals(xs: seq<Sig>)
      modifies this`sigpending, this`signalsPending, this`arrived, this`dropped
      ensures T() == Arrived(old(T()), xs)
    {
      var i := 0;
      while i < |xs|
        invariant 0 <= i <= |xs| && T() == Arrived(old(T()), xs[..i])
      {
        assert xs[..i + 1][..i] == xs[..i];
        var l := sigpending[xs[i].num];
        if IsAlarm(xs[i].num) && |l| >= 2 {
          dropped := dropped + {l[0].stamp};
          l := l[1..];
        }
        sigpending := sigpending[xs[i].num := [Pend(xs[i].handler, |arrived|)] + l];
        arrived := arrived + [xs[i]];
        if signalsPending == 0 {
          signalsPending := 1;
        }
        i := i + 1;
      }
      assert xs[..i] == xs;
    }

    /** receive_pending_signal */
    method ReceivePendingSignal()
      modifies this`sigpending, this`signalsPending, this`nextTag, this`app, this`log
      ensures T() == Received(old(T()))
    {
      var sig := 1;
      while sig <= MAX_SIGNUM && |sigpending[sig]| == 0
        invariant 1 <= sig <= MAX_SIGNUM + 1 && T() == old(T())
        invariant Lowest(sigpending) == LowestFrom(sigpending, sig)
      {
        sig := sig + 1;
      }
      if sig > MAX_SIGNUM {
        signalsPending := 0;
      } else {
        var l := sigpending[sig];
        log := log + [Signal(l[0].handler, nextTag, l[0].stamp)];
        nextTag, app := l[0].handler, l[0].handler;
        sigpending := sigpending[sig := l[1..]];
        signalsPending := -1;
      }
    }

    /** enter_fcache: the generated code returns if a signal is pending when it looks. */
    method EnterFcache(pc: int, arriving: seq<Sig>) returns (back: bool)
      requires !couldBeLinking
      modifies this`nextTag, this`whereami, this`sigpending, this`signalsPending, this`arrived, this`dropped
      ensures T() == Arrived(old(T()).(nextTag := pc, whereami := InFcache), arriving)
      ensures back <==> signalsPending > 0
    {
      nextTag := pc;
      whereami := InFcache;
      RecordPendingSignals(arriving);
      back := signalsPending > 0;
    }

    /** dispatch_enter_fcache for the fragment of next_tag, at cache address `pc`; `flushed` if it is gone by
        the time the thread stops linking. */
    method EnterFragment(pc: int, flushed: bool, arriving: seq<Sig>) returns (departed: bool)
      requires Valid(T()) && place.LoopHead?
      modifies this
      ensures T() == if flushed then old(T()) else FragmentEntered(old(T()), pc, arriving)
      ensures departed <==> place.InFragment?
      ensures departed ==> nextTag == pc && asynchTarget == old(nextTag) && log == old(log)
    {
      hide Received, RecordedAll, AnyPending;
      EnterNolinking();
      if flushed {
        EnterCouldbelinking();
        return false;
      }
      asynchTarget := nextTag;
      var back := EnterFcache(pc, arriving);
      if back {
        whereami := InDispatch;
        EnterCouldbelinking();
        nextTag := asynchTarget;
        ReceivePendingSignal();
        return false;
      }
      place := InFragment;
      return true;
    }

    /** dispatch_enter_native; `arriving` are the signals that arrive before each attempt. */
    method EnterNative(arriving: seq<seq<Sig>>)
      requires Valid(T()) && place.LoopHead?
      modifies this
      ensures T() == WentNative(old(T()), arriving)
    {
      hide AnyPending, Recorded;
      EnterNolinking();
      whereami := InApp;
      place := Native;
      ghost var s := T();
      var i := 0;
      while true
        invariant 0 <= i <= |arriving| && place == Native && whereami == InApp && !couldBeLinking
        invariant Dropped(T(), arriving[i..]) == Dropped(s, arriving)
        invariant i == |arriving| && 0 < i ==> signalsPending <= 0
        decreases |arriving| - i, signalsPending
      {
        RecordPendingSignals(if i < |arriving| then arriving[i] else []);
        if signalsPending <= 0 {
          break;
        }
        signalsPending := 0;
        if i < |arriving| {
          i := i + 1;
        }
      }
    }

    /** handle_system_call at the end of a block, for Unix. */
    method HandleSystemCall(call: Call, pc: int) returns (departed: bool)
      requires !couldBeLinking && !atSyscall && whereami == InDispatch && nextTag - call.length == app
      modifies this
      ensures T() == CallHandled(old(T()), call, pc)
      ensures !couldBeLinking && (departed <==> atSyscall)
      // sigreturn and clone, which cannot be undone once pre_system_call has run, are never aborted
      ensures call.kind != Ordinary && !call.skip ==> departed
      ensures departed ==> Entered(old(T()), T(), call, pc)
    {
      EnteredCall(T(), call, pc);
      hide Received, Insisted, RecordedAll, Entered;
      var savedNextTag := nextTag;
      asynchTarget := nextTag;
      if call.redirect.Some? {
        asynchTarget := call.redirect.value;
      }
      if call.skip {
        SkipCall(call);
        return false;
      }
      atSyscall := true;
      departed := Attempts(call, pc);
      if !departed {
        AbortCall(savedNextTag - call.length, call.late);
      }
    }

    /** handle_system_call, when a signal sent an ordinary call back to its instruction, `at`. */
    method AbortCall(at: int, late: seq<Sig>)
      modifies this`whereami, this`atSyscall, this`nextTag, this`app, this`log
      modifies this`sigpending, this`signalsPending, this`arrived, this`dropped
      ensures T() == Arrived(Received(old(T()).(whereami := InDispatch, atSyscall := false, nextTag := at)), late)
      ensures !atSyscall
    {
      hide Received, RecordedAll;
      whereami := InDispatch;
      atSyscall := false;
      nextTag := at;
      ReceivePendingSignal();
      RecordPendingSignals(late);
    }

    /** handle_system_call, when the call itself is not executed. */
    method SkipCall(call: Call)
      modifies this`nextTag, this`app, this`log, this`sigpending, this`signalsPending, this`arrived, this`dropped
      ensures var e := Called(old(app), call.length, asynchTarget, call.redirect.Some?);
        T() == Arrived(Arrived(Logged(old(T()).(nextTag := asynchTarget), e), call.early), call.late)
    {
      log := log + [Called(app, call.length, asynchTarget, call.redirect.Some?)];
      nextTag, app := asynchTarget, asynchTarget;
      RecordPendingSignals(call.early);
      RecordPendingSignals(call.late);
    }

    /** The loop of handle_system_call: a sigreturn or clone that a signal sends back is entered again with
        the flag down. It is sent back at most once. */
    method Attempts(call: Call, pc: int) returns (departed: bool)
      requires !couldBeLinking && atSyscall
      modifies this`nextTag, this`whereami, this`sigpending, this`signalsPending, this`arrived, this`dropped, this`place
      ensures departed <==> call.kind != Ordinary || Arrived(old(T()), call.early).sig.flag <= 0
      ensures departed ==> place == InSyscall(call.length, call.redirect.Some?)
      ensures var e := old(T()).(nextTag := pc, whereami := InFcache);
        T() == if !departed then Arrived(e, call.early)
               else if call.kind == Ordinary
               then Arrived(Arrived(e, call.early).(place := InSyscall(call.length, call.redirect.Some?)), call.late)
               else Insisted(e, call.early, call.late).(place := InSyscall(call.length, call.redirect.Some?))
    {
      var insist, back, i := call.kind != Ordinary, true, 0;
      ghost var s := T();
      ghost var e := s.(nextTag := pc, whereami := InFcache);
      ghost var a := Arrived(if insist then Lowered(e) else e, call.early);
      hide RecordedAll, AnyPending, Accounted;
      RecordedAllOk(WithFlag(a, -1).sig, [], call.late);
      while back
        invariant 0 <= i <= 2 && !couldBeLinking
        invariant i == 0 ==> back && T() == s
        invariant i == 1 ==> T() == a && (back <==> a.sig.flag > 0) && (back ==> insist)
        invariant i == 2 ==> !back && insist && a.sig.flag > 0 && T() == Arrived(WithFlag(a, -1), call.late)
        decreases 2 - i
      {
        if insist && signalsPending > 0 {
          signalsPending := -1;
        }
        back := EnterFcache(pc, if i == 0 then call.early else call.late);
        i := i + 1;
        if back && !insist {
          return false;
        }
      }
      place := InSyscall(call.length, call.redirect.Some?);
      if i == 1 {
        RecordPendingSignals(call.late);
      }
      return true;
    }

    /** handle_post_system_call */
    method HandlePostSystemCall()
      requires !couldBeLinking && atSyscall && place.InSyscall?
      modifies this`atSyscall, this`nextTag, this`app, this`log
      ensures T() == old(T()).(atSyscall := false, nextTag := asynchTarget, app := asynchTarget,
                               log := old(log) + [Called(old(app), place.length, asynchTarget, place.redirected)])
    {
      atSyscall := false;
      nextTag := asynchTarget;
      log := log + [Called(app, place.length, asynchTarget, place.redirected)];
      app := asynchTarget;
    }

    /** The part of dispatch_enter_dynamorio that finds where the application has come to. */
    method FinishExit(target: int, call: Option<Call>)
      requires !couldBeLinking && !place.LoopHead? && (place.InSyscall? <==> atSyscall)
      modifies this`whereami, this`atSyscall, this`nextTag, this`app, this`log
      ensures T() == Ended(old(T()), target, call).(whereami := InDispatch, atSyscall := false,
                       nextTag := if place.InSyscall? then asynchTarget else target)
    {
      whereami := InDispatch;
      if atSyscall {
        HandlePostSystemCall();
        if call.Some? {
          log, app := log + [Invoked(app, call.value.length)], app - call.value.length;
        }
      } else {
        nextTag := target;
        log := log + [Ran(app, if call.Some? then target - call.value.length else target)];
        app := if call.Some? then target - call.value.length else target;
      }
    }

    /** dispatch_enter_dynamorio and dispatch_exit_fcache: the thread comes back from a fragment or native
        code that has come to `target`, or from a system call. */
    method EnterDynamorio(target: int, call: Option<Call>, pc: int) returns (departed: bool)
      requires Valid(T()) && !place.LoopHead?
      modifies this
      ensures T() == Returned(old(T()), target, call, pc)
      ensures departed <==> atSyscall
      // a signal that is due is started, unless a system call is entered first
      ensures !old(place).Native? ==> old(log) + [CameFrom(old(T()), target, call)] <= log
      ensures !old(place).Native? && !departed ==> (HandlerStarted(T()) <==> SignalDue(old(T()), call))
    {
      if !place.Native? {
        ReturnStarts(T(), target, call, pc);
      }
      hide CallHandled, Received, Arrived, Ended;
      EndedWhere(T(), target, call);
      EndedWhere(T(), target, None);
      var wherewasi := whereami;
      FinishExit(target, if wherewasi == InApp then None else call);
      if wherewasi == InApp {
        EnterCouldbelinking();
        place := LoopHead;
        return false;
      }
      departed := false;
      if call.Some? {
        departed := HandleSystemCall(call.value, pc);
        if departed {
          return;
        }
      }
      EnterCouldbelinking();
      place := LoopHead;
      if signalsPending != 0 {
        ReceivePendingSignal();
      }
    }
  }

  /** Any sequence of turns, with those that do not apply passed over. */
  method Run(d: Dcontext, turns: seq<Turn>, pc: int, ghost start: int)
    requires Ok(start, d.T())
    modifies d
    ensures d.T() == Play(old(d.T()), turns, pc) && Ok(start, d.T())
  {
    hide Followed, FlagOk, FragmentEntered, Returned, WentNative, RecordedAll;
    var i := 0;
    while i < |turns|
      invariant 0 <= i <= |turns| && Ok(start, d.T())
      invariant Play(d.T(), turns[i..], pc) == Play(old(d.T()), turns, pc)
    {
      ghost var s := d.T();
      StepOk(start, s, turns[i], pc);
      var departed;
      match turns[i] {
        case Return(target, call) =>
          if d.whereami != InDispatch {
            departed := d.EnterDynamorio(target, call, pc);
          }
        case Fragment(arriving) =>
          if d.whereami == InDispatch {
            departed := d.EnterFragment(pc, false, arriving);
          }
        case FlushedFragment =>
          if d.whereami == InDispatch {
            departed := d.EnterFragment(pc, true, []);
          }
        case GoNative(waves) =>
          if d.whereami == InDispatch {
            d.EnterNative(waves);
          }
        case Arrive(xs) => d.RecordPendingSignals(xs);
      }
      assert d.T() == Step(s, turns[i], pc);
      assert turns[i..][1..] == turns[i + 1..];
      i := i + 1;
    }
  }

  /** Of two threads in the same state one goes through `turns` and the other through those of them that are
      not aborted by a flush: they end up in the same state. */
  method RunBoth(d: Dcontext, e: Dcontext, turns: seq<Turn>, pc: int, ghost start: int)
    requires d != e && d.T() == e.T() && Ok(start, d.T())
    modifies d, e
    ensures d.T() == e.T() && Ok(start, d.T())
  {
    FlushesInvisible(d.T(), turns, pc);
    Run(d, turns, pc, start);
    Run(e, Unflushed(turns), pc, start);
  }
}
