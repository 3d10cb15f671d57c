/** The crash handler protocol of navit/coffeecatch.c as a state machine: threads that enter, re-enter
    and leave protected sections, and crash in them, take atomic steps in any order. */
module CrashGuard {
  import opened Basics

  /** What happens on a signal: the default action, a handler of the program, or one of the two
      handlers that the protocol installs. */
  datatype Disposition = Default | Foreign(id: int) | Pass | Abort

  const SIGABRT := 6

  /** `native_sig_catch`. */
  function Caught(): seq<int> { [6, 4, 5, 7, 8, 11, 16] }

  function Ours(sig: int): Disposition { if sig == SIGABRT then Abort else Pass }

  type Tid = nat

  /** Where a thread is between its calls into the protocol and inside them. */
  datatype Place =
    | Outside
    | Installing(done: nat)     // coffeecatch_handler_setup_global, first thread: `done` handlers installed
    | SetupDone                 // about to unlock
    | GlobalReady               // between the mutex and the thread's own structure
    | LocalReady                // coffeecatch_handler_setup is done
    | Inside(depth: nat)        // in a section nested `depth` deep
    | Recovered(depth: nat)     // in the COFFEE_CATCH block, or in sections entered from it
    | Leaving                   // coffeecatch_handler_cleanup, before the thread's structure is freed
    | LocalFreed                // before the mutex
    | Restoring(done: nat)      // last thread: `done` handlers restored
    | CleanupDone               // about to unlock

  /** `native_code_handler_struct` as far as the protocol depends on it. */
  datatype Local = Local(reenter: nat, ctx_is_set: bool)

  datatype Thread = Thread(place: Place, local: Option<Local>)

  datatype State = State(alive: bool, mutex: Option<Tid>, initialized: int, handlers: map<int, Disposition>,
                         sa_old: Option<map<int, Disposition>>, key: bool, threads: map<Tid, Thread>)

  datatype Event =
    | Enter(t: Tid) | Install(t: Tid) | Unlock(t: Tid) | SetLocal(t: Tid) | Mark(t: Tid)
    | Reenter(t: Tid) | Leave(t: Tid) | FreeLocal(t: Tid) | Release(t: Tid) | Restore(t: Tid)
    | Crash(t: Tid, sig: int)

  function With(s: State, t: Tid, place: Place, local: Option<Local>): State {
    s.(threads := s.threads[t := Thread(place, local)])
  }

  function N(): nat { |Caught()| }

  /** `coffeecatch_inside` finds the thread in a section, rightly or not. */
  predicate Claims(th: Thread) { th.local.Some? && th.local.value.reenter > 0 }

  /** When a thread can take a step.  A crash happens outside of the calls into the protocol, with a
      signal that is one of those that are caught. */
  predicate Enabled(s: State, e: Event) {
    && s.alive && e.t in s.threads
    && var th := s.threads[e.t];
    match e
    case Enter(t) => th.place == Outside && !Claims(th) && s.mutex == None
    case Install(t) => th.place.Installing?
    case Unlock(t) => th.place == SetupDone || th.place == CleanupDone
    case SetLocal(t) => th.place == GlobalReady
    case Mark(t) => th.place == LocalReady
    case Reenter(t) => th.place.Inside? || th.place.Recovered? || (th.place == Outside && Claims(th))
    case Leave(t) => th.place.Inside? || th.place.Recovered?
    case FreeLocal(t) => th.place == Leaving
    case Release(t) => th.place == LocalFreed && s.mutex == None
    case Restore(t) => th.place.Restoring?
    case Crash(t, sig) => sig in Caught() && (th.place == Outside || th.place.Inside? || th.place.Recovered?)
  }

  /** One level deeper; the level is that of the blocks of the program, not that of `reenter`. */
  function Deeper(p: Place): Place {
    match p
    case Inside(depth) => Inside(depth + 1)
    case Recovered(depth) => Recovered(depth + 1)
    case _ => Inside(1)
  }

  function Shallower(p: Place): Place {
    match p
    case Inside(depth) => if depth > 1 then Inside(depth - 1) else Outside
    case Recovered(depth) => if depth > 1 then Recovered(depth - 1) else Outside
    case _ => p
  }

  /** What the step does; the structure of the thread is there whenever the step needs it (`Inv`). */
  function Apply(s: State, e: Event): State
    requires Enabled(s, e)
  {
    var th := s.threads[e.t];
    match e
    case Enter(t) =>
      var counted := s.(mutex := Some(t), initialized := s.initialized + 1);
      if s.initialized == 0 then With(counted.(sa_old := Some(map[])), t, Installing(0), th.local)
      else With(counted, t, SetupDone, th.local)
    case Install(t) =>
      var i := th.place.done;
      if i < N() && s.sa_old.Some? && Caught()[i] in s.handlers then
        var sig := Caught()[i];
        With(s.(sa_old := Some(s.sa_old.value[sig := s.handlers[sig]]), handlers := s.handlers[sig := Ours(sig)]),
             t, Installing(i + 1), th.local)
      else With(s.(key := true), t, SetupDone, th.local)
    case Unlock(t) => With(s.(mutex := None), t, if th.place == SetupDone then GlobalReady else Outside, th.local)
    case SetLocal(t) => With(s, t, LocalReady, if th.local.None? then Some(Local(0, false)) else th.local)
    case Mark(t) => With(s, t, Inside(1), Some(Local(1, true)))
    case Reenter(t) =>
      With(s, t, Deeper(th.place),
           if th.local.Some? then Some(th.local.value.(reenter := th.local.value.reenter + 1)) else None)
    case Leave(t) =>
      if th.local.Some? && th.local.value.reenter > 1 then
        With(s, t, Shallower(th.place), Some(th.local.value.(reenter := th.local.value.reenter - 1)))
      else With(s, t, Leaving, Some(Local(0, false)))
    case FreeLocal(t) => With(s, t, LocalFreed, None)
    case Release(t) =>
      var counted := s.(mutex := Some(t), initialized := s.initialized - 1);
      With(counted, t, if s.initialized == 1 then Restoring(0) else CleanupDone, th.local)
    case Restore(t) =>
      var i := th.place.done;
      if i < N() && s.sa_old.Some? && Caught()[i] in s.sa_old.value then
        var sig := Caught()[i];
        With(s.(handlers := s.handlers[sig := s.sa_old.value[sig]]), t, Restoring(i + 1), th.local)
      else With(s.(sa_old := None, key := false), t, CleanupDone, th.local)
    case Crash(t, sig) =>
      if sig in s.handlers && s.handlers[sig] == Ours(sig) && th.local.Some? && th.local.value.ctx_is_set then
        With(s.(handlers := s.handlers[sig := Default]), t, Recovered(1), Some(th.local.value.(ctx_is_set := false)))
      else s.(alive := false)
  }

  // The invariant

  /** Between the global setup and the global cleanup. */
  predicate Busy(p: Place) {
    !(p.Outside? || p.Restoring? || p.CleanupDone?)
  }

  /** The thread has a share of the counter: it is busy, or it went away without giving its share back. */
  predicate Holds(th: Thread) {
    Busy(th.place) || (th.place.Outside? && th.local.Some?)
  }

  predicate Locks(p: Place) { p.Installing? || p.SetupDone? || p.Restoring? || p.CleanupDone? }

  function Holders(threads: map<Tid, Thread>): set<Tid> { set t | t in threads && Holds(threads[t]) }

  /** The thread's own structure fits the place where the thread is. */
  predicate Fits(th: Thread) {
    match th.place
    case LocalReady => th.local == Some(Local(0, false))
    case Outside => th.local.Some? ==> th.local.value.reenter > 0 && !th.local.value.ctx_is_set
    case Inside(depth) => 0 < depth && th.local.Some? && depth <= th.local.value.reenter && (th.local.value.ctx_is_set <==> th.local.value.reenter == depth)
    case Recovered(depth) => 0 < depth && th.local.Some? && depth <= th.local.value.reenter && !th.local.value.ctx_is_set
    case Leaving => th.local == Some(Local(0, false))
    case Installing(done) => done <= N() && th.local == None
    case Restoring(done) => done <= N() && th.local == None
    case _ => th.local == None
  }

  predicate Same(a: map<int, Disposition>, b: map<int, Disposition>, from: nat, to: nat)
    requires from <= to <= N()
  {
    forall i :: from <= i < to ==> Caught()[i] in a && Caught()[i] in b && a[Caught()[i]] == b[Caught()[i]]
  }

  /** Installed, or switched to the default action by a crash. */
  predicate Taken(a: map<int, Disposition>, from: nat, to: nat)
    requires from <= to <= N()
  {
    forall i :: from <= i < to ==> Caught()[i] in a && (a[Caught()[i]] == Ours(Caught()[i]) || a[Caught()[i]] == Default)
  }

  /** The handlers, given what the thread that has the mutex is doing. */
  ghost predicate Handlers(s: State, orig: map<int, Disposition>, p: Place) {
    && (forall sig :: sig !in Caught() ==> (sig in s.handlers <==> sig in orig) && (sig in orig ==> s.handlers[sig] == orig[sig]))
    && match p
       case Installing(i) =>
         && i <= N() && s.initialized == 1 && s.sa_old.Some? && !s.key
         && Same(s.sa_old.value, orig, 0, i) && Taken(s.handlers, 0, i) && Same(s.handlers, orig, i, N())
       case Restoring(i) =>
         && i <= N() && s.initialized == 0 && s.sa_old.Some?
         && Same(s.sa_old.value, orig, 0, N()) && Same(s.handlers, orig, 0, i) && Taken(s.handlers, i, N())
       case _ =>
         if s.initialized == 0 then s.sa_old == None && !s.key && Same(s.handlers, orig, 0, N())
         else s.sa_old.Some? && s.key && Same(s.sa_old.value, orig, 0, N()) && Taken(s.handlers, 0, N())
  }

  function AtMutex(s: State): Place {
    if s.mutex.Some? && s.mutex.value in s.threads then s.threads[s.mutex.value].place else Outside
  }

  ghost predicate Inv(s: State, orig: map<int, Disposition>) {
    && s.initialized == |Holders(s.threads)|
    && (forall t :: t in s.threads ==> Fits(s.threads[t]) && (Locks(s.threads[t].place) <==> s.mutex == Some(t)))
    && (s.mutex.Some? ==> s.mutex.value in s.threads)
    && Handlers(s, orig, AtMutex(s))
  }

  /** Before any thread has used the protocol. */
  predicate Initial(s: State) {
    && s.alive && s.mutex == None && s.initialized == 0 && s.sa_old == None && !s.key
    && (forall t :: t in s.threads ==> s.threads[t] == Thread(Outside, None))
    && (forall sig :: sig in Caught() ==> sig in s.handlers && s.handlers[sig] != Ours(sig))
  }

  lemma {:induction false} HoldersSet(threads: map<Tid, Thread>, t: Tid, th: Thread)
    requires t in threads
    ensures Holders(threads[t := th]) == if Holds(th) then Holders(threads) + {t} else Holders(threads) - {t}
    ensures |Holders(threads[t := th])| ==
      |Holders(threads)| - (if Holds(threads[t]) then 1 else 0) + (if Holds(th) then 1 else 0)
  {
    var a, b := Holders(threads), Holders(threads[t := th]);
    assert b == if Holds(th) then a + {t} else a - {t};
    assert t in a <==> Holds(threads[t]);
  }

  /** A step of thread `t` that changes what the thread is doing and the globals. */
  lemma {:induction false} StepKeeps(s: State, r: State, t: Tid, th: Thread, orig: map<int, Disposition>)
    requires Inv(s, orig) && t in s.threads && r.threads == s.threads[t := th] && Fits(th)
    requires r.initialized == s.initialized - (if Holds(s.threads[t]) then 1 else 0) + (if Holds(th) then 1 else 0)
    requires if Locks(th.place) then r.mutex == Some(t) && (s.mutex == None || s.mutex == Some(t))
             else r.mutex == if s.mutex == Some(t) then None else s.mutex
    requires Handlers(r, orig, AtMutex(r))
    ensures Inv(r, orig)
  {
    hide Handlers, Fits, Holders;
    HoldersSet(s.threads, t, th);
  }

  /** While any thread is between setup and cleanup, the count is positive. */
  lemma {:induction false} CountPositive(s: State, t: Tid, orig: map<int, Disposition>)
    requires Inv(s, orig) && t in s.threads && Holds(s.threads[t])
    ensures s.initialized > 0
  {
    hide Handlers, Fits, Locks;
    assert t in Holders(s.threads);
  }

  /** A thread between setup and cleanup that is not installing has the handlers in place. */
  lemma {:induction false} HandlersUp(s: State, t: Tid, orig: map<int, Disposition>)
    requires Inv(s, orig) && t in s.threads && Holds(s.threads[t]) && !s.threads[t].place.Installing?
    ensures s.initialized > 0 && s.sa_old.Some? && s.key && Same(s.sa_old.value, orig, 0, N()) && Taken(s.handlers, 0, N())
    ensures !AtMutex(s).Installing? && !AtMutex(s).Restoring?
  {
    hide Fits, Same, Taken;
    CountPositive(s, t, orig);
    if AtMutex(s).Installing? {
      var u := s.mutex.value;
      assert {t, u} <= Holders(s.threads);
      SubsetSize({t, u}, Holders(s.threads));
    }
  }

  lemma {:induction false} SubsetSize(a: set<Tid>, b: set<Tid>)
    requires a <= b
    ensures |a| <= |b|
  {
    assert b == a + (b - a);
  }

  // One more signal installed or restored

  lemma {:induction false} DistinctSignals()
    ensures forall i, j :: 0 <= i < j < N() ==> Caught()[i] != Caught()[j]
  {
  }

  lemma {:induction false} SameGrows(a: map<int, Disposition>, b: map<int, Disposition>, i: nat)
    requires i < N() && Same(a, b, 0, i) && Caught()[i] in b
    ensures Same(a[Caught()[i] := b[Caught()[i]]], b, 0, i + 1)
  {
    DistinctSignals();
    hide Caught;
  }

  lemma {:induction false} SameShrinks(a: map<int, Disposition>, b: map<int, Disposition>, i: nat, d: Disposition)
    requires i < N() && Same(a, b, i, N())
    ensures Caught()[i] in a && Caught()[i] in b && a[Caught()[i]] == b[Caught()[i]]
    ensures Same(a[Caught()[i] := d], b, i + 1, N())
  {
    DistinctSignals();
    hide Caught;
  }

  lemma {:induction false} SameHas(a: map<int, Disposition>, b: map<int, Disposition>, to: nat, i: nat)
    requires i < to <= N() && Same(a, b, 0, to)
    ensures Caught()[i] in a && Caught()[i] in b && a[Caught()[i]] == b[Caught()[i]]
  {
    hide Caught;
  }

  lemma {:induction false} TakenGrows(a: map<int, Disposition>, i: nat)
    requires i < N() && Taken(a, 0, i)
    ensures Taken(a[Caught()[i] := Ours(Caught()[i])], 0, i + 1)
  {
    DistinctSignals();
    hide Caught, Ours;
  }

  lemma {:induction false} TakenShrinks(a: map<int, Disposition>, i: nat, d: Disposition)
    requires i < N() && Taken(a, i, N())
    ensures Caught()[i] in a && Taken(a[Caught()[i] := d], i + 1, N())
  {
    DistinctSignals();
    hide Caught, Ours;
  }

  lemma {:induction false} TakenDefault(a: map<int, Disposition>, sig: int)
    requires Taken(a, 0, N())
    ensures Taken(a[sig := Default], 0, N())
  {
    hide Caught, Ours;
  }

  lemma {:induction false} NothingYet(a: map<int, Disposition>, b: map<int, Disposition>, i: nat)
    requires i <= N()
    ensures Same(a, b, i, i) && Taken(a, i, i)
  {
  }

  // Every step keeps the invariant

  lemma {:induction false} HandlersInstall(s: State, t: Tid, orig: map<int, Disposition>)
    requires Inv(s, orig) && Enabled(s, Install(t))
    ensures var r := Apply(s, Install(t)); Handlers(r, orig, AtMutex(r)) && Fits(r.threads[t])
  {
    hide Holders, Same, Taken, Ours, Caught, Holds;
    var i := s.threads[t].place.done;
    assert Fits(s.threads[t]) && s.mutex == Some(t);
    if i < N() {
      SameShrinks(s.handlers, orig, i, Ours(Caught()[i]));
      SameGrows(s.sa_old.value, orig, i);
      TakenGrows(s.handlers, i);
    }
  }

  lemma {:induction false} HandlersRestore(s: State, t: Tid, orig: map<int, Disposition>)
    requires Inv(s, orig) && Enabled(s, Restore(t))
    ensures var r := Apply(s, Restore(t)); Handlers(r, orig, AtMutex(r)) && Fits(r.threads[t])
  {
    hide Holders, Same, Taken, Ours, Caught, Holds;
    var i := s.threads[t].place.done;
    assert Fits(s.threads[t]) && s.mutex == Some(t);
    if i < N() {
      SameHas(s.sa_old.value, orig, N(), i);
      TakenShrinks(s.handlers, i, orig[Caught()[i]]);
      SameGrows(s.handlers, orig, i);
    }
  }

  lemma {:induction false} InstallKeeps(s: State, t: Tid, orig: map<int, Disposition>)
    requires Inv(s, orig) && Enabled(s, Install(t))
    ensures Inv(Apply(s, Install(t)), orig)
  {
    hide Handlers, Holders, Ours, Caught;
    var r := Apply(s, Install(t));
    assert Fits(s.threads[t]);
    HandlersInstall(s, t, orig);
    StepKeeps(s, r, t, r.threads[t], orig);
  }

  lemma {:induction false} RestoreKeeps(s: State, t: Tid, orig: map<int, Disposition>)
    requires Inv(s, orig) && Enabled(s, Restore(t))
    ensures Inv(Apply(s, Restore(t)), orig)
  {
    hide Handlers, Holders, Ours, Caught;
    var r := Apply(s, Restore(t));
    assert Fits(s.threads[t]);
    HandlersRestore(s, t, orig);
    StepKeeps(s, r, t, r.threads[t], orig);
  }

  lemma {:induction false} EnterKeeps(s: State, t: Tid, orig: map<int, Disposition>)
    requires Inv(s, orig) && Enabled(s, Enter(t))
    ensures Inv(Apply(s, Enter(t)), orig)
  {
    hide Holders, Same, Taken, Ours, Caught;
    var r := Apply(s, Enter(t));
    assert Fits(s.threads[t]);
    NothingYet(map[], orig, 0);
    NothingYet(s.handlers, orig, 0);
    StepKeeps(s, r, t, r.threads[t], orig);
  }

  lemma {:induction false} ReleaseKeeps(s: State, t: Tid, orig: map<int, Disposition>)
    requires Inv(s, orig) && Enabled(s, Release(t))
    ensures Inv(Apply(s, Release(t)), orig)
  {
    hide Holders, Same, Taken, Ours, Caught;
    var r := Apply(s, Release(t));
    assert Fits(s.threads[t]);
    HandlersUp(s, t, orig);
    NothingYet(s.handlers, orig, 0);
    StepKeeps(s, r, t, r.threads[t], orig);
  }

  lemma {:induction false} UnlockKeeps(s: State, t: Tid, orig: map<int, Disposition>)
    requires Inv(s, orig) && Enabled(s, Unlock(t))
    ensures Inv(Apply(s, Unlock(t)), orig)
  {
    hide Holders, Same, Taken, Ours, Caught;
    var r := Apply(s, Unlock(t));
    assert Fits(s.threads[t]);
    StepKeeps(s, r, t, r.threads[t], orig);
  }

  /** The steps that touch nothing but the thread's own structure. */
  predicate OwnStep(e: Event) { e.SetLocal? || e.Mark? || e.Reenter? || e.Leave? || e.FreeLocal? }

  lemma {:induction false} OwnStepShape(s: State, e: Event)
    requires Enabled(s, e) && OwnStep(e) && Fits(s.threads[e.t])
    ensures var r := Apply(s, e);
      && r.threads == s.threads[e.t := r.threads[e.t]] && Fits(r.threads[e.t])
      && r == s.(threads := r.threads)
    ensures Holds(s.threads[e.t]) && Holds(Apply(s, e).threads[e.t])
    ensures !Locks(s.threads[e.t].place) && !Locks(Apply(s, e).threads[e.t].place)
  {
    hide Ours, Caught;
  }

  lemma {:induction false} OwnStepKeeps(s: State, e: Event, orig: map<int, Disposition>)
    requires Inv(s, orig) && Enabled(s, e) && OwnStep(e)
    ensures Inv(Apply(s, e), orig)
  {
    assert Fits(s.threads[e.t]);
    hide Holders, Handlers, Enabled, Apply, Fits, Locks, Holds;
    var r := Apply(s, e);
    OwnStepShape(s, e);
    StepKeeps(s, r, e.t, r.threads[e.t], orig);
  }

  lemma {:induction false} CrashKeeps(s: State, t: Tid, sig: int, orig: map<int, Disposition>)
    requires Inv(s, orig) && Enabled(s, Crash(t, sig))
    ensures Inv(Apply(s, Crash(t, sig)), orig)
  {
    hide Holders, Same, Taken, Ours, Caught;
    var r := Apply(s, Crash(t, sig));
    assert Fits(s.threads[t]);
    if r.alive {
      HandlersUp(s, t, orig);
      TakenDefault(s.handlers, sig);
      StepKeeps(s, r, t, r.threads[t], orig);
    } else {
      assert Handlers(r, orig, AtMutex(r));
    }
  }

  lemma {:induction false} EventKeeps(s: State, e: Event, orig: map<int, Disposition>)
    requires Inv(s, orig) && Enabled(s, e)
    ensures Inv(Apply(s, e), orig)
  {
    hide Inv, Apply;
    match e
    case Enter(t) => EnterKeeps(s, t, orig);
    case Install(t) => InstallKeeps(s, t, orig);
    case Unlock(t) => UnlockKeeps(s, t, orig);
    case Release(t) => ReleaseKeeps(s, t, orig);
    case Restore(t) => RestoreKeeps(s, t, orig);
    case Crash(t, sig) => CrashKeeps(s, t, sig, orig);
    case _ => OwnStepKeeps(s, e, orig);
  }

  // Runs

  /** Every event can happen where it stands in the sequence. */
  predicate Possible(s: State, es: seq<Event>)
    decreases |es|
  {
    es == [] || (Enabled(s, es[0]) && Possible(Apply(s, es[0]), es[1..]))
  }

  function Run(s: State, es: seq<Event>): State
    requires Possible(s, es)
    decreases |es|
  {
    if es == [] then s else Run(Apply(s, es[0]), es[1..])
  }

  lemma {:induction false} RunKeeps(s: State, es: seq<Event>, orig: map<int, Disposition>)
    requires Inv(s, orig) && Possible(s, es)
    ensures Inv(Run(s, es), orig)
    decreases |es|
  {
    if es != [] {
      EventKeeps(s, es[0], orig);
      RunKeeps(Apply(s, es[0]), es[1..], orig);
    }
  }

  lemma {:induction false} Begins(start: State)
    requires Initial(start)
    ensures Inv(start, start.handlers)
    ensures forall i: nat :: Sharp(start, i)
    ensures forall t :: t in start.threads ==> Slack(start.threads[t]) == 0
  {
  }

  // What a crash in a nested section costs

  /** How far `reenter` has run ahead of the blocks the thread is in. */
  function Slack(th: Thread): int {
    if th.local.None? then 0
    else
      match th.place
      case Outside => th.local.value.reenter
      case Inside(depth) => th.local.value.reenter - depth
      case Recovered(depth) => th.local.value.reenter - depth
      case _ => 0
  }

  /** The sections that a recovered crash skips over on its way to the COFFEE_CATCH block. */
  function Skipped(s: State, e: Event): nat
    requires Enabled(s, e)
  {
    if e.Crash? && Apply(s, e).alive && s.threads[e.t].place.Inside? && s.threads[e.t].place.depth > 0
    then s.threads[e.t].place.depth - 1 else 0
  }

  function Lost(s: State, es: seq<Event>, t: Tid): nat
    requires Possible(s, es)
    decreases |es|
  {
    if es == [] then 0
    else (if es[0].t == t then Skipped(s, es[0]) else 0) + Lost(Apply(s, es[0]), es[1..], t)
  }

  lemma {:induction false} OthersStay(s: State, e: Event)
    requires Enabled(s, e)
    ensures Apply(s, e).threads == s.threads[e.t := Apply(s, e).threads[e.t]]
  {
    hide Ours, Caught, N, Deeper, Shallower;
  }

  lemma {:induction false} OwnSlack(s: State, e: Event)
    requires Enabled(s, e) && Fits(s.threads[e.t])
    ensures Slack(Apply(s, e).threads[e.t]) == Slack(s.threads[e.t]) + Skipped(s, e)
  {
    hide Ours, Caught, N;
  }

  lemma {:induction false} EventSlack(s: State, e: Event, t: Tid)
    requires Enabled(s, e) && Fits(s.threads[e.t]) && t in s.threads
    ensures t in Apply(s, e).threads
    ensures Slack(Apply(s, e).threads[t]) == Slack(s.threads[t]) + if e.t == t then Skipped(s, e) else 0
  {
    hide Enabled, Apply, Fits, Slack, Skipped;
    OthersStay(s, e);
    OwnSlack(s, e);
  }

  /** Over every interleaving, `reenter` runs ahead of a thread's sections by exactly the sections
      that its recovered crashes have skipped; nothing ever brings it back. */
  lemma {:induction false} RunSlack(s: State, es: seq<Event>, t: Tid, orig: map<int, Disposition>)
    requires Inv(s, orig) && Possible(s, es) && t in s.threads
    ensures t in Run(s, es).threads && Slack(Run(s, es).threads[t]) == Slack(s.threads[t]) + Lost(s, es, t)
    decreases |es|
  {
    if es != [] {
      assert Fits(s.threads[es[0].t]);
      hide Inv, Apply, Enabled, Slack, Skipped, Fits;
      EventSlack(s, es[0], t);
      EventKeeps(s, es[0], orig);
      RunSlack(Apply(s, es[0]), es[1..], t, orig);
    }
  }

  /** Over every interleaving the counter is the number of threads that have a share of it.  Whenever
      it is 0 and nobody is inside the mutex, every signal has the disposition that it had at the
      start, the saved ones are freed and the thread key is deleted; and a signal that is not caught
      never changes. */
  lemma {:induction false} Balanced(start: State, es: seq<Event>)
    requires Initial(start) && Possible(start, es)
    ensures var s := Run(start, es);
      && s.initialized == |Holders(s.threads)|
      && (s.initialized == 0 && s.mutex == None ==>
            s.sa_old == None && !s.key && forall sig :: sig in Caught() ==> sig in s.handlers && s.handlers[sig] == start.handlers[sig])
      && (forall sig :: sig in start.handlers && sig !in Caught() ==> sig in s.handlers && s.handlers[sig] == start.handlers[sig])
  {
    Begins(start);
    RunKeeps(start, es, start.handlers);
    var s := Run(start, es);
    assert Handlers(s, start.handlers, AtMutex(s));
    hide Run, Possible, Holders;
    forall sig | sig in Caught() ensures exists i :: 0 <= i < N() && Caught()[i] == sig {
    }
  }

  /** Who has a share: the threads between their global setup and their global cleanup, and the
      threads outside of every section that a crash in a nested one has ever made skip a section. */
  lemma {:induction false} ShareMeans(start: State, es: seq<Event>, t: Tid)
    requires Initial(start) && Possible(start, es) && t in start.threads
    ensures t in Run(start, es).threads
    ensures t in Holders(Run(start, es).threads) <==> Busy(Run(start, es).threads[t].place) || Lost(start, es, t) > 0
  {
    hide Possible, Run, Lost;
    Begins(start);
    RunKeeps(start, es, start.handlers);
    RunSlack(start, es, t, start.handlers);
    var s := Run(start, es);
    assert Fits(s.threads[t]);
  }

  /** Once a thread has skipped a section its share is never given back: from then on the handlers
      stay, whatever all the threads do. */
  lemma {:induction false} NeverReleased(start: State, es: seq<Event>, t: Tid)
    requires Initial(start) && Possible(start, es) && t in start.threads && Lost(start, es, t) > 0
    ensures var s := Run(start, es); s.initialized > 0 && s.sa_old.Some? && s.key && Taken(s.handlers, 0, N())
  {
    hide Possible, Run, Lost, Taken;
    Begins(start);
    RunKeeps(start, es, start.handlers);
    ShareMeans(start, es, t);
    RunSlack(start, es, t, start.handlers);
    var s := Run(start, es);
    assert Fits(s.threads[t]);
    HandlersUp(s, t, start.handlers);
  }

  /** The assertions in the source hold in every reachable state: the structure is there with
      `reenter` 0 when a section is marked and with `reenter` above 0 when one is left, and the
      counter is not 0 when a thread gives its share back. */
  lemma {:induction false} AssertionsHold(s: State, e: Event, orig: map<int, Disposition>)
    requires Inv(s, orig) && Enabled(s, e)
    ensures e.Mark? ==> s.threads[e.t].local.Some? && s.threads[e.t].local.value.reenter == 0
    ensures e.Reenter? || e.Leave? ==> s.threads[e.t].local.Some? && s.threads[e.t].local.value.reenter > 0
    ensures e.Release? ==> s.initialized != 0 && s.sa_old.Some? && s.key
  {
    hide Same, Taken, Handlers, Apply;
    assert Fits(s.threads[e.t]);
    if e.Release? {
      HandlersUp(s, e.t, orig);
    }
  }

  /** One of the two handlers only ever runs while the dispositions saved at setup are allocated,
      and what it finds there for its signal is the original one. */
  lemma {:induction false} HandlerFindsOld(s: State, i: nat, orig: map<int, Disposition>)
    requires Inv(s, orig) && i < N() && Caught()[i] in orig && orig[Caught()[i]] != Ours(Caught()[i])
    requires Caught()[i] in s.handlers && s.handlers[Caught()[i]] == Ours(Caught()[i])
    ensures s.sa_old.Some? && Caught()[i] in s.sa_old.value && s.sa_old.value[Caught()[i]] == orig[Caught()[i]]
  {
    hide Caught, Ours, Taken, Holders, Fits, Locks;
    assert Handlers(s, orig, AtMutex(s));
  }

  /** A thread that has left the COFFEE_CATCH block after a crash in a section nested `depth` deep. */
  function AfterCrash(depth: nat): Thread
    requires depth > 0
  {
    Thread(if depth == 1 then Leaving else Outside, Some(Local(depth - 1, false)))
  }

  /** Leaving after a recovered crash starts the global cleanup exactly when the section was not
      nested.  Otherwise the thread walks out of its outermost section with `reenter` still positive:
      it is in no section, and keeps its share. */
  lemma {:induction false} CrashReleases(s: State, t: Tid, sig: int)
    requires Enabled(s, Crash(t, sig)) && Fits(s.threads[t])
    requires Apply(s, Crash(t, sig)).alive
    ensures s.threads[t].place.Inside? && s.threads[t].place.depth > 0
    ensures var r := Apply(s, Crash(t, sig)); Enabled(r, Leave(t))
    ensures var q := Apply(Apply(s, Crash(t, sig)), Leave(t));
      q.initialized == s.initialized && q.threads == s.threads[t := AfterCrash(s.threads[t].place.depth)]
  {
    hide Ours, Caught;
    var r := Apply(s, Crash(t, sig));
    var q := Apply(r, Leave(t));
    assert q.threads == s.threads[t := q.threads[t]];
  }

  // Which crashes are recovered

  /** No handler of signal number `i` has been used up since it was installed. */
  predicate Sharp(s: State, i: nat) {
    match AtMutex(s)
    case Installing(done) => i < N() && i < done ==> Caught()[i] in s.handlers && s.handlers[Caught()[i]] == Ours(Caught()[i])
    case Restoring(_) => true
    case _ => i < N() && s.initialized > 0 ==> Caught()[i] in s.handlers && s.handlers[Caught()[i]] == Ours(Caught()[i])
  }

  predicate CrashFree(es: seq<Event>, sig: int) {
    forall k :: 0 <= k < |es| && es[k].Crash? ==> es[k].sig != sig
  }

  lemma {:induction false} SharpStays(s: State, e: Event, i: nat, orig: map<int, Disposition>)
    requires Inv(s, orig) && Enabled(s, e)
    requires i < N() && Sharp(s, i) && CrashFree([e], Caught()[i])
    ensures Sharp(Apply(s, e), i)
  {
    hide Same, Taken, Holders, Ours, Caught;
    DistinctSignals();
    var r := Apply(s, e);
    assert Fits(s.threads[e.t]);
    assert [e][0] == e;
    if e.Install? || e.Restore? || e.Enter? || e.Release? {
      assert e.Install? || e.Restore? ==> s.mutex == Some(e.t);
      if e.Install? && s.threads[e.t].place.done < N() {
        SameShrinks(s.handlers, orig, s.threads[e.t].place.done, Default);
      }
    } else if e.Unlock? {
      assert s.mutex == Some(e.t);
    } else {
      assert e.Crash? ==> e.sig != Caught()[i];
      assert AtMutex(r) == AtMutex(s);
    }
  }

  /** The first crash with a given signal: the signal has not been raised since the start, so the
      handler is in place.  It jumps to the outermost COFFEE_CATCH block exactly when the thread is in
      a section that it has not entered from such a block, and has never skipped a section before. */
  lemma {:induction false} FirstCrashRecovers(start: State, es: seq<Event>, t: Tid, i: nat)
    requires Initial(start) && Possible(start, es) && i < N() && CrashFree(es, Caught()[i]) && t in start.threads
    requires Enabled(Run(start, es), Crash(t, Caught()[i]))
    ensures var s := Run(start, es);
      var r := Apply(s, Crash(t, Caught()[i]));
      && (r.alive <==> s.threads[t].place.Inside? && Lost(start, es, t) == 0)
      && (r.alive ==> r.threads[t].place == Recovered(1))
  {
    hide Possible, Run, Lost, Initial, Taken, Same, Handlers, Caught, Ours;
    Begins(start);
    SharpRun(start, es, i, start.handlers);
    RunSlack(start, es, t, start.handlers);
    var s := Run(start, es);
    assert Fits(s.threads[t]);
    if Holds(s.threads[t]) {
      HandlersUp(s, t, start.handlers);
    }
  }

  lemma {:induction false} SharpRun(s: State, es: seq<Event>, i: nat, orig: map<int, Disposition>)
    requires Inv(s, orig) && Possible(s, es) && i < N() && Sharp(s, i) && CrashFree(es, Caught()[i])
    ensures Inv(Run(s, es), orig) && Sharp(Run(s, es), i)
    decreases |es|
  {
    hide Inv, Sharp, Caught, Apply, Enabled;
    if es != [] {
      assert CrashFree([es[0]], Caught()[i]) by { assert [es[0]][0] == es[0]; }
      assert CrashFree(es[1..], Caught()[i]);
      EventKeeps(s, es[0], orig);
      SharpStays(s, es[0], i, orig);
      SharpRun(Apply(s, es[0]), es[1..], i, orig);
    }
  }

  // The run that leaks

  lemma {:induction false} Extend(start: State, es: seq<Event>, e: Event, t: Tid)
    requires Possible(start, es) && Enabled(Run(start, es), e)
    ensures Possible(start, es + [e]) && Run(start, es + [e]) == Apply(Run(start, es), e)
    ensures Lost(start, es + [e], t) == Lost(start, es, t) + if e.t == t then Skipped(Run(start, es), e) else 0
    decreases |es|
  {
    hide Enabled, Apply, Skipped;
    if es == [] {
      assert es + [e] == [e] && [e][1..] == [];
    } else {
      Extend(Apply(start, es[0]), es[1..], e, t);
      assert (es + [e])[0] == es[0] && (es + [e])[1..] == es[1..] + [e];
    }
  }

  /** After the events, thread `t` is where `th` says, nobody else has moved, and nothing has crashed. */
  ghost predicate Alone(start: State, es: seq<Event>, t: Tid, th: Thread, mutex: Option<Tid>) {
    && Initial(start) && t in start.threads && Possible(start, es)
    && Run(start, es).alive && Run(start, es).mutex == mutex && Run(start, es).initialized == 1
    && Run(start, es).threads == start.threads[t := th]
    && Lost(start, es, t) == 0
    && forall k :: 0 <= k < |es| ==> !es[k].Crash?
  }

  lemma {:induction false} AloneStep(start: State, es: seq<Event>, t: Tid, th: Thread, mutex: Option<Tid>, e: Event, th': Thread, mutex': Option<Tid>)
    requires Alone(start, es, t, th, mutex) && e.t == t && !e.Crash? && Enabled(Run(start, es), e)
    requires var r := Apply(Run(start, es), e);
      r.alive && r.mutex == mutex' && r.initialized == 1 && r.threads == Run(start, es).threads[t := th']
    ensures Alone(start, es + [e], t, th', mutex')
  {
    hide Initial, Possible, Run, Apply, Enabled, Lost;
    Extend(start, es, e, t);
    assert start.threads[t := th][t := th'] == start.threads[t := th'];
  }

  /** The first thread installs the remaining handlers. */
  lemma {:induction false} InstallRest(start: State, es: seq<Event>, t: Tid, i: nat) returns (es': seq<Event>)
    requires i <= N() && Alone(start, es, t, Thread(Installing(i), None), Some(t))
    ensures Alone(start, es', t, Thread(SetupDone, None), Some(t))
    decreases N() - i
  {
    hide Initial, Possible, Run, Caught, Ours, Same, Taken, Lost, Holders;
    Begins(start);
    RunKeeps(start, es, start.handlers);
    var s := Run(start, es);
    assert s.threads[t] == Thread(Installing(i), None) && AtMutex(s) == Installing(i);
    var next := if i < N() then Thread(Installing(i + 1), None) else Thread(SetupDone, None);
    if i < N() {
      SameShrinks(s.handlers, start.handlers, i, Default);
    }
    AloneStep(start, es, t, Thread(Installing(i), None), Some(t), Install(t), next, Some(t));
    es' := es + [Install(t)];
    if i < N() {
      es' := InstallRest(start, es', t, i + 1);
    }
  }

  lemma {:induction false} SetsUp(start: State, t: Tid) returns (es: seq<Event>)
    requires Initial(start) && t in start.threads
    ensures Alone(start, es, t, Thread(LocalReady, Some(Local(0, false))), None)
  {
    hide Initial, Caught, Ours, Lost, Possible, Run;
    es := First(start, t);
    es := InstallRest(start, es, t, 0);
    AloneStep(start, es, t, Thread(SetupDone, None), Some(t), Unlock(t), Thread(GlobalReady, None), None);
    es := es + [Unlock(t)];
    AloneStep(start, es, t, Thread(GlobalReady, None), None, SetLocal(t), Thread(LocalReady, Some(Local(0, false))), None);
    es := es + [SetLocal(t)];
  }

  /** A thread on its own gets into a section nested two deep. */
  lemma {:induction false} NestsTwice(start: State, t: Tid) returns (es: seq<Event>)
    requires Initial(start) && t in start.threads
    ensures Alone(start, es, t, Thread(Inside(2), Some(Local(2, true))), None)
  {
    hide Initial, Caught, Ours, Lost, Possible, Run;
    es := SetsUp(start, t);
    AloneStep(start, es, t, Thread(LocalReady, Some(Local(0, false))), None, Mark(t), Thread(Inside(1), Some(Local(1, true))), None);
    es := es + [Mark(t)];
    AloneStep(start, es, t, Thread(Inside(1), Some(Local(1, true))), None, Reenter(t), Thread(Inside(2), Some(Local(2, true))), None);
    es := es + [Reenter(t)];
  }

  lemma {:induction false} First(start: State, t: Tid) returns (es: seq<Event>)
    requires Initial(start) && t in start.threads
    ensures Alone(start, es, t, Thread(Installing(0), None), Some(t))
  {
    hide Caught, Ours;
    Extend(start, [], Enter(t), t);
    es := [] + [Enter(t)];
    assert es == [Enter(t)];
  }

  /** From every initial state, any thread can get rid of every section and yet leave the handlers
      installed for good: it enters a section, enters another one inside, crashes, and leaves. */
  lemma {:induction false} NestedCrashLeaks(start: State, t: Tid, i: nat) returns (es: seq<Event>)
    requires Initial(start) && t in start.threads && i < N()
    ensures Possible(start, es) && Lost(start, es, t) == 1
    ensures var s := Run(start, es);
      && s.alive && s.mutex == None && s.initialized == 1
      && s.threads == start.threads[t := Thread(Outside, Some(Local(1, false)))]
  {
    hide Initial, Caught, Ours, Lost, Possible, Run;
    es := NestsTwice(start, t);
    Begins(start);
    SharpRun(start, es, i, start.handlers);
    var s := Run(start, es);
    Extend(start, es, Crash(t, Caught()[i]), t);
    es := es + [Crash(t, Caught()[i])];
    Extend(start, es, Leave(t), t);
    es := es + [Leave(t)];
    assert Run(start, es).threads == start.threads[t := Thread(Outside, Some(Local(1, false)))];
  }

  /** A handler works once: after a recovered crash the same signal, in any thread, ends the process. */
  lemma {:induction false} SecondCrashEnds(s: State, t: Tid, u: Tid, sig: int)
    requires Enabled(s, Crash(t, sig)) && Apply(s, Crash(t, sig)).alive && Enabled(Apply(s, Crash(t, sig)), Crash(u, sig))
    ensures !Apply(Apply(s, Crash(t, sig)), Crash(u, sig)).alive
  {
    hide Caught;
  }
}
