/** The wakeup protocol of an AioContext (async.c, aio-posix.c) as a state machine:
    any number of threads schedule, cancel and delete bottom halves while one
    thread polls. Each step is one shared-memory access, in sequential order. */
module AioWakeup {
  import opened Basics
  import opened Runs

  /** `byIdle` is history: `scheduled` was raised by `qemu_bh_schedule_idle`, or that
      function marked the bottom half idle since it was raised; `ran` counts the runs
      of the callback. */
  datatype Bh = Bh(scheduled: bool, idle: bool, deleted: bool, byIdle: bool, ran: nat)

  /** Where a thread stands inside a call on bottom half `b`. */
  datatype Pc =
    | Outside
    | ToXchg(b: nat)         // qemu_bh_schedule: idle is cleared
    | ToReadNotifyMe(b: nat) // aio_notify: the exchange on scheduled returned 0
    | ToSetEvent(b: nat)     // aio_notify: notify_me was nonzero
    | ToSetNotified          // aio_notify: the event notifier is set
    | ToIdleStore(b: nat)    // qemu_bh_schedule_idle: idle is set
    | ToSetDeleted(b: nat)   // qemu_bh_delete: scheduled is cleared

  /** Where the poller stands inside `aio_poll`. The list is walked from the
      newest bottom half to the oldest; those below `todo` are yet to be visited. */
  datatype PollPc =
    | NotPolling
    | Announced                // notify_me is incremented
    | Computing(todo: nat)     // aio_compute_timeout: deleted is read next
    | SawLive(todo: nat)       // aio_compute_timeout: scheduled is read next
    | SawScheduled(todo: nat)  // aio_compute_timeout: idle is read next
    | Blocked                  // in poll() with a nonzero timeout
    | Polled(announced: bool)  // poll() has returned
    | Accepting                // aio_notify_accept
    | Clearing                 // notified was true
    | Dispatching(todo: nat)   // aio_bh_poll: deleted is read next
    | Exchanging(todo: nat)    // aio_bh_poll: scheduled is exchanged next
    | Resetting(todo: nat)     // aio_bh_poll: it was set, idle is cleared next

  /** `bhs[b]` is bottom half `b`, the newest last. */
  datatype State = State(bhs: seq<Bh>, notifyMe: nat, event: bool, notified: bool,
                         threads: seq<Pc>, poll: PollPc)

  datatype Action =
    | BhNew
    | Schedule(t: nat, b: nat)
    | Xchg(t: nat)
    | ReadNotifyMe(t: nat)
    | SetEvent(t: nat)
    | SetNotified(t: nat)
    | ScheduleIdle(t: nat, b: nat)
    | IdleStore(t: nat)
    | Cancel(b: nat)
    | Delete(t: nat, b: nat)
    | SetDeleted(t: nat)
    | PollStart(blocking: bool)
    | ComputeStart
    | ComputeDeleted
    | ComputeScheduled
    | ComputeIdle
    | ComputeEnd(deadlineZero: bool)
    | PollReturns
    | Unannounce
    | Accept
    | Clear
    | BhDeleted
    | BhXchg
    | BhReset

  /** Thread `t` and bottom half `b` exist. */
  predicate Exist(s: State, t: nat, b: nat) {
    t < |s.threads| && b < |s.bhs|
  }

  predicate Enabled(s: State, a: Action) {
    match a
    case BhNew => true
    case Schedule(t, b) => Exist(s, t, b) && s.threads[t].Outside?
    case Xchg(t) => t < |s.threads| && s.threads[t].ToXchg? && s.threads[t].b < |s.bhs|
    case ReadNotifyMe(t) => t < |s.threads| && s.threads[t].ToReadNotifyMe?
    case SetEvent(t) => t < |s.threads| && s.threads[t].ToSetEvent?
    case SetNotified(t) => t < |s.threads| && s.threads[t].ToSetNotified?
    case ScheduleIdle(t, b) => Exist(s, t, b) && s.threads[t].Outside?
    case IdleStore(t) => t < |s.threads| && s.threads[t].ToIdleStore? && s.threads[t].b < |s.bhs|
    case Cancel(b) => b < |s.bhs|
    case Delete(t, b) => Exist(s, t, b) && s.threads[t].Outside?
    case SetDeleted(t) => t < |s.threads| && s.threads[t].ToSetDeleted? && s.threads[t].b < |s.bhs|
    case PollStart(_) => s.poll.NotPolling?
    case ComputeStart => s.poll.Announced?
    case ComputeDeleted => s.poll.Computing? && 0 < s.poll.todo <= |s.bhs|
    case ComputeScheduled => s.poll.SawLive? && 0 < s.poll.todo <= |s.bhs|
    case ComputeIdle => s.poll.SawScheduled? && 0 < s.poll.todo <= |s.bhs|
    case ComputeEnd(_) => s.poll.Computing? && s.poll.todo == 0
    case PollReturns => s.poll.Blocked?
    case Unannounce => s.poll.Polled? && (s.poll.announced ==> s.notifyMe >= 2)
    case Accept => s.poll.Accepting?
    case Clear => s.poll.Clearing?
    case BhDeleted => s.poll.Dispatching? && s.poll.todo <= |s.bhs|
    case BhXchg => s.poll.Exchanging? && 0 < s.poll.todo <= |s.bhs|
    case BhReset => s.poll.Resetting? && 0 < s.poll.todo <= |s.bhs|
  }

  function WithThread(s: State, t: nat, pc: Pc): (r: State)
    requires t < |s.threads|
  {
    s.(threads := s.threads[t := pc])
  }

  function WithBh(s: State, b: nat, bh: Bh): (r: State)
    requires b < |s.bhs|
  {
    s.(bhs := s.bhs[b := bh])
  }

  /** The store or exchange that raises `scheduled`. */
  function Raised(bh: Bh, byIdle: bool): (r: Bh) {
    if bh.scheduled then bh else bh.(scheduled := true, byIdle := byIdle)
  }

  function Apply(s: State, a: Action): (r: State)
    requires Enabled(s, a)
  {
    match a
    case BhNew => s.(bhs := s.bhs + [Bh(false, false, false, false, 0)])
    case Schedule(t, b) => WithThread(WithBh(s, b, s.bhs[b].(idle := false)), t, ToXchg(b))
    case Xchg(t) =>
      var b := s.threads[t].b;
      WithThread(WithBh(s, b, Raised(s.bhs[b], s.bhs[b].idle)), t,
                 if s.bhs[b].scheduled then Outside else ToReadNotifyMe(b))
    case ReadNotifyMe(t) =>
      WithThread(s, t, if s.notifyMe != 0 then ToSetEvent(s.threads[t].b) else Outside)
    case SetEvent(t) => WithThread(s, t, ToSetNotified).(event := true)
    case SetNotified(t) => WithThread(s, t, Outside).(notified := true)
    case ScheduleIdle(t, b) =>
      WithThread(WithBh(s, b, s.bhs[b].(idle := true, byIdle := true)), t, ToIdleStore(b))
    case IdleStore(t) =>
      var b := s.threads[t].b;
      WithThread(WithBh(s, b, Raised(s.bhs[b], true)), t, Outside)
    case Cancel(b) => WithBh(s, b, s.bhs[b].(scheduled := false))
    case Delete(t, b) => WithThread(WithBh(s, b, s.bhs[b].(scheduled := false)), t, ToSetDeleted(b))
    case SetDeleted(t) =>
      var b := s.threads[t].b;
      WithThread(WithBh(s, b, s.bhs[b].(deleted := true)), t, Outside)
    case PollStart(blocking) =>
      if blocking then s.(notifyMe := s.notifyMe + 2, poll := Announced)
      else s.(poll := Polled(false))
    case ComputeStart => s.(poll := Computing(|s.bhs|))
    case ComputeDeleted =>
      var k := s.poll.todo;
      s.(poll := if s.bhs[k - 1].deleted then Computing(k - 1) else SawLive(k))
    case ComputeScheduled =>
      var k := s.poll.todo;
      s.(poll := if s.bhs[k - 1].scheduled then SawScheduled(k) else Computing(k - 1))
    case ComputeIdle =>
      var k := s.poll.todo;
      s.(poll := if s.bhs[k - 1].idle then Computing(k - 1) else Polled(true))
    case ComputeEnd(deadlineZero) => s.(poll := if deadlineZero then Polled(true) else Blocked)
    case PollReturns => s.(poll := Polled(true))
    case Unannounce =>
      s.(notifyMe := if s.poll.announced then s.notifyMe - 2 else s.notifyMe, poll := Accepting)
    case Accept => s.(notified := false, poll := if s.notified then Clearing else Dispatching(|s.bhs|))
    case Clear => s.(event := false, poll := Dispatching(|s.bhs|))
    case BhDeleted =>
      var k := s.poll.todo;
      s.(poll := if k == 0 then NotPolling
                 else if s.bhs[k - 1].deleted then Dispatching(k - 1) else Exchanging(k))
    case BhXchg =>
      var k := s.poll.todo;
      var bh := s.bhs[k - 1];
      WithBh(s, k - 1, bh.(scheduled := false, ran := if bh.scheduled then bh.ran + 1 else bh.ran))
        .(poll := if bh.scheduled then Resetting(k) else Dispatching(k - 1))
    case BhReset =>
      var k := s.poll.todo;
      WithBh(s, k - 1, s.bhs[k - 1].(idle := false)).(poll := Dispatching(k - 1))
  }

  function Next(s: State, a: Action): (r: Option<State>) {
    if Enabled(s, a) then Some(Apply(s, a)) else None
  }

  predicate Init(s: State) {
    && s.bhs == [] && s.notifyMe == 0 && !s.event && !s.notified && s.poll.NotPolling?
    && forall t | 0 <= t < |s.threads| :: s.threads[t].Outside?
  }

  /** A bottom half that `aio_bh_poll` would run, its flag raised the notifying way. */
  predicate Pending(bh: Bh) {
    bh.scheduled && !bh.deleted && !bh.byIdle
  }

  /** Some thread is between its exchange on `b`'s flag and setting the notifier. */
  ghost predicate Notifying(s: State, b: nat) {
    exists t :: 0 <= t < |s.threads| && (s.threads[t] == ToReadNotifyMe(b) || s.threads[t] == ToSetEvent(b))
  }

  predicate Scanning(pc: PollPc) {
    pc.Computing? || pc.SawLive? || pc.SawScheduled?
  }

  /** The poller is in, or on its way into, a blocking poll that will not look at
      bottom half `b` again. */
  predicate Committed(s: State, b: nat) {
    s.poll.Blocked? || (Scanning(s.poll) && b >= s.poll.todo)
  }

  predicate IsAnnounced(pc: PollPc) {
    pc.Announced? || Scanning(pc) || pc.Blocked? || pc == Polled(true)
  }

  ghost predicate Covered(s: State, b: nat)
    requires b < |s.bhs|
  {
    Pending(s.bhs[b]) && Committed(s, b) ==> s.event || Notifying(s, b)
  }

  /** A set event notifier will be cleared: its setter has raised `notified`, or is
      about to, or the poller is about to clear it. */
  ghost predicate EventAccounted(s: State) {
    s.event ==> s.notified || s.poll.Clearing? || (exists t :: 0 <= t < |s.threads| && s.threads[t].ToSetNotified?)
  }

  ghost predicate IdleTracked(s: State) {
    forall b | 0 <= b < |s.bhs| :: s.bhs[b].idle ==> s.bhs[b].byIdle
  }

  ghost predicate Inv(s: State) {
    && s.notifyMe == (if IsAnnounced(s.poll) then 2 else 0)
    && IdleTracked(s)
    && (forall b | 0 <= b < |s.bhs| :: Covered(s, b))
    && EventAccounted(s)
  }

  lemma InitInv(s: State)
    requires Init(s)
    ensures Inv(s)
  {
  }

  /** A thread's step that leaves bottom half `b` and the notifier as they were
      keeps `b` covered, unless it is the step that `b` waits for. */
  lemma StillNotifying(s: State, s': State, t: nat, b: nat)
    requires Notifying(s, b) && t < |s.threads| == |s'.threads|
    requires forall u | 0 <= u < |s.threads| && u != t :: s'.threads[u] == s.threads[u]
    requires s.threads[t] == ToReadNotifyMe(b) || s.threads[t] == ToSetEvent(b) ==>
               s'.threads[t] == ToSetEvent(b) || s'.event
    ensures s'.event || Notifying(s', b)
  {
    var u :| 0 <= u < |s.threads| && (s.threads[u] == ToReadNotifyMe(b) || s.threads[u] == ToSetEvent(b));
    if u != t {
      assert s'.threads[u] == s.threads[u];
    }
  }

  /** Steps of a scheduling thread. */
  predicate ByThread(a: Action) {
    a.Schedule? || a.Xchg? || a.ReadNotifyMe? || a.SetEvent? || a.SetNotified? || a.ScheduleIdle?
    || a.IdleStore? || a.Delete? || a.SetDeleted?
  }

  lemma CoveredByThread(s: State, a: Action, b: nat)
    requires Inv(s) && Enabled(s, a) && ByThread(a) && b < |s.bhs|
    ensures Covered(Apply(s, a), b)
  {
    var s' := Apply(s, a);
    assert Covered(s, b);
    if Pending(s'.bhs[b]) && Committed(s, b) {
      if !Pending(s.bhs[b]) {
        assert a.Xchg? && s'.threads[a.t] == ToReadNotifyMe(b);
      } else if Notifying(s, b) {
        StillNotifying(s, s', a.t, b);
      }
    }
  }

  lemma CoveredByPoller(s: State, a: Action, b: nat)
    requires Inv(s) && Enabled(s, a) && !ByThread(a) && b < |Apply(s, a).bhs|
    ensures Covered(Apply(s, a), b)
  {
    var s' := Apply(s, a);
    assert s'.threads == s.threads;
    if b < |s.bhs| {
      assert Covered(s, b);
      assert Notifying(s, b) ==> Notifying(s', b);
    }
  }

  lemma CoveredStep(s: State, a: Action, b: nat)
    requires Inv(s) && Enabled(s, a) && b < |Apply(s, a).bhs|
    ensures Covered(Apply(s, a), b)
  {
    if ByThread(a) {
      CoveredByThread(s, a, b);
    } else {
      CoveredByPoller(s, a, b);
    }
  }

  lemma EventStep(s: State, a: Action)
    requires Inv(s) && Enabled(s, a)
    ensures EventAccounted(Apply(s, a))
  {
    var s' := Apply(s, a);
    if s'.event && !s'.notified && !s'.poll.Clearing? {
      if a.SetEvent? {
        assert s'.threads[a.t].ToSetNotified?;
      } else {
        var t :| 0 <= t < |s.threads| && s.threads[t].ToSetNotified?;
        assert s'.threads[t] == s.threads[t];
      }
    }
  }

  lemma CountersStep(s: State, a: Action)
    requires Inv(s) && Enabled(s, a)
    ensures Apply(s, a).notifyMe == (if IsAnnounced(Apply(s, a).poll) then 2 else 0)
    ensures IdleTracked(Apply(s, a))
  {
    hide Covered, EventAccounted, IdleTracked;
    if ByThread(a) {
      IdleByThread(s, a);
    } else {
      IdleByPoller(s, a);
    }
  }

  lemma IdleByThread(s: State, a: Action)
    requires IdleTracked(s) && Enabled(s, a) && ByThread(a)
    ensures IdleTracked(Apply(s, a))
  {
  }

  lemma IdleByPoller(s: State, a: Action)
    requires IdleTracked(s) && Enabled(s, a) && !ByThread(a)
    ensures IdleTracked(Apply(s, a))
  {
  }

  lemma InvStep(s: State, a: Action)
    requires Inv(s) && Enabled(s, a)
    ensures Inv(Apply(s, a))
  {
    hide Covered, EventAccounted, Apply, IdleTracked;
    var s' := Apply(s, a);
    forall b | 0 <= b < |s'.bhs|
      ensures Covered(s', b)
    {
      CoveredStep(s, a, b);
    }
    EventStep(s, a);
    CountersStep(s, a);
  }

  lemma RunInv(s0: State, run: seq<Action>, s: State)
    requires Init(s0) && After(Next, s0, run) == Some(s)
    ensures Inv(s)
  {
    hide Inv, Enabled, Apply;
    InitInv(s0);
    forall t, a | Inv(t) && Next(t, a).Some?
      ensures Inv(Next(t, a).value)
    {
      InvStep(t, a);
    }
    InvariantHolds(Next, Inv, s0, run, s);
  }

  /** No lost wakeup, in every interleaving: while the poller is blocked, a pending
      bottom half has the notifier set or a thread on its way to set it, and that
      thread will not be turned back by `notify_me`. */
  lemma NoLostWakeup(s0: State, run: seq<Action>, s: State, b: nat)
    requires Init(s0) && After(Next, s0, run) == Some(s)
    requires s.poll.Blocked? && b < |s.bhs| && Pending(s.bhs[b])
    ensures s.event || Notifying(s, b)
    ensures s.notifyMe != 0
  {
    RunInv(s0, run, s);
    assert Covered(s, b);
  }

  /** No event is left over: with no thread inside a call and no poll under way, a
      set notifier implies `notified`, so the next accept clears it. */
  lemma NoStaleEvent(s0: State, run: seq<Action>, s: State)
    requires Init(s0) && After(Next, s0, run) == Some(s)
    requires s.poll.NotPolling?
    requires forall t | 0 <= t < |s.threads| :: s.threads[t].Outside?
    ensures s.event ==> s.notified
    ensures s.notifyMe == 0
  {
    RunInv(s0, run, s);
  }

  // ---- A woken poller runs the bottom half ----

  /** The poller is inside `aio_poll`, past any point where it could block, and its
      dispatch has yet to come to bottom half `b`. */
  predicate Ahead(pc: PollPc, b: nat) {
    match pc
    case Polled(_) => true
    case Accepting => true
    case Clearing => true
    case Dispatching(k) => b < k
    case Exchanging(k) => b < k
    case Resetting(k) => b + 1 < k
    case _ => false
  }

  /** Cancels or deletes bottom half `b`, or is a step of such a call. */
  predicate Withdraws(s: State, a: Action, b: nat) {
    || (a.Cancel? && a.b == b)
    || (a.Delete? && a.b == b)
    || (a.SetDeleted? && a.t < |s.threads| && s.threads[a.t] == ToSetDeleted(b))
  }

  /** Steps up to the end of the current poll that leave `b` scheduled. */
  function NextKeeping(b: nat): (r: (State, Action) -> Option<State>) {
    (s: State, a: Action) => if Withdraws(s, a, b) || a.PollStart? then None else Next(s, a)
  }

  /** `b` has run more than `n` times, or will before the poll ends. */
  predicate RunsSoon(s: State, b: nat, n: nat) {
    && b < |s.bhs| && s.bhs[b].ran >= n
    && (s.bhs[b].ran > n || (s.bhs[b].scheduled && !s.bhs[b].deleted && Ahead(s.poll, b)))
  }

  lemma RunsSoonStep(s: State, a: Action, b: nat, n: nat)
    requires RunsSoon(s, b, n) && Enabled(s, a) && !Withdraws(s, a, b) && !a.PollStart?
    ensures RunsSoon(Apply(s, a), b, n)
  {
  }

  /** In every interleaving, once the poller's poll() has returned, a bottom half that
      is scheduled and not deleted runs before the poll ends, unless a thread cancels
      or deletes it. */
  lemma WokenPollerRuns(s: State, run: seq<Action>, s': State, b: nat)
    requires s.poll.Polled? && b < |s.bhs| && s.bhs[b].scheduled && !s.bhs[b].deleted
    requires After(NextKeeping(b), s, run) == Some(s') && s'.poll.NotPolling?
    ensures b < |s'.bhs| && s'.bhs[b].ran > s.bhs[b].ran
  {
    hide Enabled, Apply;
    var n := s.bhs[b].ran;
    var inv := (t: State) => RunsSoon(t, b, n);
    forall t, a | inv(t) && NextKeeping(b)(t, a).Some?
      ensures inv(NextKeeping(b)(t, a).value)
    {
      RunsSoonStep(t, a, b, n);
    }
    InvariantHolds(NextKeeping(b), inv, s, run, s');
  }

  /** The poller's next step; which of the two ends a scan or a dispatch takes depends
      on what is left. */
  function PollerStep(pc: PollPc): (a: Action)
    requires !pc.NotPolling?
  {
    match pc
    case Announced => ComputeStart
    case Computing(k) => if k == 0 then ComputeEnd(false) else ComputeDeleted
    case SawLive(_) => ComputeScheduled
    case SawScheduled(_) => ComputeIdle
    case Blocked => PollReturns
    case Polled(_) => Unannounce
    case Accepting => Accept
    case Clearing => Clear
    case Dispatching(_) => BhDeleted
    case Exchanging(_) => BhXchg
    case Resetting(_) => BhReset
  }

  /** Positions of the poller in the list are within it. */
  predicate InList(s: State) {
    match s.poll
    case Computing(k) => k <= |s.bhs|
    case SawLive(k) => 0 < k <= |s.bhs|
    case SawScheduled(k) => 0 < k <= |s.bhs|
    case Dispatching(k) => k <= |s.bhs|
    case Exchanging(k) => 0 < k <= |s.bhs|
    case Resetting(k) => 0 < k <= |s.bhs|
    case _ => true
  }

  lemma InListStep(s: State, a: Action)
    requires InList(s) && Enabled(s, a)
    ensures InList(Apply(s, a))
  {
  }

  /** In every interleaving the poller's next step is possible and brings it closer to
      the end of the poll; with `ThreadsKeepLeft`, only new bottom halves put it off. */
  lemma PollerCanStep(s0: State, run: seq<Action>, s: State)
    requires Init(s0) && After(Next, s0, run) == Some(s) && !s.poll.NotPolling?
    ensures Enabled(s, PollerStep(s.poll))
    ensures Left(Apply(s, PollerStep(s.poll))) < Left(s)
  {
    hide Init, Enabled, Apply, Left, InList;
    RunInv(s0, run, s);
    RunInList(s0, run, s);
    StepPossible(s);
    StepCounts(s);
  }

  lemma RunInList(s0: State, run: seq<Action>, s: State)
    requires Init(s0) && After(Next, s0, run) == Some(s)
    ensures InList(s)
  {
    assert InList(s0);
    hide InList, Enabled, Apply;
    forall t, a | InList(t) && Next(t, a).Some?
      ensures InList(Next(t, a).value)
    {
      InListStep(t, a);
    }
    InvariantHolds(Next, InList, s0, run, s);
  }

  lemma StepPossible(s: State)
    requires InList(s) && !s.poll.NotPolling? && (s.poll == Polled(true) ==> s.notifyMe >= 2)
    ensures Enabled(s, PollerStep(s.poll))
  {
  }

  lemma StepCounts(s: State)
    requires InList(s) && !s.poll.NotPolling? && Enabled(s, PollerStep(s.poll))
    ensures Left(Apply(s, PollerStep(s.poll))) < Left(s)
  {
  }

  /** An upper bound on the poller's steps to the end of the poll. */
  function Left(s: State): (n: nat) {
    var all := 3 * |s.bhs|;
    match s.poll
    case NotPolling => 0
    case Announced => 2 * all + 10
    case Computing(k) => 3 * k + all + 8
    case SawLive(k) => 3 * k + all + 7
    case SawScheduled(k) => 3 * k + all + 6
    case Blocked => all + 7
    case Polled(_) => all + 5
    case Accepting => all + 4
    case Clearing => all + 3
    case Dispatching(k) => 3 * k + 2
    case Exchanging(k) => 3 * k + 1
    case Resetting(k) => 3 * k
  }

  lemma ThreadsKeepLeft(s: State, a: Action)
    requires Enabled(s, a) && (ByThread(a) || a.Cancel?)
    ensures Left(Apply(s, a)) == Left(s)
  {
  }

  // ---- Which calls wake the poller ----

  /** The steps of one uninterrupted `qemu_bh_schedule`. */
  function ScheduleCall(s: State, t: nat, b: nat): (r: seq<Action>)
    requires b < |s.bhs|
  {
    if s.bhs[b].scheduled then [Schedule(t, b), Xchg(t)]
    else if s.notifyMe == 0 then [Schedule(t, b), Xchg(t), ReadNotifyMe(t)]
    else [Schedule(t, b), Xchg(t), ReadNotifyMe(t), SetEvent(t), SetNotified(t)]
  }

  /** Exactly when scheduling wakes a blocked poller: if the flag was clear. If it
      was set, the notifier rests on whoever raised the flag. */
  lemma ScheduleWakesIff(s0: State, run: seq<Action>, s: State, t: nat, b: nat)
    requires Init(s0) && After(Next, s0, run) == Some(s)
    requires s.poll.Blocked? && !s.event && Exist(s, t, b) && s.threads[t].Outside?
    ensures var s' := After(Next, s, ScheduleCall(s, t, b));
            && s'.Some? && s'.value.threads == s.threads && s'.value.poll.Blocked? && b < |s'.value.bhs|
            && s'.value.bhs[b].scheduled
            && (s'.value.event <==> !s.bhs[b].scheduled)
  {
    hide Enabled, Apply, Next, After;
    assert s.notifyMe == 2 by { RunInv(s0, run, s); }
    if s.bhs[b].scheduled {
      var s1, s2 := QuietSteps(s, t, b);
      TwoSteps(s, Schedule(t, b), s1, Xchg(t), s2);
    } else {
      var s1, s2, s3, s4, s5 := NotifySteps(s, t, b);
      TwoSteps(s, Schedule(t, b), s1, Xchg(t), s2);
      var call := Extend(s, [Schedule(t, b), Xchg(t)], s2, ReadNotifyMe(t), s3);
      call := Extend(s, call, s3, SetEvent(t), s4);
      call := Extend(s, call, s4, SetNotified(t), s5);
      assert call == ScheduleCall(s, t, b);
    }
  }

  lemma QuietSteps(s: State, t: nat, b: nat) returns (s1: State, s2: State)
    requires Exist(s, t, b) && s.threads[t].Outside? && s.bhs[b].scheduled
    ensures Next(s, Schedule(t, b)) == Some(s1) && Next(s1, Xchg(t)) == Some(s2)
    ensures s2 == s.(bhs := s.bhs[b := s.bhs[b].(idle := false)])
  {
    s1 := Apply(s, Schedule(t, b));
    s2 := Apply(s1, Xchg(t));
    assert s2.threads == s.threads;
  }

  lemma NotifySteps(s: State, t: nat, b: nat) returns (s1: State, s2: State, s3: State, s4: State, s5: State)
    requires Exist(s, t, b) && s.threads[t].Outside? && !s.bhs[b].scheduled && s.notifyMe != 0
    ensures Next(s, Schedule(t, b)) == Some(s1) && Next(s1, Xchg(t)) == Some(s2)
    ensures Next(s2, ReadNotifyMe(t)) == Some(s3) && Next(s3, SetEvent(t)) == Some(s4)
    ensures Next(s4, SetNotified(t)) == Some(s5)
    ensures s5.threads == s.threads && s5.poll == s.poll && |s5.bhs| == |s.bhs|
    ensures s5.event && s5.bhs[b].scheduled
  {
    s1 := Apply(s, Schedule(t, b));
    s2 := Apply(s1, Xchg(t));
    s3 := Apply(s2, ReadNotifyMe(t));
    s4 := Apply(s3, SetEvent(t));
    s5 := Apply(s4, SetNotified(t));
    assert s5.threads == s.threads;
  }

  lemma TwoSteps(s: State, a1: Action, s1: State, a2: Action, s2: State)
    requires Next(s, a1) == Some(s1) && Next(s1, a2) == Some(s2)
    ensures After(Next, s, [a1, a2]) == Some(s2)
  {
    AfterOneMore(Next, s, [], s, a1);
    AfterOneMore(Next, s, [a1], s1, a2);
    assert [] + [a1] == [a1] && [a1] + [a2] == [a1, a2];
  }

  /** A bottom half that would run, with nobody to wake the blocked poller for it. */
  ghost predicate Lost(s: State, b: nat) {
    && s.poll.Blocked? && b < |s.bhs| && s.bhs[b].scheduled && !s.bhs[b].idle && !s.bhs[b].deleted
    && !s.event && !Notifying(s, b)
  }

  /** `qemu_bh_schedule_idle`, then `qemu_bh_schedule`. */
  function IdleThenSchedule(t: nat, b: nat): (r: seq<Action>) {
    [ScheduleIdle(t, b), IdleStore(t)] + [Schedule(t, b)] + [Xchg(t)]
  }

  /** Raising the flag by idle scheduling spoils the next normal scheduling,
      whenever the poller is blocked and nobody is about to wake it. */
  lemma IdleThenScheduleIsLost(s: State, t: nat, b: nat)
    requires s.poll.Blocked? && !s.event && Exist(s, t, b) && s.threads[t].Outside?
    requires !s.bhs[b].deleted && !Notifying(s, b)
    ensures After(Next, s, IdleThenSchedule(t, b)).Some?
    ensures Lost(After(Next, s, IdleThenSchedule(t, b)).value, b)
  {
    hide Enabled, Apply, Next, After;
    var s1, s2 := IdleSteps(s, t, b);
    var s3, s4 := QuietSteps(s2, t, b);
    TwoSteps(s, ScheduleIdle(t, b), s1, IdleStore(t), s2);
    var run := Extend(s, [ScheduleIdle(t, b), IdleStore(t)], s2, Schedule(t, b), s3);
    run := Extend(s, run, s3, Xchg(t), s4);
  }

  lemma IdleSteps(s: State, t: nat, b: nat) returns (s1: State, s2: State)
    requires Exist(s, t, b) && s.threads[t].Outside?
    ensures Next(s, ScheduleIdle(t, b)) == Some(s1) && Next(s1, IdleStore(t)) == Some(s2)
    ensures s2 == s.(bhs := s.bhs[b := s.bhs[b].(idle := true, byIdle := true, scheduled := true)])
  {
    s1 := Apply(s, ScheduleIdle(t, b));
    s2 := Apply(s1, IdleStore(t));
    assert s2.threads == s.threads;
  }

  /** Such a state is reached: one thread, one bottom half. */
  lemma LostIsReached() returns (s0: State, run: seq<Action>, s: State)
    ensures Init(s0) && After(Next, s0, run) == Some(s) && Lost(s, 0)
  {
    hide Next, After, Lost;
    var blocked;
    s0, run, blocked := BlockedIsReached();
    var more := IdleThenSchedule(0, 0);
    IdleThenScheduleIsLost(blocked, 0, 0);
    s := After(Next, blocked, more).value;
    AfterJoined(Next, s0, run, blocked, more);
    run := run + more;
  }

  lemma BlockedIsReached() returns (s0: State, run: seq<Action>, s: State)
    ensures Init(s0) && After(Next, s0, run) == Some(s)
    ensures s == State([Bh(false, false, false, false, 0)], 2, false, false, [Outside], Blocked)
  {
    hide After, Next;
    s0 := State([], 0, false, false, [Outside], NotPolling);
    s := State([Bh(false, false, false, false, 0)], 2, false, false, [Outside], Blocked);
    FirstSteps();
    ScanSteps();
    TwoSteps(s0, BhNew, s.(poll := NotPolling, notifyMe := 0), PollStart(true), s.(poll := Announced));
    run := Extend(s0, [BhNew, PollStart(true)], s.(poll := Announced), ComputeStart, s.(poll := Computing(1)));
    run := Extend(s0, run, s.(poll := Computing(1)), ComputeDeleted, s.(poll := SawLive(1)));
    run := Extend(s0, run, s.(poll := SawLive(1)), ComputeScheduled, s.(poll := Computing(0)));
    run := Extend(s0, run, s.(poll := Computing(0)), ComputeEnd(false), s);
  }

  lemma FirstSteps()
    ensures var s0 := State([], 0, false, false, [Outside], NotPolling);
            var s := State([Bh(false, false, false, false, 0)], 2, false, false, [Outside], Blocked);
            && Next(s0, BhNew) == Some(s.(poll := NotPolling, notifyMe := 0))
            && Next(s.(poll := NotPolling, notifyMe := 0), PollStart(true)) == Some(s.(poll := Announced))
            && Next(s.(poll := Announced), ComputeStart) == Some(s.(poll := Computing(1)))
  {
    assert [] + [Bh(false, false, false, false, 0)] == [Bh(false, false, false, false, 0)];
  }

  lemma ScanSteps()
    ensures var s := State([Bh(false, false, false, false, 0)], 2, false, false, [Outside], Blocked);
            && Next(s.(poll := Computing(1)), ComputeDeleted) == Some(s.(poll := SawLive(1)))
            && Next(s.(poll := SawLive(1)), ComputeScheduled) == Some(s.(poll := Computing(0)))
            && Next(s.(poll := Computing(0)), ComputeEnd(false)) == Some(s)
  {
  }

  lemma Extend(s0: State, run: seq<Action>, s: State, a: Action, s': State) returns (run': seq<Action>)
    requires After(Next, s0, run) == Some(s) && Next(s, a) == Some(s')
    ensures run' == run + [a] && After(Next, s0, run') == Some(s')
  {
    run' := run + [a];
    AfterOneMore(Next, s0, run, s, a);
  }
}
