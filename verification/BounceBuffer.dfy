/** The single bounce buffer of exec.c and the clients waiting for it, as a state
    machine over the atomic steps of any number of mapping, unmapping and
    registering threads. */
module BounceBuffer {
  import opened Basics
  import opened Runs

  datatype Pc =
    | Outside
    | Owner               // address_space_map took the buffer
    | ToNotify            // address_space_unmap cleared in_use, lock is next
    | ToRegister(bh: nat) // cpu_register_map_client waits for the lock
    | Inserted            // holds the lock; in_use is read next
    | Notifying           // holds the lock; wakes every client
    | Leaving             // holds the lock; unlock is next
    | ToUnregister(bh: nat)

  /** `registered`, `woken` and `withdrawn` are histories of clients. */
  datatype State = State(inUse: bool, clients: seq<nat>, threads: seq<Pc>,
                         registered: multiset<nat>, woken: multiset<nat>, withdrawn: multiset<nat>)

  datatype Action =
    | Map(t: nat)
    | Unmap(t: nat)
    | NotifyLock(t: nat)
    | NotifyOne(t: nat)
    | Register(t: nat, bh: nat)
    | Insert(t: nat)
    | ReadInUse(t: nat)
    | Unregister(t: nat, bh: nat)
    | Remove(t: nat)
    | Unlock(t: nat)

  predicate HoldsLock(pc: Pc) {
    pc.Inserted? || pc.Notifying? || pc.Leaving?
  }

  ghost predicate LockFree(s: State) {
    forall t | 0 <= t < |s.threads| :: !HoldsLock(s.threads[t])
  }

  ghost predicate Enabled(s: State, a: Action) {
    && a.t < |s.threads|
    && var pc := s.threads[a.t];
       match a
       case Map(_) => pc.Outside?
       case Unmap(_) => pc.Owner?
       case NotifyLock(_) => pc.ToNotify? && LockFree(s)
       case NotifyOne(_) => pc.Notifying?
       case Register(_, _) => pc.Outside?
       case Insert(_) => pc.ToRegister? && LockFree(s)
       case ReadInUse(_) => pc.Inserted?
       case Unregister(_, _) => pc.Outside?
       case Remove(_) => pc.ToUnregister? && LockFree(s)
       case Unlock(_) => pc.Leaving?
  }

  function At(s: State, t: nat, pc: Pc): (r: State)
    requires t < |s.threads|
  {
    s.(threads := s.threads[t := pc])
  }

  ghost function Apply(s: State, a: Action): (r: State)
    requires Enabled(s, a)
  {
    match a
    case Map(t) => At(s, t, if s.inUse then Outside else Owner).(inUse := true)
    case Unmap(t) => At(s, t, ToNotify).(inUse := false)
    case NotifyLock(t) => At(s, t, Notifying)
    case NotifyOne(t) =>
      if s.clients == [] then At(s, t, Leaving)
      else s.(clients := s.clients[1..], woken := s.woken + multiset{s.clients[0]})
    case Register(t, bh) => At(s, t, ToRegister(bh))
    case Insert(t) =>
      var bh := s.threads[t].bh;
      At(s, t, Inserted).(clients := [bh] + s.clients, registered := s.registered + multiset{bh})
    case ReadInUse(t) => At(s, t, if s.inUse then Leaving else Notifying)
    case Unregister(t, bh) => At(s, t, ToUnregister(bh))
    case Remove(t) =>
      var bh := s.threads[t].bh;
      var i := Find(s.clients, bh);
      if i == |s.clients| then At(s, t, Leaving)
      else At(s, t, Leaving).(clients := Drop(s.clients, i), withdrawn := s.withdrawn + multiset{bh})
    case Unlock(t) => At(s, t, Outside)
  }

  /** The waiting clients will be woken: the buffer is in use, so its owner will
      notify; or an unmapper is about to; or the lock holder will. */
  ghost predicate Attended(s: State) {
    s.clients == [] || s.inUse
    || exists t :: 0 <= t < |s.threads| && (s.threads[t].ToNotify? || s.threads[t].Inserted? || s.threads[t].Notifying?)
  }

  /** The buffer is in use exactly while it has an owner, and has only one. */
  ghost predicate OneOwner(s: State) {
    && (s.inUse <==> exists t :: 0 <= t < |s.threads| && s.threads[t].Owner?)
    && (forall t, u | 0 <= t < u < |s.threads| :: !(s.threads[t].Owner? && s.threads[u].Owner?))
  }

  ghost predicate OneLockHolder(s: State) {
    forall t, u | 0 <= t < u < |s.threads| :: !(HoldsLock(s.threads[t]) && HoldsLock(s.threads[u]))
  }

  /** Every registered client waits, was woken or was withdrawn. */
  ghost predicate ClientsConserved(s: State) {
    s.registered == multiset(s.clients) + s.woken + s.withdrawn
  }

  ghost predicate Inv(s: State) {
    Attended(s) && OneOwner(s) && OneLockHolder(s) && ClientsConserved(s)
  }

  lemma AttendedStep(s: State, a: Action)
    requires Inv(s) && Enabled(s, a)
    ensures Attended(Apply(s, a))
  {
    var s' := Apply(s, a);
    var t := a.t;
    if s'.clients != [] && !s'.inUse {
      if s'.threads[t].ToNotify? || s'.threads[t].Inserted? || s'.threads[t].Notifying? {
      } else {
        assert s.clients != [];
        var u :| 0 <= u < |s.threads| && (s.threads[u].ToNotify? || s.threads[u].Inserted? || s.threads[u].Notifying?);
        assert s'.threads[u] == s.threads[u];
      }
    }
  }

  lemma OwnerStep(s: State, a: Action)
    requires OneOwner(s) && Enabled(s, a)
    ensures OneOwner(Apply(s, a))
  {
    var s', t := Apply(s, a), a.t;
    assert forall u | 0 <= u < |s.threads| && u != t :: s'.threads[u] == s.threads[u];
    if a.Map? && !s.inUse {
      assert s'.threads[t].Owner?;
    } else if a.Unmap? {
      assert forall u | 0 <= u < |s.threads| && u != t :: !s.threads[u].Owner?;
    } else {
      assert s'.threads[t].Owner? == s.threads[t].Owner? == false && s'.inUse == s.inUse;
      if s.inUse {
        var u :| 0 <= u < |s.threads| && s.threads[u].Owner?;
        assert s'.threads[u].Owner?;
      }
    }
  }

  lemma LockStep(s: State, a: Action)
    requires OneLockHolder(s) && Enabled(s, a)
    ensures OneLockHolder(Apply(s, a))
  {
    var s', t := Apply(s, a), a.t;
    assert forall u | 0 <= u < |s.threads| && u != t :: s'.threads[u] == s.threads[u];
    assert HoldsLock(s'.threads[t]) ==> HoldsLock(s.threads[t]) || LockFree(s);
  }

  lemma TakeOut(l: seq<nat>, i: nat)
    requires i < |l|
    ensures multiset(l) == multiset(Drop(l, i)) + multiset{l[i]}
  {
    assert l == l[..i] + [l[i]] + l[i + 1..];
  }

  lemma TakeFirst(l: seq<nat>)
    requires l != []
    ensures multiset(l) == multiset(l[1..]) + multiset{l[0]}
  {
    assert l == [l[0]] + l[1..];
  }

  lemma Moved(before: multiset<nat>, after: multiset<nat>, to: multiset<nat>, rest: multiset<nat>, x: nat)
    requires before == after + multiset{x}
    ensures before + to + rest == after + (to + multiset{x}) + rest
    ensures before + rest + to == after + rest + (to + multiset{x})
  {
  }

  lemma HistoryStep(s: State, a: Action)
    requires ClientsConserved(s) && Enabled(s, a)
    ensures ClientsConserved(Apply(s, a))
  {
    match a
    case NotifyOne(t) => WakeKeeps(s, t);
    case Insert(t) => InsertKeeps(s, t);
    case Remove(t) => RemoveKeeps(s, t);
    case _ =>
  }

  lemma WakeKeeps(s: State, t: nat)
    requires ClientsConserved(s) && Enabled(s, NotifyOne(t))
    ensures ClientsConserved(Apply(s, NotifyOne(t)))
  {
    if s.clients != [] {
      TakeFirst(s.clients);
      Moved(multiset(s.clients), multiset(s.clients[1..]), s.woken, s.withdrawn, s.clients[0]);
    }
  }

  lemma InsertKeeps(s: State, t: nat)
    requires ClientsConserved(s) && Enabled(s, Insert(t))
    ensures ClientsConserved(Apply(s, Insert(t)))
  {
  }

  lemma RemoveKeeps(s: State, t: nat)
    requires ClientsConserved(s) && Enabled(s, Remove(t))
    ensures ClientsConserved(Apply(s, Remove(t)))
  {
    hide Find, Drop;
    var bh := s.threads[t].bh;
    var i := Find(s.clients, bh);
    if i < |s.clients| {
      TakeOut(s.clients, i);
      Moved(multiset(s.clients), multiset(Drop(s.clients, i)), s.withdrawn, s.woken, bh);
    }
  }

  lemma InvStep(s: State, a: Action)
    requires Inv(s) && Enabled(s, a)
    ensures Inv(Apply(s, a))
  {
    hide Attended, OneOwner, OneLockHolder, ClientsConserved, Apply, Enabled;
    AttendedStep(s, a);
    OwnerStep(s, a);
    LockStep(s, a);
    HistoryStep(s, a);
  }

  predicate Init(s: State) {
    && !s.inUse && s.clients == []
    && (forall t | 0 <= t < |s.threads| :: s.threads[t].Outside?)
    && s.registered == s.woken == s.withdrawn == multiset{}
  }

  ghost function Next(s: State, a: Action): (r: Option<State>) {
    if Enabled(s, a) then Some(Apply(s, a)) else None
  }

  lemma RunInv(s0: State, run: seq<Action>, s: State)
    requires Init(s0) && After(Next, s0, run) == Some(s)
    ensures Inv(s)
  {
    assert Inv(s0);
    hide Inv, Enabled, Apply;
    forall t, a | Inv(t) && Next(t, a).Some?
      ensures Inv(Next(t, a).value)
    {
      InvStep(t, a);
    }
    InvariantHolds(Next, Inv, s0, run, s);
  }

  /** In every interleaving: whenever the client list lock is free and a client
      waits, the buffer is in use or an unmapper has yet to notify. */
  lemma NoStrandedClient(s0: State, run: seq<Action>, s: State)
    requires Init(s0) && After(Next, s0, run) == Some(s)
    requires LockFree(s) && s.clients != []
    ensures s.inUse || exists t :: 0 <= t < |s.threads| && s.threads[t].ToNotify?
  {
    RunInv(s0, run, s);
    if !s.inUse {
      var t :| 0 <= t < |s.threads| && (s.threads[t].ToNotify? || s.threads[t].Inserted? || s.threads[t].Notifying?);
      assert !HoldsLock(s.threads[t]);
    }
  }

  /** In every interleaving at most one thread owns the buffer, and exactly while
      it is in use. */
  lemma SingleOwner(s0: State, run: seq<Action>, s: State)
    requires Init(s0) && After(Next, s0, run) == Some(s)
    ensures s.inUse <==> exists t :: 0 <= t < |s.threads| && s.threads[t].Owner?
    ensures forall t, u | 0 <= t < |s.threads| && 0 <= u < |s.threads|
              && s.threads[t].Owner? && s.threads[u].Owner? :: t == u
  {
    RunInv(s0, run, s);
  }

  /** When all threads are outside and the buffer is free, every registered client
      has been woken or withdrawn. */
  lemma AllClientsServed(s0: State, run: seq<Action>, s: State)
    requires Init(s0) && After(Next, s0, run) == Some(s)
    requires forall t | 0 <= t < |s.threads| :: s.threads[t].Outside?
    ensures s.clients == [] && s.registered == s.woken + s.withdrawn
  {
    RunInv(s0, run, s);
  }
}
