/** Deferred reclamation in an AioContext: bottom halves and fd handlers are only
    marked deleted while any walk over their list is under way. Walks are kept as
    an unordered collection of frames, each free to advance at any time, so the
    runs below include every nesting of `aio_bh_poll`, `aio_dispatch` and
    `aio_poll` through callbacks. */
module AioLists {
  import opened Basics
  import opened Runs

  /** `asked` counts how often the clear flag `scheduled` was raised, `ran` the runs
      of the callback. */
  datatype Bh = Bh(id: nat, scheduled: bool, deleted: bool, asked: nat, ran: nat)

  /** `armed`: the handler waits for some event. */
  datatype Handler = Handler(id: nat, fd: int, deleted: bool, armed: bool)

  /** `aio_bh_poll`: running the callback of `cur`, with `next` saved. */
  datatype BhWalk = BhWalk(cur: Option<nat>, next: Option<nat>)

  /** `aio_dispatch` at a node, or `aio_poll` with its array of nodes. */
  datatype HandlerWalk = Dispatching(cur: nat) | Polling(nodes: seq<nat>)

  /** `walking_bh` is the number of `bhWalks`, `walking_handlers` that of
      `handlerWalks`. Lists have their head first. */
  datatype State = State(bhs: seq<Bh>, bhWalks: seq<BhWalk>, handlers: seq<Handler>, handlerWalks: seq<HandlerWalk>,
                         nextId: nat, freedBhs: set<nat>, freedHandlers: set<nat>)

  datatype Action =
    | BhNew
    | BhSchedule(id: nat)
    | BhCancel(id: nat)
    | BhDelete(id: nat)
    | BhPollBegin
    | BhPollVisit(w: nat)
    | BhPollEnd(w: nat)
    | SetFdHandler(fd: int, armed: bool)
    | RemoveFdHandler(fd: int)
    | DispatchBegin
    | DispatchNext(w: nat)
    | PollFill
    | PollDone(w: nat)

  // ---- Lists ----

  function BhIds(l: seq<Bh>): (r: seq<nat>)
    ensures |r| == |l| && forall i | 0 <= i < |l| :: r[i] == l[i].id
  {
    seq(|l|, i requires 0 <= i < |l| => l[i].id)
  }

  function HandlerIds(l: seq<Handler>): (r: seq<nat>)
    ensures |r| == |l| && forall i | 0 <= i < |l| :: r[i] == l[i].id
  {
    seq(|l|, i requires 0 <= i < |l| => l[i].id)
  }

  /** What the `next` pointer of node `x` holds. */
  function NextOf(l: seq<nat>, x: nat): (r: Option<nat>)
    ensures r.Some? ==> r.value in l
  {
    var i := Find(l, x);
    if i + 1 < |l| then Some(l[i + 1]) else None
  }

  function First(l: seq<nat>): (r: Option<nat>) {
    if l == [] then None else Some(l[0])
  }

  predicate Distinct(l: seq<nat>) {
    forall i, j | 0 <= i < j < |l| :: l[i] != l[j]
  }

  /** The list without its deleted bottom halves. */
  function Live(l: seq<Bh>): (r: seq<Bh>) {
    if l == [] then []
    else
      var n := |l| - 1;
      Live(l[..n]) + if l[n].deleted then [] else [l[n]]
  }

  lemma {:induction false} LiveMembers(l: seq<Bh>, bh: Bh)
    ensures bh in Live(l) <==> bh in l && !bh.deleted
  {
    if l != [] {
      var n := |l| - 1;
      LiveMembers(l[..n], bh);
      assert bh in l <==> bh == l[n] || bh in l[..n];
    }
  }

  /** The reaping loop at the end of `aio_bh_poll`. */
  method Reap(l: seq<Bh>) returns (kept: seq<Bh>, freed: set<nat>)
    ensures kept == Live(l)
    ensures forall id :: id in freed <==> exists i :: 0 <= i < |l| && l[i].deleted && l[i].id == id
  {
    kept, freed := [], {};
    var i := 0;
    while i < |l|
      invariant i <= |l| && kept == Live(l[..i])
      invariant forall id :: id in freed <==> exists j :: 0 <= j < i && l[j].deleted && l[j].id == id
    {
      assert l[..i + 1][..i] == l[..i];
      if l[i].deleted {
        freed := freed + {l[i].id};
      } else {
        kept := kept + [l[i]];
      }
      i := i + 1;
    }
    assert l[..i] == l;
  }

  /** `find_aio_handler`: the first handler for `fd` that is not deleted. */
  method FindHandler(l: seq<Handler>, fd: int) returns (i: nat)
    ensures i == HandlerFor(l, fd)
  {
    i := 0;
    while i < |l|
      invariant i <= |l| && HandlerFor(l, fd) == i + HandlerFor(l[i..], fd)
    {
      if l[i].fd == fd {
        if !l[i].deleted {
          return;
        }
      }
      i := i + 1;
    }
  }

  function HandlerFor(l: seq<Handler>, fd: int): (i: nat)
    ensures i <= |l|
    ensures i < |l| ==> l[i].fd == fd && !l[i].deleted
    ensures forall j | 0 <= j < i :: l[j].fd != fd || l[j].deleted
  {
    if l == [] then 0
    else if l[0].fd == fd && !l[0].deleted then 0
    else 1 + HandlerFor(l[1..], fd)
  }

  // ---- Steps ----

  predicate Enabled(s: State, a: Action) {
    match a
    case BhNew => true
    case BhSchedule(id) => id in BhIds(s.bhs)
    case BhCancel(id) => id in BhIds(s.bhs)
    case BhDelete(id) => id in BhIds(s.bhs)
    case BhPollBegin => true
    case BhPollVisit(w) => w < |s.bhWalks| && s.bhWalks[w].next.Some?
    case BhPollEnd(w) => w < |s.bhWalks| && s.bhWalks[w].next.None?
    case SetFdHandler(_, _) => true
    case RemoveFdHandler(_) => true
    case DispatchBegin => true
    case DispatchNext(w) => w < |s.handlerWalks| && s.handlerWalks[w].Dispatching?
    case PollFill => true
    case PollDone(w) => w < |s.handlerWalks| && s.handlerWalks[w].Polling?
  }

  function Update(s: State, id: nat, f: Bh -> Bh): (r: State) {
    var i := Find(BhIds(s.bhs), id);
    if i < |s.bhs| then s.(bhs := s.bhs[i := f(s.bhs[i])]) else s
  }

  function Scheduled(bh: Bh): (r: Bh) {
    bh.(scheduled := true, asked := if bh.scheduled then bh.asked else bh.asked + 1)
  }

  function Apply(s: State, a: Action): (r: State)
    requires Enabled(s, a)
  {
    match a
    case BhNew =>
      s.(bhs := [Bh(s.nextId, false, false, 0, 0)] + s.bhs, nextId := s.nextId + 1)
    case BhSchedule(id) => Update(s, id, Scheduled)
    case BhCancel(id) => Update(s, id, (bh: Bh) => bh.(scheduled := false))
    case BhDelete(id) => Update(s, id, (bh: Bh) => bh.(scheduled := false, deleted := true))
    case BhPollBegin => s.(bhWalks := s.bhWalks + [BhWalk(None, First(BhIds(s.bhs)))])
    case BhPollVisit(w) =>
      var id := s.bhWalks[w].next.value;
      var s' := s.(bhWalks := s.bhWalks[w := BhWalk(Some(id), NextOf(BhIds(s.bhs), id))]);
      Update(s', id, (bh: Bh) => if !bh.deleted && bh.scheduled then bh.(scheduled := false, ran := bh.ran + 1) else bh)
    case BhPollEnd(w) =>
      var s' := s.(bhWalks := Drop(s.bhWalks, w));
      if s'.bhWalks == []
      then s'.(bhs := Live(s.bhs), freedBhs := s.freedBhs + (set bh | bh in s.bhs && bh.deleted :: bh.id))
      else s'
    case SetFdHandler(fd, armed) =>
      var i := HandlerFor(s.handlers, fd);
      if i < |s.handlers| then s.(handlers := s.handlers[i := s.handlers[i].(armed := armed)])
      else s.(handlers := [Handler(s.nextId, fd, false, armed)] + s.handlers, nextId := s.nextId + 1)
    case RemoveFdHandler(fd) =>
      var i := HandlerFor(s.handlers, fd);
      if i == |s.handlers| then s
      else if s.handlerWalks != [] then s.(handlers := s.handlers[i := s.handlers[i].(deleted := true)])
      else s.(handlers := Drop(s.handlers, i), freedHandlers := s.freedHandlers + {s.handlers[i].id})
    case DispatchBegin =>
      if s.handlers == [] then s
      else s.(handlerWalks := s.handlerWalks + [Dispatching(s.handlers[0].id)])
    case DispatchNext(w) =>
      var id := s.handlerWalks[w].cur;
      var next := NextOf(HandlerIds(s.handlers), id);
      var i := Find(HandlerIds(s.handlers), id);
      var s' := s.(handlerWalks := if next.Some? then s.handlerWalks[w := Dispatching(next.value)]
                                   else Drop(s.handlerWalks, w));
      if |s.handlerWalks| == 1 && i < |s.handlers| && s.handlers[i].deleted
      then s'.(handlers := Drop(s.handlers, i), freedHandlers := s.freedHandlers + {id})
      else s'
    case PollFill => s.(handlerWalks := s.handlerWalks + [Polling(ArmedIds(s.handlers))])
    case PollDone(w) => s.(handlerWalks := Drop(s.handlerWalks, w))
  }

  /** The nodes that `aio_poll` puts into its array. */
  function ArmedIds(l: seq<Handler>): (r: seq<nat>)
    ensures forall id :: id in r ==> id in HandlerIds(l)
  {
    if l == [] then []
    else
      var rest := ArmedIds(l[1..]);
      assert forall id | id in HandlerIds(l[1..]) :: id in HandlerIds(l) by {
        assert forall i | 0 <= i < |l[1..]| :: HandlerIds(l)[i + 1] == HandlerIds(l[1..])[i];
      }
      assert HandlerIds(l)[0] == l[0].id;
      (if !l[0].deleted && l[0].armed then [l[0].id] else []) + rest
  }

  // ---- Invariant ----

  /** Node `id` is held by the walk. */
  predicate BhHeld(w: BhWalk, id: nat) {
    w.cur == Some(id) || w.next == Some(id)
  }

  predicate HandlerHeld(w: HandlerWalk, id: nat) {
    match w
    case Dispatching(cur) => cur == id
    case Polling(nodes) => id in nodes
  }

  ghost predicate BhsSafe(s: State) {
    && Distinct(BhIds(s.bhs))
    && (forall i | 0 <= i < |s.bhs| :: s.bhs[i].id < s.nextId && s.bhs[i].id !in s.freedBhs)
    && (forall w, id | 0 <= w < |s.bhWalks| && BhHeld(s.bhWalks[w], id) :: id in BhIds(s.bhs))
    && (forall i | 0 <= i < |s.bhs| :: s.bhs[i].ran + (if s.bhs[i].scheduled then 1 else 0) <= s.bhs[i].asked)
    && (forall id | id in s.freedBhs :: id < s.nextId)
  }

  ghost predicate HandlersSafe(s: State) {
    && Distinct(HandlerIds(s.handlers))
    && (forall i | 0 <= i < |s.handlers| :: s.handlers[i].id < s.nextId && s.handlers[i].id !in s.freedHandlers)
    && (forall w, id | 0 <= w < |s.handlerWalks| && HandlerHeld(s.handlerWalks[w], id) :: id in HandlerIds(s.handlers))
    && (forall i, j | 0 <= i < j < |s.handlers| && s.handlers[i].fd == s.handlers[j].fd ::
          s.handlers[i].deleted || s.handlers[j].deleted)
    && (forall id | id in s.freedHandlers :: id < s.nextId)
  }

  lemma UpdateSafe(s: State, id: nat, f: Bh -> Bh)
    requires BhsSafe(s)
    requires forall bh: Bh :: f(bh).id == bh.id
    requires forall bh: Bh | bh.ran + (if bh.scheduled then 1 else 0) <= bh.asked ::
               f(bh).ran + (if f(bh).scheduled then 1 else 0) <= f(bh).asked
    ensures BhsSafe(Update(s, id, f))
  {
    var s' := Update(s, id, f);
    assert BhIds(s'.bhs) == BhIds(s.bhs);
  }

  lemma {:induction false} LiveDistinct(l: seq<Bh>)
    requires Distinct(BhIds(l))
    ensures Distinct(BhIds(Live(l)))
  {
    if l != [] {
      var n := |l| - 1;
      assert BhIds(l)[..n] == BhIds(l[..n]);
      LiveDistinct(l[..n]);
      var rest := Live(l[..n]);
      forall j | 0 <= j < |rest|
        ensures rest[j].id != l[n].id
      {
        LiveMembers(l[..n], rest[j]);
        var k :| 0 <= k < n && l[k] == rest[j];
        assert BhIds(l)[k] != BhIds(l)[n];
      }
    }
  }

  /** With no walk left, freeing the deleted bottom halves is safe. */
  lemma ReapSafe(s: State)
    requires BhsSafe(s) && s.bhWalks == []
    ensures BhsSafe(s.(bhs := Live(s.bhs), freedBhs := s.freedBhs + (set bh | bh in s.bhs && bh.deleted :: bh.id)))
  {
    LiveDistinct(s.bhs);
    var kept := Live(s.bhs);
    forall i | 0 <= i < |kept|
      ensures kept[i] in s.bhs && !kept[i].deleted
      ensures forall bh | bh in s.bhs && bh.deleted :: bh.id != kept[i].id
    {
      LiveMembers(s.bhs, kept[i]);
      var k :| 0 <= k < |s.bhs| && s.bhs[k] == kept[i];
      forall bh | bh in s.bhs && bh.deleted
        ensures bh.id != kept[i].id
      {
        var m :| 0 <= m < |s.bhs| && s.bhs[m] == bh;
        assert BhIds(s.bhs)[m] == bh.id && BhIds(s.bhs)[k] == kept[i].id;
      }
    }
  }

  /** A bottom half put at the head of the list. */
  lemma NewBhSafe(s: State)
    requires BhsSafe(s)
    ensures BhsSafe(Apply(s, BhNew))
  {
    var s' := Apply(s, BhNew);
    assert BhIds(s'.bhs) == [s.nextId] + BhIds(s.bhs);
  }

  lemma BhStep(s: State, a: Action)
    requires BhsSafe(s) && Enabled(s, a)
    ensures BhsSafe(Apply(s, a))
  {
    match a
    case BhNew => NewBhSafe(s);
    case BhSchedule(id) => UpdateSafe(s, id, Scheduled);
    case BhCancel(id) => UpdateSafe(s, id, (bh: Bh) => bh.(scheduled := false));
    case BhDelete(id) => UpdateSafe(s, id, (bh: Bh) => bh.(scheduled := false, deleted := true));
    case BhPollVisit(w) => VisitSafe(s, w);
    case BhPollEnd(w) => PollEndSafe(s, w);
    case _ =>
  }

  lemma PollEndSafe(s: State, w: nat)
    requires BhsSafe(s) && Enabled(s, BhPollEnd(w))
    ensures BhsSafe(Apply(s, BhPollEnd(w)))
  {
    var s' := s.(bhWalks := Drop(s.bhWalks, w));
    forall v, id | 0 <= v < |s'.bhWalks| && BhHeld(s'.bhWalks[v], id)
      ensures id in BhIds(s'.bhs)
    {
      var u := if v < w then v else v + 1;
      assert BhHeld(s.bhWalks[u], id);
    }
    if s'.bhWalks == [] {
      ReapSafe(s');
    }
  }

  lemma VisitSafe(s: State, w: nat)
    requires BhsSafe(s) && Enabled(s, BhPollVisit(w))
    ensures BhsSafe(Apply(s, BhPollVisit(w)))
  {
    var id := s.bhWalks[w].next.value;
    var s' := s.(bhWalks := s.bhWalks[w := BhWalk(Some(id), NextOf(BhIds(s.bhs), id))]);
    assert BhHeld(s.bhWalks[w], id);
    assert BhsSafe(s');
    UpdateSafe(s', id, (bh: Bh) => if !bh.deleted && bh.scheduled then bh.(scheduled := false, ran := bh.ran + 1)
                                   else bh);
  }

  /** Unlinking a handler that nobody holds. */
  lemma UnlinkSafe(s: State, i: nat)
    requires HandlersSafe(s) && i < |s.handlers|
    requires forall w | 0 <= w < |s.handlerWalks| :: !HandlerHeld(s.handlerWalks[w], s.handlers[i].id)
    ensures HandlersSafe(s.(handlers := Drop(s.handlers, i), freedHandlers := s.freedHandlers + {s.handlers[i].id}))
  {
    var s' := s.(handlers := Drop(s.handlers, i), freedHandlers := s.freedHandlers + {s.handlers[i].id});
    var ids, ids' := HandlerIds(s.handlers), HandlerIds(s'.handlers);
    assert ids' == Drop(ids, i);
    DropDistinct(ids, i);
    forall w, id | 0 <= w < |s'.handlerWalks| && HandlerHeld(s'.handlerWalks[w], id)
      ensures id in ids'
    {
      assert id in ids && id != ids[i];
    }
  }

  lemma DropDistinct(ids: seq<nat>, i: nat)
    requires Distinct(ids) && i < |ids|
    ensures Distinct(Drop(ids, i))
    ensures forall j | 0 <= j < |ids| - 1 :: Drop(ids, i)[j] != ids[i]
    ensures forall id | id in ids && id != ids[i] :: id in Drop(ids, i)
  {
    var ids' := Drop(ids, i);
    forall j | 0 <= j < |ids'|
      ensures ids'[j] != ids[i]
    {
      assert ids'[j] == ids[if j < i then j else j + 1];
    }
    forall id | id in ids && id != ids[i]
      ensures id in ids'
    {
      var k :| 0 <= k < |ids| && ids[k] == id;
      assert ids'[if k < i then k else k - 1] == id;
    }
  }

  lemma DispatchNextSafe(s: State, w: nat)
    requires HandlersSafe(s) && Enabled(s, DispatchNext(w))
    ensures HandlersSafe(Apply(s, DispatchNext(w)))
  {
    var id := s.handlerWalks[w].cur;
    var ids := HandlerIds(s.handlers);
    assert HandlerHeld(s.handlerWalks[w], id);
    var next, i := NextOf(ids, id), Find(ids, id);
    var s' := s.(handlerWalks := if next.Some? then s.handlerWalks[w := Dispatching(next.value)]
                                 else Drop(s.handlerWalks, w));
    assert HandlersSafe(s') by {
      forall v, x | 0 <= v < |s'.handlerWalks| && HandlerHeld(s'.handlerWalks[v], x)
        ensures x in ids
      {
        if next.None? {
          assert HandlerHeld(s.handlerWalks[if v < w then v else v + 1], x);
        } else if v != w {
          assert HandlerHeld(s.handlerWalks[v], x);
        }
      }
    }
    if |s.handlerWalks| == 1 && s.handlers[i].deleted {
      if next.Some? {
        assert ids[i] != ids[i + 1];
      }
      UnlinkSafe(s', i);
    }
  }

  lemma HandlerStep(s: State, a: Action)
    requires HandlersSafe(s) && Enabled(s, a)
    ensures HandlersSafe(Apply(s, a))
  {
    match a
    case SetFdHandler(fd, armed) => SetSafe(s, fd, armed);
    case RemoveFdHandler(fd) => RemoveSafe(s, fd);
    case DispatchBegin => WalkBeginSafe(s, a);
    case PollFill => WalkBeginSafe(s, a);
    case DispatchNext(w) => DispatchNextSafe(s, w);
    case PollDone(w) => PollDoneSafe(s, w);
    case _ =>
  }

  lemma RemoveSafe(s: State, fd: int)
    requires HandlersSafe(s)
    ensures HandlersSafe(Apply(s, RemoveFdHandler(fd)))
  {
    var i := HandlerFor(s.handlers, fd);
    if i < |s.handlers| {
      if s.handlerWalks == [] {
        UnlinkSafe(s, i);
      } else {
        assert HandlerIds(Apply(s, RemoveFdHandler(fd)).handlers) == HandlerIds(s.handlers);
      }
    }
  }

  lemma WalkBeginSafe(s: State, a: Action)
    requires HandlersSafe(s) && (a.DispatchBegin? || a.PollFill?)
    ensures HandlersSafe(Apply(s, a))
  {
    if s.handlers != [] {
      assert HandlerIds(s.handlers)[0] == s.handlers[0].id;
    }
  }

  lemma PollDoneSafe(s: State, w: nat)
    requires HandlersSafe(s) && Enabled(s, PollDone(w))
    ensures HandlersSafe(Apply(s, PollDone(w)))
  {
    var s' := Apply(s, PollDone(w));
    forall v, x | 0 <= v < |s'.handlerWalks| && HandlerHeld(s'.handlerWalks[v], x)
      ensures x in HandlerIds(s'.handlers)
    {
      assert HandlerHeld(s.handlerWalks[if v < w then v else v + 1], x);
    }
  }

  lemma SetSafe(s: State, fd: int, armed: bool)
    requires HandlersSafe(s)
    ensures HandlersSafe(Apply(s, SetFdHandler(fd, armed)))
  {
    var i := HandlerFor(s.handlers, fd);
    if i < |s.handlers| {
      UpdatedSafe(s, i, armed);
    } else {
      NewHandlerSafe(s, fd, armed);
    }
  }

  lemma UpdatedSafe(s: State, i: nat, armed: bool)
    requires HandlersSafe(s) && i < |s.handlers|
    ensures HandlersSafe(s.(handlers := s.handlers[i := s.handlers[i].(armed := armed)]))
  {
    assert HandlerIds(s.handlers[i := s.handlers[i].(armed := armed)]) == HandlerIds(s.handlers);
  }

  lemma NewHandlerSafe(s: State, fd: int, armed: bool)
    requires HandlersSafe(s) && HandlerFor(s.handlers, fd) == |s.handlers|
    ensures HandlersSafe(s.(handlers := [Handler(s.nextId, fd, false, armed)] + s.handlers, nextId := s.nextId + 1))
  {
    hide HandlerFor;
    var l := [Handler(s.nextId, fd, false, armed)] + s.handlers;
    assert HandlerIds(l) == [s.nextId] + HandlerIds(s.handlers);
  }

  // ---- Runs ----

  predicate Init(s: State) {
    s.bhs == [] && s.bhWalks == [] && s.handlers == [] && s.handlerWalks == []
    && s.freedBhs == {} && s.freedHandlers == {}
  }

  function Next(s: State, a: Action): (r: Option<State>) {
    if Enabled(s, a) then Some(Apply(s, a)) else None
  }

  ghost predicate Safe(s: State) {
    BhsSafe(s) && HandlersSafe(s)
  }

  lemma RunSafe(s0: State, run: seq<Action>, s: State)
    requires Init(s0) && After(Next, s0, run) == Some(s)
    ensures BhsSafe(s) && HandlersSafe(s)
  {
    assert Safe(s0);
    hide BhsSafe, HandlersSafe, Enabled, Apply;
    forall t, a | Safe(t) && Next(t, a).Some?
      ensures Safe(Next(t, a).value)
    {
      BhStep(t, a);
      HandlerStep(t, a);
    }
    InvariantHolds(Next, Safe, s0, run, s);
  }

  /** In every run, a node that some walk holds is linked and not freed. */
  lemma HeldNodesAreLinked(s0: State, run: seq<Action>, s: State, id: nat)
    requires Init(s0) && After(Next, s0, run) == Some(s)
    ensures (exists w :: 0 <= w < |s.bhWalks| && BhHeld(s.bhWalks[w], id)) ==>
              id in BhIds(s.bhs) && id !in s.freedBhs
    ensures (exists w :: 0 <= w < |s.handlerWalks| && HandlerHeld(s.handlerWalks[w], id)) ==>
              id in HandlerIds(s.handlers) && id !in s.freedHandlers
  {
    RunSafe(s0, run, s);
    if id in BhIds(s.bhs) {
      var i :| 0 <= i < |s.bhs| && BhIds(s.bhs)[i] == id;
      assert s.bhs[i].id == id;
    }
    if id in HandlerIds(s.handlers) {
      var i :| 0 <= i < |s.handlers| && HandlerIds(s.handlers)[i] == id;
      assert s.handlers[i].id == id;
    }
  }

  /** In every run, at most one handler per descriptor is live, and each time the
      flag of a bottom half was raised its callback has run at most once. */
  lemma OneHandlerPerFdAndOneRunPerSchedule(s0: State, run: seq<Action>, s: State)
    requires Init(s0) && After(Next, s0, run) == Some(s)
    ensures forall i, j | 0 <= i < |s.handlers| && 0 <= j < |s.handlers| && s.handlers[i].fd == s.handlers[j].fd
              && !s.handlers[i].deleted && !s.handlers[j].deleted :: i == j
    ensures forall i | 0 <= i < |s.bhs| :: s.bhs[i].ran + (if s.bhs[i].scheduled then 1 else 0) <= s.bhs[i].asked
  {
    RunSafe(s0, run, s);
  }
}
