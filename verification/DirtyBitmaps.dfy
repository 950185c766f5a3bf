/** The dirty bitmaps of one block device (block.c): a bitmap can be frozen behind
    an anonymous successor that takes the writes, and is later replaced by the
    successor (abdicate) or joined with it (reclaim). The device length is fixed. */
module DirtyBitmaps {
  import opened Basics
  import opened Pages
  import opened Radix
  import opened Runs

  /** `dirty` is the contents of the `HBitmap`, in granules of `2^granularity`
      sectors; `size` is in sectors. */
  datatype Bitmap = Bitmap(dirty: set<nat>, size: nat, granularity: nat,
                           successor: Option<nat>, name: Option<string>, disabled: bool)

  predicate IsFrozen(b: Bitmap) {
    b.successor.Some?
  }

  predicate IsEnabled(b: Bitmap) {
    !b.disabled && b.successor.None?
  }

  /** The granules that `count` sectors from `start` on touch. */
  function Granules(start: nat, count: nat, granularity: nat): (r: set<nat>) {
    if count == 0 then {}
    else Interval(Quotient(start, Pow2(granularity)), Quotient(start + count - 1, Pow2(granularity)))
  }

  predicate Between(lo: nat, g: nat, hi: nat) {
    lo <= g <= hi
  }

  function Interval(lo: nat, hi: nat): (r: set<nat>)
    ensures forall g: nat :: g in r <==> Between(lo, g, hi)
  {
    set g: nat | g <= hi && Between(lo, g, hi)
  }

  /** A sector in the range has its granule in the set, and nothing else does. */
  lemma GranulesTouch(start: nat, count: nat, granularity: nat, g: nat)
    ensures g in Granules(start, count, granularity) <==>
            exists s: nat :: start <= s < start + count && Quotient(s, Pow2(granularity)) == g
  {
    hide Granules, Quotient, Pow2;
    if g in Granules(start, count, granularity) {
      var s := GranuleIsTouched(start, count, granularity, g);
    }
    forall s: nat | start <= s < start + count && Quotient(s, Pow2(granularity)) == g
      ensures g in Granules(start, count, granularity)
    {
      TouchedIsGranule(start, count, granularity, s);
    }
  }

  lemma GranuleIsTouched(start: nat, count: nat, granularity: nat, g: nat) returns (s: nat)
    requires g in Granules(start, count, granularity)
    ensures start <= s < start + count && Quotient(s, Pow2(granularity)) == g
  {
    hide Pow2, Quotient;
    var p := Pow2(granularity);
    s := if g * p < start then start else g * p;
    QuotientIs(s, p, g, start, start + count - 1);
  }

  lemma TouchedIsGranule(start: nat, count: nat, granularity: nat, s: nat)
    requires start <= s < start + count
    ensures Quotient(s, Pow2(granularity)) in Granules(start, count, granularity)
  {
    hide Pow2, Quotient;
    var p := Pow2(granularity);
    QuotientMono(start, s, p);
    QuotientMono(s, start + count - 1, p);
  }

  lemma QuotientMono(x: nat, y: nat, p: Positive)
    requires x <= y
    ensures Quotient(x, p) <= Quotient(y, p)
  {
    var a, b := Quotient(x, p), Quotient(y, p);
    if b < a {
      MulStep(b, a, p);
    }
  }

  lemma QuotientIs(s: nat, p: Positive, g: nat, lo: nat, hi: nat)
    requires s == (if g * p < lo then lo else g * p)
    requires Quotient(lo, p) <= g <= Quotient(hi, p)
    ensures s <= hi || lo > hi
    ensures Quotient(s, p) == g
  {
    var a, b := Quotient(lo, p), Quotient(hi, p);
    if g < b {
      MulStep(g, b, p);
    }
    if a < g {
      MulStep(a, g, p);
    }
    var q := Quotient(s, p);
    if q < g {
      MulStep(q, g, p);
    } else if g < q {
      MulStep(g, q, p);
    }
  }

  type Bitmaps = map<nat, Bitmap>

  /** `c` takes the writes of `b` while `b` is frozen. */
  ghost predicate IsSuccessor(m: Bitmaps, c: nat) {
    exists b :: b in m && m[b].successor == Some(c)
  }

  ghost predicate SuccessorOk(m: Bitmaps, b: nat)
    requires b in m
  {
    m[b].successor.Some? ==>
      var c := m[b].successor.value;
      && c in m && c != b
      && m[c].successor.None? && m[c].name.None? && m[c].disabled == m[b].disabled
      && m[c].size == m[b].size && m[c].granularity == m[b].granularity
  }

  ghost predicate Shape(m: Bitmaps, nextId: nat, length: nat) {
    && (forall b | b in m :: b < nextId && m[b].size == length && SuccessorOk(m, b))
    && (forall a, b | a in m && b in m && a != b && m[a].successor.Some? :: m[a].successor != m[b].successor)
    && (forall a, b | a in m && b in m && a != b && m[a].name.Some? :: m[a].name != m[b].name)
  }

  /** Dirty in the bitmap or in its successor. */
  ghost function Together(m: Bitmaps, b: nat): (r: set<nat>)
    requires b in m
  {
    m[b].dirty + if m[b].successor.Some? && m[b].successor.value in m then m[m[b].successor.value].dirty else {}
  }

  ghost predicate NameTaken(m: Bitmaps, name: Option<string>) {
    name.Some? && exists b :: b in m && m[b].name == name
  }

  // ---- Steps ----

  /** `length` is `bdrv_nb_sectors`. */
  datatype State = State(m: Bitmaps, nextId: nat, length: nat)

  /** The calls that change something, with the bitmaps they return. */
  datatype Event =
    | Created(id: nat, granularity: nat, name: Option<string>)
    | Wrote(start: nat, count: nat)
    | Cleared(b: nat)
    | SetTo(b: nat, disabled: bool)
    | Froze(b: nat, child: nat)
    | Abdicated(b: nat, child: nat)
    | Reclaimed(b: nat, child: nat)
    | Released(b: nat)

  /** A bitmap that a client may name: not the hidden successor of another. */
  ghost predicate IsClient(m: Bitmaps, b: nat) {
    b in m && !IsSuccessor(m, b)
  }

  ghost predicate Enabled(s: State, e: Event) {
    match e
    case Created(id, _, name) => id == s.nextId && !NameTaken(s.m, name)
    case Wrote(_, _) => true
    case Cleared(b) => IsClient(s.m, b) && IsEnabled(s.m[b])
    case SetTo(b, _) => IsClient(s.m, b) && !IsFrozen(s.m[b])
    case Froze(b, c) => IsClient(s.m, b) && !IsFrozen(s.m[b]) && c == s.nextId
    case Abdicated(b, c) => IsClient(s.m, b) && s.m[b].successor == Some(c) && c in s.m
    case Reclaimed(b, c) => IsClient(s.m, b) && s.m[b].successor == Some(c) && c in s.m
    case Released(b) => IsClient(s.m, b) && !IsFrozen(s.m[b])
  }

  /** `bdrv_set_dirty` on one bitmap. */
  function Marked(b: Bitmap, start: nat, count: nat): (r: Bitmap) {
    if IsEnabled(b) then b.(dirty := b.dirty + Granules(start, count, b.granularity)) else b
  }

  ghost function Apply(s: State, e: Event): (r: State)
    requires Enabled(s, e)
  {
    match e
    case Created(id, granularity, name) =>
      s.(m := s.m[id := Bitmap({}, s.length, granularity, None, name, false)], nextId := id + 1)
    case Wrote(start, count) => s.(m := map b | b in s.m :: Marked(s.m[b], start, count))
    case Cleared(b) => s.(m := s.m[b := s.m[b].(dirty := {})])
    case SetTo(b, disabled) => s.(m := s.m[b := s.m[b].(disabled := disabled)])
    case Froze(b, c) =>
      var child := Bitmap({}, s.m[b].size, s.m[b].granularity, None, None, s.m[b].disabled);
      s.(m := s.m[c := child][b := s.m[b].(successor := Some(c))], nextId := c + 1)
    case Abdicated(b, c) => s.(m := (s.m - {b})[c := s.m[c].(name := s.m[b].name)])
    case Reclaimed(b, c) =>
      s.(m := (s.m - {c})[b := s.m[b].(dirty := s.m[b].dirty + s.m[c].dirty, successor := None)])
    case Released(b) => s.(m := s.m - {b})
  }

  ghost function Next(s: State, e: Event): (r: Option<State>) {
    if Enabled(s, e) then Some(Apply(s, e)) else None
  }

  function Empty(length: nat): (r: State) {
    State(map[], 0, length)
  }

  ghost predicate Sound(s: State) {
    Shape(s.m, s.nextId, s.length)
  }

  // ---- Histories, computed from the list of events alone ----

  /** The granularity bitmap `b` was created with. */
  function GranularityOf(log: seq<Event>, b: nat): (r: nat) {
    if log == [] then 0
    else
      var front, e := log[..|log| - 1], log[|log| - 1];
      if e.Created? && e.id == b then e.granularity
      else if e.Froze? && e.child == b then GranularityOf(front, e.b)
      else GranularityOf(front, b)
  }

  /** Whether bitmap `b` is disabled. */
  predicate DisabledAfter(log: seq<Event>, b: nat) {
    log != [] &&
    var front, e := log[..|log| - 1], log[|log| - 1];
    if e.Created? && e.id == b then false
    else if e.SetTo? && e.b == b then e.disabled
    else if e.Froze? && e.child == b then DisabledAfter(front, e.b)
    else DisabledAfter(front, b)
  }

  /** What a write adds to the history of `b`. */
  function Recorded(log: seq<Event>, b: nat, start: nat, count: nat): (r: set<nat>) {
    if DisabledAfter(log, b) then {} else Granules(start, count, GranularityOf(log, b))
  }

  /** Granules written since `b` was frozen, while it was not disabled. */
  function SinceFreeze(log: seq<Event>, b: nat): (r: set<nat>) {
    if log == [] then {}
    else
      var front, e := log[..|log| - 1], log[|log| - 1];
      if e.Froze? && e.b == b then {}
      else if e.Wrote? then SinceFreeze(front, b) + Recorded(front, b, e.start, e.count)
      else SinceFreeze(front, b)
  }

  /** Granules written since `b` was created or last cleared, while it was not
      disabled; a bitmap that took over a name started at the freeze. */
  function SinceClear(log: seq<Event>, b: nat): (r: set<nat>) {
    if log == [] then {}
    else
      var front, e := log[..|log| - 1], log[|log| - 1];
      if (e.Created? && e.id == b) || (e.Cleared? && e.b == b) || (e.Froze? && e.child == b) then {}
      else if e.Abdicated? && e.child == b then SinceFreeze(front, e.b)
      else if e.Wrote? then SinceClear(front, b) + Recorded(front, b, e.start, e.count)
      else SinceClear(front, b)
  }

  /** Bitmap `b` is what the history says. */
  ghost predicate Tracked(m: Bitmaps, log: seq<Event>, b: nat)
    requires b in m
  {
    && m[b].granularity == GranularityOf(log, b) && m[b].disabled == DisabledAfter(log, b)
    && Together(m, b) == SinceClear(log, b)
    && (m[b].successor.Some? && m[b].successor.value in m ==> m[m[b].successor.value].dirty == SinceFreeze(log, b))
  }

  ghost predicate Tracks(m: Bitmaps, log: seq<Event>) {
    forall b | b in m :: Tracked(m, log, b)
  }

  lemma LastEvent(log: seq<Event>, e: Event)
    ensures (log + [e])[..|log + [e]| - 1] == log && (log + [e])[|log + [e]| - 1] == e
  {
  }

  // ---- Each event keeps the shape and matches its history ----

  lemma CreatedSound(s: State, log: seq<Event>, e: Event)
    requires Sound(s) && Tracks(s.m, log) && e.Created? && Enabled(s, e)
    ensures Sound(Apply(s, e)) && Tracks(Apply(s, e).m, log + [e])
  {
    var s' := Apply(s, e);
    LastEvent(log, e);
    forall x | x in s.m
      ensures SuccessorOk(s'.m, x) && Tracked(s'.m, log + [e], x)
    {
      assert SuccessorOk(s.m, x) && Tracked(s.m, log, x);
    }
    assert SuccessorOk(s'.m, e.id) && Tracked(s'.m, log + [e], e.id);
  }

  lemma WroteSound(s: State, log: seq<Event>, e: Event)
    requires Sound(s) && Tracks(s.m, log) && e.Wrote?
    ensures Sound(Apply(s, e)) && Tracks(Apply(s, e).m, log + [e])
  {
    hide Tracked, Shape, Marked;
    WroteShape(s, e);
    forall b | b in s.m
      ensures Tracked(Apply(s, e).m, log + [e], b)
    {
      assert SuccessorOk(s.m, b) by { ShapeHas(s, b); }
      WroteOne(s, log, e, b);
    }
  }

  lemma ShapeHas(s: State, b: nat)
    requires Sound(s) && b in s.m
    ensures SuccessorOk(s.m, b) && b < s.nextId
    ensures s.m[b].successor.Some? ==> s.m[b].successor.value < s.nextId
  {
  }

  lemma WroteShape(s: State, e: Event)
    requires Sound(s) && e.Wrote?
    ensures Sound(Apply(s, e))
  {
    hide Granules;
    forall b | b in s.m
      ensures SuccessorOk(Apply(s, e).m, b)
    {
      assert SuccessorOk(s.m, b);
    }
  }

  lemma WroteOne(s: State, log: seq<Event>, e: Event, b: nat)
    requires e.Wrote? && b in s.m && SuccessorOk(s.m, b) && Tracked(s.m, log, b)
    ensures Tracked(Apply(s, e).m, log + [e], b)
  {
    hide Granules;
    LastEvent(log, e);
    var s' := Apply(s, e);
    if s.m[b].successor.Some? {
      var c := s.m[b].successor.value;
      assert s'.m[c] == Marked(s.m[c], e.start, e.count);
    }
  }

  /** Clearing, enabling and disabling. */
  lemma ChangedSound(s: State, log: seq<Event>, e: Event)
    requires Sound(s) && Tracks(s.m, log) && (e.Cleared? || e.SetTo?) && Enabled(s, e)
    ensures Sound(Apply(s, e)) && Tracks(Apply(s, e).m, log + [e])
  {
    hide Shape, Tracked;
    ChangedShape(s, e);
    forall x | x in s.m
      ensures Tracked(Apply(s, e).m, log + [e], x)
    {
      ShapeHas(s, x);
      ChangedOne(s, log, e, x);
    }
  }

  lemma ChangedShape(s: State, e: Event)
    requires Sound(s) && (e.Cleared? || e.SetTo?) && Enabled(s, e)
    ensures Sound(Apply(s, e))
  {
    forall x | x in s.m
      ensures SuccessorOk(Apply(s, e).m, x)
    {
      assert SuccessorOk(s.m, x);
    }
  }

  lemma ChangedOne(s: State, log: seq<Event>, e: Event, x: nat)
    requires (e.Cleared? || e.SetTo?) && Enabled(s, e) && x in s.m && SuccessorOk(s.m, x) && Tracked(s.m, log, x)
    ensures Tracked(Apply(s, e).m, log + [e], x)
  {
    LastEvent(log, e);
  }

  lemma FrozeSound(s: State, log: seq<Event>, e: Event)
    requires Sound(s) && Tracks(s.m, log) && e.Froze? && Enabled(s, e)
    ensures Sound(Apply(s, e)) && Tracks(Apply(s, e).m, log + [e])
    ensures Together(Apply(s, e).m, e.b) == s.m[e.b].dirty
  {
    hide Shape, Tracks;
    FrozeShape(s, e);
    FrozeTracks(s, log, e);
  }

  lemma FrozeShape(s: State, e: Event)
    requires Sound(s) && e.Froze? && Enabled(s, e)
    ensures Sound(Apply(s, e))
  {
    var s' := Apply(s, e);
    forall x | x in s'.m
      ensures SuccessorOk(s'.m, x)
    {
      if x in s.m {
        assert SuccessorOk(s.m, x);
      }
    }
    forall x | x in s.m && s.m[x].successor.Some?
      ensures s.m[x].successor.value < s.nextId
    {
      assert SuccessorOk(s.m, x);
    }
  }

  lemma FrozeTracks(s: State, log: seq<Event>, e: Event)
    requires Sound(s) && Tracks(s.m, log) && e.Froze? && Enabled(s, e)
    ensures Tracks(Apply(s, e).m, log + [e])
    ensures Together(Apply(s, e).m, e.b) == s.m[e.b].dirty
  {
    hide Shape;
    LastEvent(log, e);
    forall x | x in s.m
      ensures Tracked(Apply(s, e).m, log + [e], x)
    {
      ShapeHas(s, x);
      FrozeOne(s, log, e, x);
    }
    assert Tracked(s.m, log, e.b);
    assert Tracked(Apply(s, e).m, log + [e], e.child);
  }

  lemma FrozeOne(s: State, log: seq<Event>, e: Event, x: nat)
    requires e.Froze? && Enabled(s, e) && x in s.m && x < s.nextId && SuccessorOk(s.m, x) && Tracked(s.m, log, x)
    requires s.m[x].successor.Some? ==> s.m[x].successor.value < s.nextId
    ensures Tracked(Apply(s, e).m, log + [e], x)
  {
    LastEvent(log, e);
  }

  lemma AbdicatedSound(s: State, log: seq<Event>, e: Event)
    requires Sound(s) && Tracks(s.m, log) && e.Abdicated? && Enabled(s, e)
    ensures Sound(Apply(s, e)) && Tracks(Apply(s, e).m, log + [e])
    ensures s.m[e.child].dirty == SinceFreeze(log, e.b) && e.child != e.b
  {
    var s' := Apply(s, e);
    LastEvent(log, e);
    assert SuccessorOk(s.m, e.b) && Tracked(s.m, log, e.b);
    forall x | x in s'.m
      ensures SuccessorOk(s'.m, x) && Tracked(s'.m, log + [e], x)
    {
      assert SuccessorOk(s.m, x) && Tracked(s.m, log, x);
    }
  }

  lemma ReclaimedSound(s: State, log: seq<Event>, e: Event)
    requires Sound(s) && Tracks(s.m, log) && e.Reclaimed? && Enabled(s, e)
    ensures Sound(Apply(s, e)) && Tracks(Apply(s, e).m, log + [e])
    ensures e.child != e.b && s.m[e.child].size == s.m[e.b].size && s.m[e.child].granularity == s.m[e.b].granularity
    ensures Apply(s, e).m[e.b].dirty == Together(s.m, e.b)
  {
    var s' := Apply(s, e);
    LastEvent(log, e);
    assert SuccessorOk(s.m, e.b);
    forall x | x in s'.m
      ensures SuccessorOk(s'.m, x) && Tracked(s'.m, log + [e], x)
    {
      assert SuccessorOk(s.m, x) && Tracked(s.m, log, x);
    }
  }

  lemma ReleasedSound(s: State, log: seq<Event>, e: Event)
    requires Sound(s) && Tracks(s.m, log) && e.Released? && Enabled(s, e)
    ensures Sound(Apply(s, e)) && Tracks(Apply(s, e).m, log + [e])
  {
    var s' := Apply(s, e);
    LastEvent(log, e);
    forall x | x in s'.m
      ensures SuccessorOk(s'.m, x) && Tracked(s'.m, log + [e], x)
    {
      assert SuccessorOk(s.m, x) && Tracked(s.m, log, x);
    }
  }

  lemma EventSound(s: State, log: seq<Event>, e: Event)
    requires Sound(s) && Tracks(s.m, log) && Enabled(s, e)
    ensures Sound(Apply(s, e)) && Tracks(Apply(s, e).m, log + [e])
  {
    hide Sound, Tracks, Apply, Enabled;
    match e
    case Created(_, _, _) => CreatedSound(s, log, e);
    case Wrote(_, _) => WroteSound(s, log, e);
    case Cleared(_) => ChangedSound(s, log, e);
    case SetTo(_, _) => ChangedSound(s, log, e);
    case Froze(_, _) => FrozeSound(s, log, e);
    case Abdicated(_, _) => AbdicatedSound(s, log, e);
    case Reclaimed(_, _) => ReclaimedSound(s, log, e);
    case Released(_) => ReleasedSound(s, log, e);
  }

  lemma {:induction false} RunSound(length: nat, log: seq<Event>, s: State)
    requires After(Next, Empty(length), log) == Some(s)
    ensures Sound(s) && Tracks(s.m, log) && s.length == length
    decreases |log|
  {
    hide Sound, Tracks, Enabled;
    if log == [] {
      EmptySound(length);
    } else {
      var front, e := log[..|log| - 1], log[|log| - 1];
      var t := After(Next, Empty(length), front).value;
      RunSound(length, front, t);
      EventSound(t, front, e);
      assert front + [e] == log;
    }
  }

  lemma EmptySound(length: nat)
    ensures Sound(Empty(length)) && Tracks(Empty(length).m, [])
  {
  }

  /** After every run: a bitmap and its successor together hold exactly the granules
      written since the last clear while the bitmap was not disabled, the successor
      exactly those written since the freeze, and no two bitmaps share a name. */
  lemma NothingLostNorInvented(length: nat, log: seq<Event>, s: State, b: nat)
    requires After(Next, Empty(length), log) == Some(s) && b in s.m
    ensures Together(s.m, b) == SinceClear(log, b)
    ensures IsFrozen(s.m[b]) ==>
              s.m[b].successor.value in s.m && s.m[s.m[b].successor.value].dirty == SinceFreeze(log, b)
    ensures forall a | a in s.m && a != b && s.m[a].name.Some? :: s.m[a].name != s.m[b].name
  {
    hide After, Next, SinceClear, SinceFreeze;
    RunSound(length, log, s);
    assert SuccessorOk(s.m, b) && Tracked(s.m, log, b);
  }

  // ---- The list of bitmaps ----

  class DirtyBitmapList {
    const length: nat
    var bitmaps: Bitmaps
    var nextId: nat
    ghost var log: seq<Event>

    ghost function View(): (s: State)
      reads this
    {
      State(bitmaps, nextId, length)
    }

    /** The list is what the events so far have made it. */
    ghost predicate Valid()
      reads this
    {
      After(Next, Empty(length), log) == Some(View())
    }

    /** Event `e` has happened, and nothing else, since the list was `s` with `l`. */
    ghost predicate Happened(s: State, l: seq<Event>, e: Event)
      reads this
    {
      Enabled(s, e) && View() == Apply(s, e) && log == l + [e]
    }

    lemma Continues(l: seq<Event>, s: State, e: Event)
      requires After(Next, Empty(length), l) == Some(s) && Happened(s, l, e)
      ensures Valid()
    {
      AfterOneMore(Next, Empty(length), l, s, e);
    }

    constructor (length: nat)
      ensures Valid() && bitmaps == map[] && this.length == length && log == []
    {
      this.length := length;
      bitmaps, nextId, log := map[], 0, [];
    }

    /** `bdrv_create_dirty_bitmap`; `None` if the name is taken. */
    method Create(granularity: nat, name: Option<string>) returns (r: Option<nat>)
      requires Valid()
      modifies this
      ensures Valid()
      ensures r.None? <==> NameTaken(old(bitmaps), name)
      ensures r.None? ==> View() == old(View()) && log == old(log)
      ensures r.Some? ==> r.value !in old(bitmaps)
                          && Happened(old(View()), old(log), Created(r.value, granularity, name))
    {
      hide After, Sound, Tracks;
      if name.Some? && exists b :: b in bitmaps && bitmaps[b].name == name {
        return None;
      }
      FreshId(log, View());
      bitmaps := bitmaps[nextId := Bitmap({}, length, granularity, None, name, false)];
      r := Some(nextId);
      log := log + [Created(nextId, granularity, name)];
      nextId := nextId + 1;
      Continues(old(log), old(View()), Created(r.value, granularity, name));
    }

    /** `bdrv_set_dirty`: a guest write. */
    method Write(start: nat, count: nat)
      requires Valid()
      modifies this
      ensures Valid() && Happened(old(View()), old(log), Wrote(start, count))
    {
      hide After, Granules;
      ghost var before := bitmaps;
      var todo := bitmaps.Keys;
      while todo != {}
        invariant todo <= bitmaps.Keys == before.Keys && nextId == old(nextId) && log == old(log)
        invariant forall b | b in before ::
                    bitmaps[b] == if b in todo then before[b] else Marked(before[b], start, count)
        decreases todo
      {
        var b :| b in todo;
        todo := todo - {b};
        if !IsEnabled(bitmaps[b]) {
          continue;
        }
        var marked := bitmaps[b].dirty + Granules(start, count, bitmaps[b].granularity);
        bitmaps := bitmaps[b := bitmaps[b].(dirty := marked)];
      }
      assert bitmaps == Apply(old(View()), Wrote(start, count)).m;
      log := log + [Wrote(start, count)];
      Continues(old(log), old(View()), Wrote(start, count));
    }

    /** `bdrv_clear_dirty_bitmap`; asserts that the bitmap is enabled. */
    method Clear(b: nat)
      requires Valid() && IsClient(bitmaps, b) && IsEnabled(bitmaps[b])
      modifies this
      ensures Valid() && Happened(old(View()), old(log), Cleared(b))
    {
      hide After;
      bitmaps := bitmaps[b := bitmaps[b].(dirty := {})];
      log := log + [Cleared(b)];
      Continues(old(log), old(View()), Cleared(b));
    }

    /** `bdrv_disable_dirty_bitmap` and `bdrv_enable_dirty_bitmap`; assert that the
        bitmap is not frozen. */
    method SetDisabled(b: nat, disabled: bool)
      requires Valid() && IsClient(bitmaps, b) && !IsFrozen(bitmaps[b])
      modifies this
      ensures Valid() && Happened(old(View()), old(log), SetTo(b, disabled))
    {
      hide After;
      bitmaps := bitmaps[b := bitmaps[b].(disabled := disabled)];
      log := log + [SetTo(b, disabled)];
      Continues(old(log), old(View()), SetTo(b, disabled));
    }

    /** `bdrv_dirty_bitmap_create_successor`; fails on a frozen bitmap. */
    method CreateSuccessor(b: nat) returns (ok: bool)
      requires Valid() && IsClient(bitmaps, b)
      modifies this
      ensures Valid() && (ok <==> !IsFrozen(old(bitmaps)[b]))
      ensures !ok ==> View() == old(View()) && log == old(log)
      ensures ok ==> Happened(old(View()), old(log), Froze(b, old(nextId)))
                     && Together(bitmaps, b) == old(bitmaps)[b].dirty
    {
      hide After, Sound, Tracks;
      if IsFrozen(bitmaps[b]) {
        return false;
      }
      var c := nextId;
      RunSound(length, log, View());
      FrozeSound(View(), log, Froze(b, c));
      var child := Bitmap({}, bitmaps[b].size, bitmaps[b].granularity, None, None, bitmaps[b].disabled);
      bitmaps := bitmaps[c := child][b := bitmaps[b].(successor := Some(c))];
      nextId := nextId + 1;
      log := log + [Froze(b, c)];
      Continues(old(log), old(View()), Froze(b, c));
      return true;
    }

    /** `bdrv_dirty_bitmap_abdicate`: what is left under the name is exactly what was
        written since the freeze. */
    method Abdicate(b: nat) returns (r: Option<nat>)
      requires Valid() && IsClient(bitmaps, b)
      modifies this
      ensures Valid() && (r.None? <==> !IsFrozen(old(bitmaps)[b]))
      ensures r.None? ==> View() == old(View()) && log == old(log)
      ensures r.Some? ==>
                && Happened(old(View()), old(log), Abdicated(b, r.value))
                && b !in bitmaps && bitmaps[r.value].name == old(bitmaps)[b].name
                && bitmaps[r.value].dirty == SinceFreeze(old(log), b)
    {
      hide After, Sound, Tracks, SinceFreeze;
      if !IsFrozen(bitmaps[b]) {
        return None;
      }
      var c := SuccessorOf(b);
      RunSound(length, log, View());
      AbdicatedSound(View(), log, Abdicated(b, c));
      bitmaps := (bitmaps - {b})[c := bitmaps[c].(name := bitmaps[b].name)];
      log := log + [Abdicated(b, c)];
      Continues(old(log), old(View()), Abdicated(b, c));
      return Some(c);
    }

    method SuccessorOf(b: nat) returns (c: nat)
      requires Valid() && b in bitmaps && IsFrozen(bitmaps[b])
      ensures bitmaps[b].successor == Some(c) && c in bitmaps
    {
      hide After, Tracks;
      RunSound(length, log, View());
      assert SuccessorOk(bitmaps, b);
      return bitmaps[b].successor.value;
    }

    /** `bdrv_reclaim_dirty_bitmap`: the bitmap ends up with exactly the union; the
        merge cannot fail. */
    method Reclaim(b: nat) returns (r: Option<nat>)
      requires Valid() && IsClient(bitmaps, b)
      modifies this
      ensures Valid() && (r.None? <==> !IsFrozen(old(bitmaps)[b]))
      ensures r.None? ==> View() == old(View()) && log == old(log)
      ensures r.Some? ==>
                && r.value == b && b in bitmaps
                && Happened(old(View()), old(log), Reclaimed(b, old(bitmaps)[b].successor.value))
                && bitmaps[b].dirty == old(Together(bitmaps, b)) == SinceClear(old(log), b)
    {
      hide After, Sound, SinceClear;
      if !IsFrozen(bitmaps[b]) {
        return None;
      }
      var c := SuccessorOf(b);
      RunSound(length, log, View());
      ReclaimedSound(View(), log, Reclaimed(b, c));
      assert Tracked(bitmaps, log, b);
      if bitmaps[b].size != bitmaps[c].size || bitmaps[b].granularity != bitmaps[c].granularity {
        assert false;
      }
      bitmaps := (bitmaps - {c})[b := bitmaps[b].(dirty := bitmaps[b].dirty + bitmaps[c].dirty, successor := None)];
      log := log + [Reclaimed(b, c)];
      Continues(old(log), old(View()), Reclaimed(b, c));
      return Some(b);
    }

    /** `bdrv_release_dirty_bitmap`; asserts that the bitmap is not frozen. */
    method Release(b: nat)
      requires Valid() && IsClient(bitmaps, b) && !IsFrozen(bitmaps[b])
      modifies this`bitmaps, this`log
      ensures Valid() && Happened(old(View()), old(log), Released(b))
    {
      hide After;
      bitmaps := bitmaps - {b};
      log := log + [Released(b)];
      Continues(old(log), old(View()), Released(b));
    }
  }

  lemma FreshId(log: seq<Event>, s: State)
    requires After(Next, Empty(s.length), log) == Some(s)
    ensures s.nextId !in s.m
  {
    hide After;
    RunSound(s.length, log, s);
  }
}
