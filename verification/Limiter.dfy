/** The per-source execution limiter: a buffered channel used as a counter, release closures that act once, and the
    guard that holds a slot around every handler, as a state machine over all interleavings. */
module Limiter {
  import opened Results

  /** A guarded request: waiting for a slot or its context, running its handler, in the one release call that got
      through, done, or cancelled while waiting. */
  datatype Phase = Waiting | Running | Releasing | Released | Cancelled

  datatype State = State(capacity: nat, slots: nat, phases: map<nat, Phase>)

  datatype Event = Arrive(id: nat) | Acquire(id: nat) | Cancel(id: nat) | CallRelease(id: nat) | Receive(id: nat)

  predicate In(s: State, id: nat, phase: Phase) {
    id in s.phases && s.phases[id] == phase
  }

  /** An event that is not enabled blocks. A release call is always enabled on a request that got its slot: the first
      one goes on to receive from the channel, later ones do nothing. */
  predicate Enabled(s: State, e: Event) {
    match e
    case Arrive(id) => id !in s.phases
    case Acquire(id) => In(s, id, Waiting) && s.slots < s.capacity
    case Cancel(id) => In(s, id, Waiting)
    case CallRelease(id) => In(s, id, Running) || In(s, id, Releasing) || In(s, id, Released)
    case Receive(id) => In(s, id, Releasing) && s.slots > 0
  }

  function Apply(s: State, e: Event): State
    requires Enabled(s, e)
  {
    match e
    case Arrive(id) => s.(phases := s.phases[id := Waiting])
    case Acquire(id) => s.(slots := s.slots + 1, phases := s.phases[id := Running])
    case Cancel(id) => s.(phases := s.phases[id := Cancelled])
    case CallRelease(id) => if In(s, id, Running) then s.(phases := s.phases[id := Releasing]) else s
    case Receive(id) => s.(slots := s.slots - 1, phases := s.phases[id := Released])
  }

  predicate TakesSlot(phase: Phase) {
    phase == Running || phase == Releasing
  }

  /** The requests whose slot is taken and not yet given back. */
  function Holders(s: State): set<nat> {
    set id | id in s.phases && TakesSlot(s.phases[id])
  }

  function Handlers(s: State): set<nat> {
    set id | id in s.phases && s.phases[id] == Running
  }

  ghost predicate Inv(s: State) {
    s.slots == |Holders(s)| <= s.capacity
  }

  function Start(capacity: nat): State {
    State(capacity, 0, map[])
  }

  /** The state an interleaving of events leads to, if every event was enabled when it came. */
  function RunFrom(s: State, events: seq<Event>): Option<State> {
    if events == [] then Some(s)
    else
      var before := RunFrom(s, events[..|events| - 1]);
      var e := events[|events| - 1];
      if before.Some? && Enabled(before.value, e) then Some(Apply(before.value, e)) else None
  }

  function Run(capacity: nat, events: seq<Event>): Option<State> {
    RunFrom(Start(capacity), events)
  }

  lemma HoldersAfter(s: State, s': State, id: nat, phase: Phase)
    requires s'.phases == s.phases[id := phase]
    ensures Holders(s') == if TakesSlot(phase) then Holders(s) + {id} else Holders(s) - {id}
  {
  }

  lemma SizeWithAndWithout(a: set<nat>, id: nat)
    ensures |a + {id}| == if id in a then |a| else |a| + 1
    ensures |a - {id}| == if id in a then |a| - 1 else |a|
  {
    if id in a {
      assert a + {id} == a;
    } else {
      assert a - {id} == a;
    }
  }

  lemma HoldersAreIn(s: State, id: nat)
    ensures id in Holders(s) <==> In(s, id, Running) || In(s, id, Releasing)
  {
  }

  /** No event changes by how much the channel falls short of the held slots. */
  lemma ShortfallStays(s: State, e: Event, missing: nat)
    requires s.slots + missing == |Holders(s)| && Enabled(s, e)
    ensures Apply(s, e).slots + missing == |Holders(Apply(s, e))|
  {
    hide Holders;
    HoldersAreIn(s, e.id);
    SizeWithAndWithout(Holders(s), e.id);
    match e {
      case Arrive(id) => HoldersAfter(s, Apply(s, e), id, Waiting);
      case Acquire(id) => HoldersAfter(s, Apply(s, e), id, Running);
      case Cancel(id) => HoldersAfter(s, Apply(s, e), id, Cancelled);
      case CallRelease(id) =>
        if In(s, id, Running) {
          HoldersAfter(s, Apply(s, e), id, Releasing);
        }
      case Receive(id) => HoldersAfter(s, Apply(s, e), id, Released);
    }
  }

  lemma StepKeepsInv(s: State, e: Event)
    requires Inv(s) && Enabled(s, e)
    ensures Inv(Apply(s, e)) && Apply(s, e).capacity == s.capacity
  {
    ShortfallStays(s, e, 0);
  }

  lemma {:induction false} ReachableInv(capacity: nat, events: seq<Event>, s: State)
    requires Run(capacity, events) == Some(s)
    ensures Inv(s) && s.capacity == capacity
    decreases |events|
  {
    if events != [] {
      var before := Run(capacity, events[..|events| - 1]).value;
      ReachableInv(capacity, events[..|events| - 1], before);
      StepKeepsInv(before, events[|events| - 1]);
    }
  }

  /**
    * In every interleaving: the channel holds exactly one element per held slot, never more than its capacity; no more
    * handlers run than that; a release that got through never blocks; and a waiting request can get a slot exactly
    * when fewer than `capacity` are held. It can give up at any time, at no cost in slots. Releasing is open to whoever
    * had a slot, and once it got through, calling again changes nothing.
    */
  lemma LimiterIsExact(capacity: nat, events: seq<Event>, s: State)
    requires Run(capacity, events) == Some(s)
    ensures s.slots == |Holders(s)| <= capacity && |Handlers(s)| <= capacity
    ensures forall id :: In(s, id, Releasing) ==> Enabled(s, Receive(id))
    ensures forall id :: In(s, id, Waiting) ==> (Enabled(s, Acquire(id)) <==> |Holders(s)| < capacity)
    ensures forall id :: In(s, id, Waiting) ==>
                           Enabled(s, Cancel(id)) && Apply(s, Cancel(id)) == s.(phases := s.phases[id := Cancelled])
    ensures forall id :: In(s, id, Running) || In(s, id, Releasing) || In(s, id, Released) ==>
                           Enabled(s, CallRelease(id))
    ensures forall id :: In(s, id, Releasing) || In(s, id, Released) ==> Apply(s, CallRelease(id)) == s
  {
    ReachableInv(capacity, events, s);
    SubsetSize(Handlers(s), Holders(s));
    forall id | In(s, id, Releasing)
      ensures Enabled(s, Receive(id))
    {
      assert id in Holders(s);
    }
  }

  /** A slot comes back: the first release call of a running request gets through and frees exactly its slot. */
  lemma SlotComesBack(capacity: nat, events: seq<Event>, s: State, id: nat)
    requires Run(capacity, events) == Some(s) && In(s, id, Running)
    ensures Enabled(s, CallRelease(id))
    ensures var called := Apply(s, CallRelease(id));
            && Enabled(called, Receive(id))
            && var freed := Apply(called, Receive(id));
               freed.slots == s.slots - 1 && Holders(freed) == Holders(s) - {id} && In(freed, id, Released)
  {
    hide Holders;
    ReachableInv(capacity, events, s);
    HoldersAreIn(s, id);
    var called := Apply(s, CallRelease(id));
    SizeWithAndWithout(Holders(s), id);
    assert called.phases == s.phases[id := Releasing] && called.slots == s.slots;
    assert s.slots > 0 by {
      assert id in Holders(s);
      SubsetSize({id}, Holders(s));
    }
    var freed := Apply(called, Receive(id));
    assert freed.phases == s.phases[id := Released];
    HoldersAfter(s, freed, id, Released);
  }

  lemma {:induction false} SubsetSize(a: set<nat>, b: set<nat>)
    requires a <= b
    ensures |a| <= |b|
    decreases a
  {
    if a != {} {
      var x :| x in a;
      SubsetSize(a - {x}, b - {x});
    }
  }

  function CountCalls(events: seq<Event>, id: nat): nat {
    if events == [] then 0
    else CountCalls(events[..|events| - 1], id) + if events[|events| - 1] == CallRelease(id) then 1 else 0
  }

  function CountReceives(events: seq<Event>, id: nat): nat {
    if events == [] then 0
    else CountReceives(events[..|events| - 1], id) + if events[|events| - 1] == Receive(id) then 1 else 0
  }

  /** However often a request's release is called, it gives back one slot at most, its own: exactly one once it is
      released, none before. */
  lemma {:induction false} ReleasedOnce(capacity: nat, events: seq<Event>, s: State, id: nat)
    requires Run(capacity, events) == Some(s)
    ensures CountReceives(events, id) == if In(s, id, Released) then 1 else 0
    ensures CountCalls(events, id) > 0 ==> In(s, id, Releasing) || In(s, id, Released)
    decreases |events|
  {
    if events != [] {
      var before := Run(capacity, events[..|events| - 1]).value;
      ReleasedOnce(capacity, events[..|events| - 1], before, id);
    }
  }

  /** The channel's elements have no owner: a release call that got through twice would take somebody else's. */
  function ReceiveAgain(s: State): State
    requires s.slots > 0
  {
    s.(slots := s.slots - 1)
  }

  /** Why a release must act once: received twice, a full channel lets a handler too many in; and from then on,
      whatever happens, the last release to come blocks. */
  lemma OnceIsNeeded(s: State, waiting: nat)
    requires Inv(s) && s.slots == s.capacity > 0 && In(s, waiting, Waiting)
    ensures !Enabled(s, Acquire(waiting)) && Enabled(ReceiveAgain(s), Acquire(waiting))
    ensures |Holders(Apply(ReceiveAgain(s), Acquire(waiting)))| == s.capacity + 1
    ensures forall later, events, last ::
              RunFrom(ReceiveAgain(s), events) == Some(later) && Holders(later) == {last} && In(later, last, Releasing)
              ==> !Enabled(later, Receive(last))
  {
    hide Holders;
    var twice := ReceiveAgain(s);
    assert twice.phases == s.phases[waiting := Waiting];
    HoldersAreIn(s, waiting);
    HoldersAfter(s, twice, waiting, Waiting);
    HoldersAfter(s, Apply(twice, Acquire(waiting)), waiting, Running);
    SizeWithAndWithout(Holders(s), waiting);
    forall later, events, last | RunFrom(twice, events) == Some(later) && Holders(later) == {last}
      ensures !Enabled(later, Receive(last))
    {
      ShortfallLasts(twice, events, later, 1);
    }
  }

  lemma {:induction false} ShortfallLasts(s: State, events: seq<Event>, later: State, missing: nat)
    requires s.slots + missing == |Holders(s)| && RunFrom(s, events) == Some(later)
    ensures later.slots + missing == |Holders(later)|
    decreases |events|
  {
    if events != [] {
      var before := RunFrom(s, events[..|events| - 1]).value;
      ShortfallLasts(s, events[..|events| - 1], before, missing);
      ShortfallStays(before, events[|events| - 1], missing);
    }
  }
}
