/** The blocking bounded queue: a monitor with one mutex and two condition variables.
    One step is what a thread does between taking the mutex and giving it up. */
module Fifo {

  /** max = 0 means unbounded. Takers wait inside deq, givers inside enq for the value they carry;
      a woken thread was signalled (or woke by itself) and has not run since.
      sent and taken are the values enqueued and dequeued so far. */
  datatype State<T> = State(max: nat, q: seq<T>,
                            takers: set<nat>, wokenTakers: set<nat>,
                            givers: set<nat>, wokenGivers: set<nat>, carried: map<nat, T>,
                            sent: seq<T>, taken: seq<T>)

  /** Steps. `wakes` is the thread that the signal of the step picks, where one is waiting;
      Again is a woken thread going round its loop once more; Stray is a wake-up without a signal. */
  datatype Event<T> =
    | Enq(t: nat, e: T, blocking: bool, wakes: nat)
    | EnqAgain(t: nat, wakes: nat)
    | Deq(t: nat, wakes: nat)
    | DeqAgain(t: nat, wakes: nat)
    | StrayTaker(t: nat)
    | StrayGiver(t: nat)

  function Threads<T>(s: State<T>): set<nat> {
    s.takers + s.wokenTakers + s.givers + s.wokenGivers
  }

  /** The signal of a step picks a waiting thread if there is one. */
  predicate Picks(waiting: set<nat>, w: nat) {
    waiting != {} ==> w in waiting
  }

  predicate Enabled<T>(s: State<T>, ev: Event<T>) {
    match ev
    case Enq(t, _, _, w) => t !in Threads(s) && Picks(s.takers, w)
    case EnqAgain(t, w) => t in s.wokenGivers && t in s.carried && Picks(s.takers, w)
    case Deq(t, w) => t !in Threads(s) && Picks(s.givers, w)
    case DeqAgain(t, w) => t in s.wokenTakers && Picks(s.givers, w)
    case StrayTaker(t) => t in s.takers
    case StrayGiver(t) => t in s.givers
  }

  predicate HasRoom<T>(s: State<T>) {
    s.max == 0 || |s.q| < s.max
  }

  /** pthread_cond_signal(&non_empty_c_) */
  function WakeTaker<T>(s: State<T>, w: nat): State<T> {
    if w in s.takers then s.(takers := s.takers - {w}, wokenTakers := s.wokenTakers + {w}) else s
  }

  /** pthread_cond_signal(&has_space_c_) */
  function WakeGiver<T>(s: State<T>, w: nat): State<T> {
    if w in s.givers then s.(givers := s.givers - {w}, wokenGivers := s.wokenGivers + {w}) else s
  }

  /** One round of the loop in enq by a thread that holds the mutex. */
  function EnqRound<T>(s: State<T>, t: nat, e: T, blocking: bool, w: nat): State<T> {
    if HasRoom(s) then WakeTaker(s.(q := s.q + [e], sent := s.sent + [e], carried := s.carried - {t}), w)
    else if blocking then s.(givers := s.givers + {t}, carried := s.carried[t := e])
    else s
  }

  /** One round of the loop in deq. */
  function DeqRound<T>(s: State<T>, t: nat, w: nat): State<T> {
    if s.q == [] then s.(takers := s.takers + {t})
    else
      var popped := s.(q := s.q[1..], taken := s.taken + [s.q[0]]);
      if s.max != 0 && |popped.q| < s.max then WakeGiver(popped, w) else popped
  }

  function Step<T>(s: State<T>, ev: Event<T>): State<T>
    requires Enabled(s, ev)
  {
    match ev
    case Enq(t, e, blocking, w) => EnqRound(s, t, e, blocking, w)
    case EnqAgain(t, w) => EnqRound(s.(wokenGivers := s.wokenGivers - {t}), t, s.carried[t], true, w)
    case Deq(t, w) => DeqRound(s, t, w)
    case DeqAgain(t, w) => DeqRound(s.(wokenTakers := s.wokenTakers - {t}), t, w)
    case StrayTaker(t) => WakeTaker(s, t)
    case StrayGiver(t) => WakeGiver(s, t)
  }

  function Empty<T>(max: nat): State<T> {
    State(max, [], {}, {}, {}, {}, map[], [], [])
  }

  // ---------------------------------------------------------------- the invariant

  /** First in, first out: what went in is what came out and what is still there, in order;
      and a bounded queue never holds more than its bound. */
  ghost predicate Ordered<T>(s: State<T>) {
    && s.sent == s.taken + s.q
    && (s.max != 0 ==> |s.q| <= s.max)
  }

  /** While takers wait, every value in the queue is promised to one of n woken takers. */
  ghost predicate TakersPromised<T>(s: State<T>, n: nat) {
    s.takers != {} ==> |s.q| <= n
  }

  /** While givers wait, every free slot is promised to one of n woken givers. */
  ghost predicate GiversPromised<T>(s: State<T>, n: nat) {
    s.max != 0 && s.givers != {} ==> s.max - |s.q| <= n
  }

  /** No lost wake-up. */
  ghost predicate NoLostWakeup<T>(s: State<T>) {
    TakersPromised(s, |s.wokenTakers|) && GiversPromised(s, |s.wokenGivers|)
  }

  /** A thread is in one place, and waits or comes back only where it can. */
  ghost predicate Apart<T>(s: State<T>) {
    && s.takers !! s.wokenTakers && s.givers !! s.wokenGivers
    && (s.takers + s.wokenTakers) !! (s.givers + s.wokenGivers)
    && s.carried.Keys == s.givers + s.wokenGivers
    && (s.max == 0 ==> s.givers == {} && s.wokenGivers == {})
  }

  ghost predicate Inv<T>(s: State<T>) {
    Ordered(s) && Apart(s) && NoLostWakeup(s)
  }

  // ---------------------------------------------------------------- one step

  /** A value goes in: one more value to promise, one more taker woken. */
  lemma PushKeeps<T>(s: State<T>, t: nat, e: T, w: nat, givers: nat)
    requires Ordered(s) && HasRoom(s) && Picks(s.takers, w) && s.takers !! s.wokenTakers
    requires TakersPromised(s, |s.wokenTakers|)
    requires GiversPromised(s, givers) && givers <= |s.wokenGivers| + 1
    ensures var s' := EnqRound(s, t, e, true, w);
            Ordered(s') && TakersPromised(s', |s'.wokenTakers|) && GiversPromised(s', |s'.wokenGivers|)
  {
    assert s.taken + (s.q + [e]) == s.taken + s.q + [e];
  }

  /** A giver that finds no room waits: no slot is free, so none is promised. */
  lemma GiverWaits<T>(s: State<T>, t: nat, e: T, w: nat)
    requires Ordered(s) && !HasRoom(s)
    requires TakersPromised(s, |s.wokenTakers|)
    ensures var s' := EnqRound(s, t, e, true, w);
            Ordered(s') && TakersPromised(s', |s'.wokenTakers|) && GiversPromised(s', |s'.wokenGivers|)
  {
  }

  /** A value goes out: one more slot to promise, one more giver woken. */
  lemma PopKeeps<T>(s: State<T>, t: nat, w: nat, takers: nat)
    requires Ordered(s) && s.q != [] && Picks(s.givers, w) && s.givers !! s.wokenGivers
    requires GiversPromised(s, |s.wokenGivers|)
    requires TakersPromised(s, takers) && takers <= |s.wokenTakers| + 1
    ensures var s' := DeqRound(s, t, w);
            Ordered(s') && TakersPromised(s', |s'.wokenTakers|) && GiversPromised(s', |s'.wokenGivers|)
  {
    assert s.taken + [s.q[0]] + s.q[1..] == s.taken + s.q;
  }

  lemma EnqApart<T>(s: State<T>, t: nat, e: T, blocking: bool, w: nat)
    requires Apart(s.(carried := s.carried - {t})) && t !in Threads(s)
    requires !blocking ==> t !in s.carried
    ensures Apart(EnqRound(s, t, e, blocking, w))
  {
    if !HasRoom(s) && !blocking {
      assert s.carried - {t} == s.carried;
    }
  }

  lemma DeqApart<T>(s: State<T>, t: nat, w: nat)
    requires Apart(s) && t !in Threads(s)
    ensures Apart(DeqRound(s, t, w))
  {
  }

  lemma EnqKeepsInv<T>(s: State<T>, t: nat, e: T, blocking: bool, w: nat)
    requires Inv(s) && t !in Threads(s) && Picks(s.takers, w)
    ensures Inv(EnqRound(s, t, e, blocking, w))
  {
    assert s.carried - {t} == s.carried;
    EnqApart(s, t, e, blocking, w);
    if HasRoom(s) {
      PushKeeps(s, t, e, w, |s.wokenGivers|);
    } else if blocking {
      GiverWaits(s, t, e, w);
    }
  }

  lemma GiverLeaves<T>(s: State<T>, t: nat)
    requires Inv(s) && t in s.wokenGivers
    ensures var m := s.(wokenGivers := s.wokenGivers - {t});
            && |m.wokenGivers| == |s.wokenGivers| - 1
            && t !in Threads(m) && Apart(m.(carried := m.carried - {t}))
  {
  }

  lemma EnqAgainKeepsInv<T>(s: State<T>, t: nat, w: nat)
    requires Inv(s) && t in s.wokenGivers && t in s.carried && Picks(s.takers, w)
    ensures Inv(Step(s, EnqAgain(t, w)))
  {
    var m := s.(wokenGivers := s.wokenGivers - {t});
    GiverLeaves(s, t);
    EnqApart(m, t, s.carried[t], true, w);
    if HasRoom(m) {
      PushKeeps(m, t, s.carried[t], w, |s.wokenGivers|);
    } else {
      GiverWaits(m, t, s.carried[t], w);
    }
  }

  lemma DeqKeepsInv<T>(s: State<T>, t: nat, w: nat)
    requires Inv(s) && t !in Threads(s) && Picks(s.givers, w)
    ensures Inv(DeqRound(s, t, w))
  {
    DeqApart(s, t, w);
    if s.q != [] {
      PopKeeps(s, t, w, |s.wokenTakers|);
    }
  }

  lemma DeqAgainKeepsInv<T>(s: State<T>, t: nat, w: nat)
    requires Inv(s) && t in s.wokenTakers && Picks(s.givers, w)
    ensures Inv(Step(s, DeqAgain(t, w)))
  {
    var m := s.(wokenTakers := s.wokenTakers - {t});
    assert |m.wokenTakers| == |s.wokenTakers| - 1;
    DeqApart(m, t, w);
    if m.q != [] {
      PopKeeps(m, t, w, |s.wokenTakers|);
    }
  }

  lemma StrayTakerKeepsInv<T>(s: State<T>, t: nat)
    requires Inv(s) && t in s.takers
    ensures Inv(WakeTaker(s, t))
  {
    assert |s.wokenTakers + {t}| == |s.wokenTakers| + 1;
  }

  lemma StrayGiverKeepsInv<T>(s: State<T>, t: nat)
    requires Inv(s) && t in s.givers
    ensures Inv(WakeGiver(s, t))
  {
    assert |s.wokenGivers + {t}| == |s.wokenGivers| + 1;
  }

  /** Every step of every thread keeps the invariant. */
  lemma StepKeepsInv<T>(s: State<T>, ev: Event<T>)
    requires Inv(s) && Enabled(s, ev)
    ensures Inv(Step(s, ev))
  {
    match ev
    case Enq(t, e, blocking, w) => EnqKeepsInv(s, t, e, blocking, w);
    case EnqAgain(t, w) => EnqAgainKeepsInv(s, t, w);
    case Deq(t, w) => DeqKeepsInv(s, t, w);
    case DeqAgain(t, w) => DeqAgainKeepsInv(s, t, w);
    case StrayTaker(t) => StrayTakerKeepsInv(s, t);
    case StrayGiver(t) => StrayGiverKeepsInv(s, t);
  }

  lemma StepKeepsMax<T>(s: State<T>, ev: Event<T>)
    requires Enabled(s, ev)
    ensures Step(s, ev).max == s.max
  {
  }

  // ---------------------------------------------------------------- what a turn gives its thread

  lemma EnqRoundGives<T>(s: State<T>, t: nat, e: T, blocking: bool, w: nat)
    requires t !in Threads(s) && (!blocking ==> t !in s.carried)
    ensures var s' := EnqRound(s, t, e, blocking, w);
            && s'.taken == s.taken && s'.max == s.max
            && s'.q == s.q + (if HasRoom(s) then [e] else [])
            && s'.sent == s.sent + (if HasRoom(s) then [e] else [])
            && (t in Threads(s') <==> !HasRoom(s) && blocking)
            && s'.carried == (if !HasRoom(s) && blocking then s.carried[t := e] else s.carried - {t})
  {
    if !HasRoom(s) && !blocking {
      assert s.carried - {t} == s.carried;
    }
  }

  lemma DeqRoundGives<T>(s: State<T>, t: nat, w: nat)
    requires t !in Threads(s)
    ensures var s' := DeqRound(s, t, w);
            && s'.sent == s.sent && s'.max == s.max
            && s'.q == (if s.q == [] then [] else s.q[1..])
            && s'.taken == s.taken + (if s.q == [] then [] else [s.q[0]])
            && (t in Threads(s') <==> s.q == [])
            && s'.carried == s.carried
  {
  }

  /** A turn of enq puts the value in exactly if there is room, and leaves the thread
      behind in the monitor, with that value, exactly if there is none and it is willing to wait. */
  lemma EnqGives<T>(s: State<T>, ev: Event<T>, e: T, blocking: bool)
    requires Apart(s) && Enabled(s, ev)
    requires ev.Enq? || ev.EnqAgain?
    requires ev.Enq? ==> ev.e == e && ev.blocking == blocking
    requires ev.EnqAgain? ==> s.carried[ev.t] == e && blocking
    ensures var s' := Step(s, ev);
            && s'.taken == s.taken && s'.max == s.max
            && s'.q == s.q + (if HasRoom(s) then [e] else [])
            && s'.sent == s.sent + (if HasRoom(s) then [e] else [])
            && (ev.t in Threads(s') <==> !HasRoom(s) && blocking)
            && s'.carried == (if !HasRoom(s) && blocking then s.carried[ev.t := e] else s.carried - {ev.t})
  {
    if ev.Enq? {
      EnqRoundGives(s, ev.t, e, blocking, ev.wakes);
    } else {
      EnqRoundGives(s.(wokenGivers := s.wokenGivers - {ev.t}), ev.t, e, true, ev.wakes);
    }
  }

  /** A turn of deq takes the front value out exactly if there is one, and waits otherwise. */
  lemma DeqGives<T>(s: State<T>, ev: Event<T>)
    requires Apart(s) && Enabled(s, ev)
    requires ev.Deq? || ev.DeqAgain?
    ensures var s' := Step(s, ev);
            && s'.sent == s.sent && s'.max == s.max
            && s'.q == (if s.q == [] then [] else s.q[1..])
            && s'.taken == s.taken + (if s.q == [] then [] else [s.q[0]])
            && (ev.t in Threads(s') <==> s.q == [])
            && s'.carried == s.carried
  {
    if ev.Deq? {
      DeqRoundGives(s, ev.t, ev.wakes);
    } else {
      DeqRoundGives(s.(wokenTakers := s.wokenTakers - {ev.t}), ev.t, ev.wakes);
    }
  }

  /** A turn signals once, and only when it has put a value in or made room in a bounded queue: exactly the
      thread picked, if one waits, moves from the waiting to the woken ones. */
  lemma EnqSignals<T>(s: State<T>, ev: Event<T>, blocking: bool)
    requires Apart(s) && Enabled(s, ev)
    requires (ev.Enq? && ev.blocking == blocking) || (ev.EnqAgain? && blocking)
    ensures var s' := Step(s, ev);
            && s'.takers == (if HasRoom(s) then s.takers - {ev.wakes} else s.takers)
            && s'.wokenTakers == s.wokenTakers + (s.takers - s'.takers)
            && s'.givers == (if HasRoom(s) || !blocking then s.givers else s.givers + {ev.t})
            && s'.wokenGivers == s.wokenGivers - {ev.t}
  {
  }

  lemma DeqSignals<T>(s: State<T>, ev: Event<T>)
    requires Apart(s) && Ordered(s) && Enabled(s, ev)
    requires ev.Deq? || ev.DeqAgain?
    ensures var s' := Step(s, ev);
            && s'.givers == (if s.q != [] && s.max != 0 then s.givers - {ev.wakes} else s.givers)
            && s'.wokenGivers == s.wokenGivers + (s.givers - s'.givers)
            && s'.takers == (if s.q == [] then s.takers + {ev.t} else s.takers)
            && s'.wokenTakers == s.wokenTakers - {ev.t}
  {
  }

  // ---------------------------------------------------------------- runs

  /** A schedule is legal when each of its steps is enabled in its turn. */
  predicate Legal<T>(s: State<T>, evs: seq<Event<T>>)
    decreases |evs|, 0
  {
    evs == [] || (Legal(s, evs[..|evs| - 1]) && Enabled(Run(s, evs[..|evs| - 1]), evs[|evs| - 1]))
  }

  function Run<T>(s: State<T>, evs: seq<Event<T>>): State<T>
    requires Legal(s, evs)
    decreases |evs|, 1
  {
    if evs == [] then s else Step(Run(s, evs[..|evs| - 1]), evs[|evs| - 1])
  }

  /** Over every interleaving from the empty queue: first in first out, never over the bound,
      and no wake-up lost. */
  lemma {:induction false} EveryRun<T>(max: nat, evs: seq<Event<T>>)
    requires Legal(Empty(max), evs)
    ensures Inv(Run(Empty(max), evs)) && Run(Empty(max), evs).max == max
  {
    if evs == [] {
    } else {
      var before := evs[..|evs| - 1];
      EveryRun(max, before);
      StepKeepsInv(Run(Empty(max), before), evs[|evs| - 1]);
      StepKeepsMax(Run(Empty(max), before), evs[|evs| - 1]);
    }
  }

  /** The value of the latest call of enq by thread t, if it has made one. */
  function Offer<T>(evs: seq<Event<T>>, t: nat): (r: seq<T>)
    ensures |r| <= 1
  {
    if evs == [] then []
    else
      var ev := evs[|evs| - 1];
      if ev.Enq? && ev.t == t then [ev.e] else Offer(evs[..|evs| - 1], t)
  }

  /** What goes in and what comes out of a plain bounded queue without threads. */
  datatype History<T> = History(sent: seq<T>, taken: seq<T>)

  /** The plain queue after the turns of a schedule: a turn of enq puts in what its thread offers if there
      is room, a turn of deq takes out the first value not taken yet if there is one. */
  function Served<T>(max: nat, evs: seq<Event<T>>): (h: History<T>)
    ensures |h.taken| <= |h.sent|
  {
    if evs == [] then History([], [])
    else
      var h := Served(max, evs[..|evs| - 1]);
      var ev := evs[|evs| - 1];
      if ev.Enq? || ev.EnqAgain? then
        if max == 0 || |h.sent| < max + |h.taken| then h.(sent := h.sent + Offer(evs, ev.t)) else h
      else if (ev.Deq? || ev.DeqAgain?) && |h.taken| < |h.sent| then
        h.(taken := h.taken + [h.sent[|h.taken|]])
      else h
  }

  /** A state of the monitor agrees with what the schedule alone says. */
  ghost predicate Serves<T>(s: State<T>, evs: seq<Event<T>>) {
    && Served(s.max, evs) == History(s.sent, s.taken)
    && forall t :: t in s.carried ==> Offer(evs, t) == [s.carried[t]]
  }

  /** The monitor refines the plain queue: over every interleaving, what goes in is, turn by turn, the value
      of the thread's own latest call of enq, and whoever waits, or was woken, still carries that value. */
  lemma {:induction false} RunServes<T>(max: nat, evs: seq<Event<T>>)
    requires Legal(Empty(max), evs)
    ensures Serves(Run(Empty(max), evs), evs)
  {
    hide Step, Enabled, Inv, Offer;
    if evs != [] {
      hide Serves;
      var before := evs[..|evs| - 1];
      RunServes(max, before);
      EveryRun(max, before);
      StepServes(Run(Empty(max), before), before, evs[|evs| - 1]);
      assert evs == before + [evs[|evs| - 1]];
    }
  }

  lemma OfferGrows<T>(evs: seq<Event<T>>, ev: Event<T>, t: nat)
    ensures Offer(evs + [ev], t) == if ev.Enq? && ev.t == t then [ev.e] else Offer(evs, t)
  {
    assert (evs + [ev])[..|evs|] == evs;
  }

  lemma EnqServes<T>(s: State<T>, evs: seq<Event<T>>, ev: Event<T>, e: T, blocking: bool)
    requires Ordered(s) && Apart(s) && Enabled(s, ev) && Serves(s, evs)
    requires ev.Enq? || ev.EnqAgain?
    requires ev.Enq? ==> ev.e == e && ev.blocking == blocking
    requires ev.EnqAgain? ==> s.carried[ev.t] == e && blocking
    ensures Serves(Step(s, ev), evs + [ev])
  {
    hide Step, Apart, Offer, Threads, Picks;
    EnqGives(s, ev, e, blocking);
    OfferGrows(evs, ev, ev.t);
    assert (evs + [ev])[..|evs|] == evs;
    var s' := Step(s, ev);
    forall t | t in s'.carried && t != ev.t ensures Offer(evs + [ev], t) == [s'.carried[t]] {
      OfferGrows(evs, ev, t);
    }
  }

  lemma DeqServes<T>(s: State<T>, evs: seq<Event<T>>, ev: Event<T>)
    requires Ordered(s) && Apart(s) && Enabled(s, ev) && Serves(s, evs)
    requires ev.Deq? || ev.DeqAgain?
    ensures Serves(Step(s, ev), evs + [ev])
  {
    hide Step, Apart, Enabled, Offer, Threads;
    DeqGives(s, ev);
    assert (evs + [ev])[..|evs|] == evs;
    forall t | t in s.carried ensures Offer(evs + [ev], t) == [s.carried[t]] {
      OfferGrows(evs, ev, t);
    }
  }

  lemma StrayServes<T>(s: State<T>, evs: seq<Event<T>>, ev: Event<T>)
    requires Enabled(s, ev) && Serves(s, evs)
    requires ev.StrayTaker? || ev.StrayGiver?
    ensures Serves(Step(s, ev), evs + [ev])
  {
    hide Offer;
    assert (evs + [ev])[..|evs|] == evs;
    forall t | t in s.carried ensures Offer(evs + [ev], t) == [s.carried[t]] {
      OfferGrows(evs, ev, t);
    }
  }

  lemma StepServes<T>(s: State<T>, evs: seq<Event<T>>, ev: Event<T>)
    requires Inv(s) && Enabled(s, ev) && Serves(s, evs)
    ensures Serves(Step(s, ev), evs + [ev])
  {
    hide Step, Serves, Apart, Ordered, NoLostWakeup;
    match ev
    case Enq(t, e, blocking, w) => EnqServes(s, evs, ev, e, blocking);
    case EnqAgain(t, w) => EnqServes(s, evs, ev, s.carried[t], true);
    case Deq(_, _) => DeqServes(s, evs, ev);
    case DeqAgain(_, _) => DeqServes(s, evs, ev);
    case StrayTaker(_) => StrayServes(s, evs, ev);
    case StrayGiver(_) => StrayServes(s, evs, ev);
  }

  /** Whoever waits for a value that is there has a woken taker running before it. */
  lemma TakerIsWoken<T>(s: State<T>)
    requires Inv(s) && s.takers != {} && s.q != []
    ensures s.wokenTakers != {}
  {
  }

  /** Whoever waits for room that is there has a woken giver running before it. */
  lemma GiverIsWoken<T>(s: State<T>)
    requires Inv(s) && s.givers != {} && HasRoom(s)
    ensures s.wokenGivers != {}
  {
  }

  /** Takers and givers never wait for each other with nobody left to run. */
  lemma NoDeadlock<T>(s: State<T>)
    requires Inv(s) && s.takers != {} && s.givers != {}
    ensures s.wokenTakers != {} || s.wokenGivers != {}
  {
  }

  // ---------------------------------------------------------------- the monitor itself

  /** How a turn ends: the call returns, returns false, or waits on its condition variable. */
  datatype Outcome = Done | Full | Waits

  /** The queue object. Each method is one turn of a thread that holds the mutex; the ghost
      field records who waits, who was woken, and what went in and came out. */
  class Monitor<T(0)> {
    const max: nat
    var q: seq<T>
    ghost var state: State<T>

    ghost predicate Valid()
      reads this
    {
      state.q == q && state.max == max && Inv(state)
    }

    constructor (limit: nat)
      ensures Valid() && max == limit && state == Empty(limit)
    {
      max := limit;
      q := [];
      state := Empty(limit);
    }

    /** size: despite its name it answers whether there is anything in the queue. */
    method Size() returns (some: bool)
      requires Valid()
      ensures some == (state.sent != state.taken)
    {
      some := |q| != 0;
    }

    /** A turn of enq, the first one or one after a wake-up. */
    method EnqTurn(e: T, blocking: bool, ghost ev: Event<T>) returns (outcome: Outcome)
      requires Valid() && Enabled(state, ev)
      requires ev.Enq? || ev.EnqAgain?
      requires ev.Enq? ==> ev.e == e && ev.blocking == blocking
      requires ev.EnqAgain? ==> state.carried[ev.t] == e && blocking
      modifies this
      ensures Valid() && state == Step(old(state), ev)
      ensures state.taken == old(state.taken)
      ensures state.sent == old(state.sent) + (if outcome == Done then [e] else [])
      ensures outcome == Waits <==> ev.t in Threads(state)
      ensures outcome == Waits ==> ev.t in state.carried && state.carried[ev.t] == e
      ensures outcome == Full <==> old(max != 0 && |q| >= max) && !blocking
    {
      hide Step, Ordered, Apart, NoLostWakeup, Threads, Picks;
      StepKeepsInv(state, ev);
      EnqGives(state, ev, e, blocking);
      state := Step(state, ev);
      if max == 0 || |q| < max {
        q := q + [e];
        outcome := Done;
      } else if blocking {
        outcome := Waits;
      } else {
        outcome := Full;
      }
    }

    /** A turn of deq; x is set when the outcome is Done. */
    method DeqTurn(ghost ev: Event<T>) returns (outcome: Outcome, x: T)
      requires Valid() && Enabled(state, ev)
      requires ev.Deq? || ev.DeqAgain?
      modifies this
      ensures Valid() && state == Step(old(state), ev)
      ensures state.sent == old(state.sent)
      ensures state.taken == old(state.taken) + (if outcome == Done then [x] else [])
      ensures outcome == Waits <==> ev.t in Threads(state)
      ensures outcome != Full
    {
      StepKeepsInv(state, ev);
      DeqGives(state, ev);
      state := Step(state, ev);
      if |q| == 0 {
        outcome := Waits;
        x := *;
      } else {
        outcome := Done;
        x := q[0];
        q := q[1..];
      }
    }
  }
}
