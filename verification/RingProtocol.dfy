/**
 The multi-producer ring and its subscribers as interleaved atomic steps.

 A producer claims a ticket by compare-and-swap on `head`, writes its slot, waits until all earlier
 tickets are published, and publishes by storing `tail`.  A subscriber follows `tail` with a cursor.
 Each volatile access is one step; sequence numbers are unbounded (64-bit counters in the source).
 */
module RingProtocol {
  import opened Modular
  import opened Slices

  /** Where a producer is inside `push`. */
  datatype Pc<T> =
    | Idle
    | Choosing(v: T)              // about to read head
    | Loaded(v: T, h: nat)        // has read head = h
    | Checked(v: T, h: nat)       // has seen h + 1 != tail
    | Claimed(v: T, t: nat)       // owns ticket t
    | Written(v: T, t: nat)       // has written slot t % N, waits for its turn
    | Ready(v: T, t: nat)         // has seen tail = t - 1
  {
    predicate Owns() {
      Claimed? || Written? || Ready?
    }

    predicate Done() {
      Written? || Ready?
    }
  }

  datatype Phase = Resting | TryRead(current: nat) | Draining(current: nat, i: nat)

  /** A subscriber: its cursor, where it started, what it has read, and whether a read came too late,
      that is after a later ticket for the same slot was claimed. */
  datatype Sub<T> = Sub(cursor: nat, phase: Phase, start: nat, got: seq<T>, lapped: bool) {
    /** The last sequence number read. */
    function ReadTo(): int {
      if phase.Draining? then phase.i - 1 else cursor
    }
  }

  /** `log` is the history of claimed pushes: ticket t was claimed by producer owners[t - 1] for log[t - 1]. */
  datatype State<T> = State(
    head: nat,
    tail: nat,
    ring: seq<T>,
    producers: seq<Pc<T>>,
    subs: seq<Sub<T>>,
    log: seq<T>,
    owners: seq<nat>)

  datatype Step<T> =
    | Begin(p: nat, v: T)
    | LoadHead(p: nat)
    | CheckFull(p: nat)
    | Cas(p: nat)
    | Write(p: nat)
    | Spin(p: nat)
    | Publish(p: nat)
    | LoadTail(c: nat)            // try_read_new reads tail
    | TakeOne(c: nat)             // ... and then the next slot
    | StartDrain(c: nat)          // get_all_pending reads tail
    | DrainOne(c: nat)            // ... and then slot after slot
    | EndDrain(c: nat)
    | Skip(c: nat, index: nat)    // skipMessage

  ghost function At<T>(s: State<T>, p: nat, pc: Pc<T>): State<T>
    requires p < |s.producers|
  {
    s.(producers := s.producers[p := pc])
  }

  /** One step of producer `p`; a step that is not enabled changes nothing. */
  ghost function Produce<T>(s: State<T>, p: nat, step: Step<T>): State<T>
    requires p < |s.producers| && |s.ring| > 0
  {
    match (step, s.producers[p])
    case (Begin(_, v), Idle) => At(s, p, Choosing(v))
    case (LoadHead(_), Choosing(v)) => At(s, p, Loaded(v, s.head))
    case (CheckFull(_), Loaded(v, h)) => At(s, p, if h + 1 == s.tail then Choosing(v) else Checked(v, h))
    case (Cas(_), Checked(v, h)) =>
      if s.head == h then At(s, p, Claimed(v, h + 1)).(head := h + 1, log := s.log + [v], owners := s.owners + [p])
      else At(s, p, Choosing(v))
    case (Write(_), Claimed(v, t)) => At(s, p, Written(v, t)).(ring := s.ring[t % |s.ring| := v])
    case (Spin(_), Written(v, t)) => if s.tail == t - 1 then At(s, p, Ready(v, t)) else s
    case (Publish(_), Ready(v, t)) => At(s, p, Idle).(tail := t)
    case _ => s
  }

  /** Reading slot `i`, noting whether the read is too late. */
  ghost function Got<T>(s: State<T>, c: Sub<T>, i: nat): Sub<T>
    requires |s.ring| > 0
  {
    c.(got := c.got + [s.ring[i % |s.ring|]], lapped := c.lapped || s.head >= i + |s.ring|)
  }

  ghost function Consume<T>(s: State<T>, c: Sub<T>, step: Step<T>): Sub<T>
    requires |s.ring| > 0
  {
    match (step, c.phase)
    case (LoadTail(_), Resting) => c.(phase := TryRead(s.tail))
    case (TakeOne(_), TryRead(current)) =>
      if c.cursor < current then Got(s, c, c.cursor + 1).(cursor := c.cursor + 1, phase := Resting)
      else c.(phase := Resting)
    case (StartDrain(_), Resting) =>
      if c.cursor >= s.tail then c else c.(phase := Draining(s.tail, c.cursor + 1))
    case (DrainOne(_), Draining(current, i)) =>
      if i <= current then Got(s, c, i).(phase := Draining(current, i + 1)) else c
    case (EndDrain(_), Draining(current, i)) =>
      if i > current then c.(cursor := current, phase := Resting) else c
    case (Skip(_, index), Resting) =>
      if index > s.tail then c else Sub(index, Resting, index, [], false)
    case _ => c
  }

  predicate ByProducer<T>(step: Step<T>) {
    step.Begin? || step.LoadHead? || step.CheckFull? || step.Cas? || step.Write? || step.Spin? || step.Publish?
  }

  ghost function Next<T>(s: State<T>, step: Step<T>): State<T>
    requires |s.ring| > 0
  {
    if ByProducer(step) then
      if step.p < |s.producers| then Produce(s, step.p, step) else s
    else
      if step.c < |s.subs| then s.(subs := s.subs[step.c := Consume(s, s.subs[step.c], step)]) else s
  }

  /** The state after a run of steps, in any interleaving. */
  ghost function Run<T>(s: State<T>, steps: seq<Step<T>>): (r: State<T>)
    requires |s.ring| > 0
    ensures |r.ring| == |s.ring|
  {
    if steps == [] then s else Next(Run(s, steps[..|steps| - 1]), steps[|steps| - 1])
  }

  /** A fresh ring (`init` refuses lengths below 2) with idle producers and resting subscribers. */
  ghost predicate Init<T>(s: State<T>) {
    && s.head == s.tail == 0 && s.log == [] && s.owners == [] && |s.ring| >= 2
    && (forall p :: 0 <= p < |s.producers| ==> s.producers[p] == Idle)
    && (forall c :: 0 <= c < |s.subs| ==> s.subs[c] == Sub(0, Resting, 0, [], false))
  }

  // ---- what every step keeps -----------------------------------------------------------

  /** The producer that claimed ticket `t` still holds it. */
  ghost predicate Held<T>(s: State<T>, t: nat) {
    1 <= t <= |s.owners| && s.owners[t - 1] < |s.producers| &&
    var pc := s.producers[s.owners[t - 1]];
    pc.Owns() && pc.t == t
  }

  /** The claimed unpublished tickets are exactly tail+1..head; each has one owner, its claimer, with its value. */
  ghost predicate Tickets<T>(s: State<T>) {
    && s.tail <= s.head == |s.log| == |s.owners|
    && (forall p :: 0 <= p < |s.producers| && s.producers[p].Owns() ==> Claims(s, p))
    && (forall t :: s.tail < t <= s.head ==> Held(s, t))
    && (forall p :: 0 <= p < |s.producers| && s.producers[p].Ready? ==> s.tail == s.producers[p].t - 1)
  }

  ghost predicate Claims<T>(s: State<T>, p: nat)
    requires p < |s.producers| && s.producers[p].Owns()
  {
    var pc := s.producers[p];
    s.tail < pc.t <= |s.log| == |s.owners| && pc.v == s.log[pc.t - 1] && s.owners[pc.t - 1] == p
  }

  /** Ticket `t` has been written to its slot. */
  ghost predicate Settled<T>(s: State<T>, t: nat) {
    t <= s.tail || (Held(s, t) && s.producers[s.owners[t - 1]].Done())
  }

  /** A written ticket that no later claim can have overtaken is in its slot with the value pushed. */
  ghost predicate Slots<T>(s: State<T>) {
    && |s.ring| >= 2
    && s.head <= |s.log|
    && forall t :: 1 <= t <= s.head < t + |s.ring| && Settled(s, t) ==> s.ring[t % |s.ring|] == s.log[t - 1]
  }

  /** Subscribers never pass the tail, and unless lapped they have read exactly the history from their start. */
  ghost predicate Reads<T>(s: State<T>) {
    forall c :: 0 <= c < |s.subs| ==> SubOk(s, s.subs[c])
  }

  ghost predicate SubOk<T>(s: State<T>, c: Sub<T>) {
    && c.start <= c.cursor <= c.ReadTo() <= s.tail <= |s.log|
    && (c.phase.TryRead? ==> c.phase.current <= s.tail)
    && (c.phase.Draining? ==> c.phase.i - 1 <= c.phase.current <= s.tail)
    && (!c.lapped ==> c.got == s.log[c.start..c.ReadTo()])
  }

  // ---- head - tail never exceeds the number of producers -------------------------------

  function Below(n: nat): (r: set<nat>)
    ensures |r| == n && forall i :: i in r <==> 0 <= i < n
  {
    if n == 0 then {} else Below(n - 1) + {n - 1}
  }

  /** Distinct numbers below `n` are at most `n` many. */
  lemma {:induction false} Pigeonhole(xs: seq<nat>, n: nat)
    requires forall i :: 0 <= i < |xs| ==> xs[i] < n
    requires forall i, j :: 0 <= i < j < |xs| ==> xs[i] != xs[j]
    ensures |xs| <= n
  {
    var used := Elements(xs);
    assert used <= Below(n);
    assert |Below(n) - used| == |Below(n)| - |used|;
  }

  function Elements(xs: seq<nat>): (r: set<nat>)
    requires forall i, j :: 0 <= i < j < |xs| ==> xs[i] != xs[j]
    ensures |r| == |xs| && forall x :: x in r <==> x in xs
  {
    if xs == [] then {}
    else
      var init := xs[..|xs| - 1];
      assert xs == init + [xs[|xs| - 1]];
      Elements(init) + {xs[|xs| - 1]}
  }

  lemma InFlightBound<T>(s: State<T>)
    requires Tickets(s)
    ensures s.head - s.tail <= |s.producers|
  {
    var xs := s.owners[s.tail..];
    forall i | 0 <= i < |xs|
      ensures xs[i] < |s.producers| && s.producers[xs[i]].Owns() && s.producers[xs[i]].t == s.tail + i + 1
    {
      assert Held(s, s.tail + i + 1);
    }
    Pigeonhole(xs, |s.producers|);
  }

  // ---- when a subscriber is lapped -----------------------------------------------------

  /** Only a read can lap a subscriber, and it does exactly if a ticket `size` later has been claimed by then; a skip
      starts anew. */
  lemma LappedMeans<T>(s: State<T>, step: Step<T>, c: nat)
    requires |s.ring| > 0 && c < |s.subs| && c < |Next(s, step).subs|
    ensures var x, y := s.subs[c], Next(s, step).subs[c];
            if |y.got| > |x.got| then y.lapped <==> x.lapped || s.head >= x.ReadTo() + 1 + |s.ring|
            else y.lapped == x.lapped || (step.Skip? && !y.lapped && y.got == [])
  {
  }

  // ---- skipping ------------------------------------------------------------------------

  /** A subscriber that skips to a published number reads the push after it next; beyond the tail nothing happens. */
  lemma ReadAfterSkip<T>(s: State<T>, c: nat, index: nat)
    requires Slots(s) && s.tail <= s.head && c < |s.subs| && s.subs[c].phase.Resting?
    ensures index > s.tail ==> Next(s, Skip(c, index)) == s
    ensures index < s.tail && s.head <= index + |s.ring| ==>
              var r := Next(Next(Next(s, Skip(c, index)), LoadTail(c)), TakeOne(c)).subs[c];
              r.got == [s.log[index]] && r.cursor == index + 1 && !r.lapped
  {
    if index < s.tail && s.head <= index + |s.ring| {
      assert Settled(s, index + 1);
    }
    assert s.subs[c := s.subs[c]] == s.subs;
  }

  // ---- preservation --------------------------------------------------------------------

  lemma PublishKeepsTickets<T>(s: State<T>, p: nat)
    requires Tickets(s) && p < |s.producers| && s.producers[p].Ready?
    ensures Tickets(At(s, p, Idle).(tail := s.producers[p].t))
  {
    var r := At(s, p, Idle).(tail := s.producers[p].t);
    assert Claims(s, p);
    forall q | 0 <= q < |r.producers| && r.producers[q].Owns()
      ensures Claims(r, q) && !r.producers[q].Ready?
    {
      assert Claims(s, q);
    }
    forall t | r.tail < t <= r.head
      ensures Held(r, t)
    {
      assert Held(s, t);
    }
  }

  lemma CasKeepsTickets<T>(s: State<T>, p: nat)
    requires Tickets(s) && p < |s.producers| && s.producers[p].Checked? && s.head == s.producers[p].h
    ensures Tickets(At(s, p, Claimed(s.producers[p].v, s.head + 1)).(
                      head := s.head + 1, log := s.log + [s.producers[p].v], owners := s.owners + [p]))
  {
    var v := s.producers[p].v;
    var r := At(s, p, Claimed(v, s.head + 1)).(head := s.head + 1, log := s.log + [v], owners := s.owners + [p]);
    forall q | 0 <= q < |r.producers| && r.producers[q].Owns()
      ensures Claims(r, q)
    {
      assert q != p ==> Claims(s, q);
    }
    forall t | r.tail < t <= r.head
      ensures Held(r, t)
    {
      assert t <= s.head ==> Held(s, t);
    }
  }

  /** A step of a producer that keeps its ticket and value, or keeps not having one. */
  lemma LocalStepKeepsTickets<T>(s: State<T>, p: nat, pc: Pc<T>, ring: seq<T>)
    requires Tickets(s) && p < |s.producers|
    requires pc.Owns() == s.producers[p].Owns()
    requires pc.Owns() ==> pc.t == s.producers[p].t && pc.v == s.producers[p].v
    requires pc.Ready? ==> s.producers[p].Ready? || s.tail == pc.t - 1
    ensures Tickets(At(s, p, pc).(ring := ring))
  {
    var r := At(s, p, pc).(ring := ring);
    forall q | 0 <= q < |r.producers| && r.producers[q].Owns()
      ensures Claims(r, q)
    {
      assert Claims(s, q);
    }
    forall t | r.tail < t <= r.head
      ensures Held(r, t)
    {
      assert Held(s, t);
    }
  }

  lemma TicketsKept<T>(s: State<T>, step: Step<T>)
    requires Tickets(s) && |s.ring| > 0
    ensures Tickets(Next(s, step))
  {
    hide Tickets;
    var r := Next(s, step);
    if ByProducer(step) && step.p < |s.producers| {
      if step.Publish? && s.producers[step.p].Ready? {
        PublishKeepsTickets(s, step.p);
      } else if step.Cas? && s.producers[step.p].Checked? && s.head == s.producers[step.p].h {
        CasKeepsTickets(s, step.p);
      } else {
        LocalStepKeepsTickets(s, step.p, r.producers[step.p], r.ring);
        assert r == At(s, step.p, r.producers[step.p]).(ring := r.ring);
      }
    } else {
      TicketsIgnoreSubs(s, r.subs);
      assert r == s.(subs := r.subs);
    }
  }

  lemma TicketsIgnoreSubs<T>(s: State<T>, subs: seq<Sub<T>>)
    requires Tickets(s)
    ensures Tickets(s.(subs := subs))
  {
    var r := s.(subs := subs);
    forall q | 0 <= q < |r.producers| && r.producers[q].Owns()
      ensures Claims(r, q)
    {
      assert Claims(s, q);
    }
    forall t | r.tail < t <= r.head
      ensures Held(r, t)
    {
      assert Held(s, t);
    }
  }

  /** `tail` only rises by one, to the ticket that is next in order. */
  lemma TailRisesInOrder<T>(s: State<T>, step: Step<T>)
    requires Tickets(s) && |s.ring| > 0
    ensures var r := Next(s, step);
            r.tail == s.tail || (r.tail == s.tail + 1 && step.Publish? && Held(s, r.tail) && s.owners[s.tail] == step.p)
  {
    if step.Publish? && step.p < |s.producers| && s.producers[step.p].Ready? {
      assert Claims(s, step.p);
      assert Held(s, s.tail + 1);
    }
  }

  lemma SlotsKept<T>(s: State<T>, step: Step<T>)
    requires Tickets(s) && Slots(s) && |s.producers| <= |s.ring|
    ensures Slots(Next(s, step))
  {
    var r := Next(s, step);
    InFlightBound(s);
    TicketsKept(s, step);
    TailRisesInOrder(s, step);
    forall t | 1 <= t <= r.head < t + |r.ring| && Settled(r, t)
      ensures r.ring[t % |r.ring|] == r.log[t - 1]
    {
      SlotKept(s, step, t);
    }
  }

  lemma SlotKept<T>(s: State<T>, step: Step<T>, t: nat)
    requires Tickets(s) && Slots(s) && s.head - s.tail <= |s.ring|
    requires var r := Next(s, step); 1 <= t <= r.head < t + |r.ring| && Settled(r, t)
    ensures var r := Next(s, step); 1 <= t <= |r.log| && r.ring[t % |r.ring|] == r.log[t - 1]
  {
    var r := Next(s, step);
    if step.Write? && step.p < |s.producers| && s.producers[step.p].Claimed? {
      WriteKeepsSlot(s, step.p, t);
    }
  }

  lemma WriteKeepsSlot<T>(s: State<T>, p: nat, t: nat)
    requires Tickets(s) && Slots(s) && s.head - s.tail <= |s.ring|
    requires p < |s.producers| && s.producers[p].Claimed?
    requires var r := Produce(s, p, Write(p)); 1 <= t <= r.head < t + |r.ring| && Settled(r, t)
    ensures var r := Produce(s, p, Write(p)); 1 <= t <= |r.log| && r.ring[t % |r.ring|] == r.log[t - 1]
  {
    var w := s.producers[p].t;
    assert Claims(s, p);
    if t < w {
      SlotsDiffer(t, w, |s.ring|);
    } else if t > w {
      SlotsDiffer(w, t, |s.ring|);
    }
  }

  lemma SubKept<T>(s: State<T>, step: Step<T>)
    requires Tickets(s) && Slots(s) && Reads(s)
    requires !ByProducer(step) && step.c < |s.subs|
    ensures SubOk(s, Consume(s, s.subs[step.c], step))
  {
    var c := s.subs[step.c];
    assert SubOk(s, c);
    if step.TakeOne? && c.phase.TryRead? && c.cursor < c.phase.current {
      GotExtends(s, c, c.cursor + 1);
    } else if step.DrainOne? && c.phase.Draining? && c.phase.i <= c.phase.current {
      GotExtends(s, c, c.phase.i);
    }
  }

  /** Reading the next published number in time appends the value pushed under it. */
  lemma GotExtends<T>(s: State<T>, c: Sub<T>, i: nat)
    requires Tickets(s) && Slots(s) && SubOk(s, c) && i == c.ReadTo() + 1 <= s.tail
    ensures !Got(s, c, i).lapped ==> Got(s, c, i).got == s.log[c.start..i]
  {
    if !c.lapped && s.head < i + |s.ring| {
      assert Settled(s, i);
      assert s.log[c.start..i] == s.log[c.start..i - 1] + [s.log[i - 1]];
    }
  }

  lemma ReadsKept<T>(s: State<T>, step: Step<T>)
    requires Tickets(s) && Slots(s) && Reads(s)
    ensures Reads(Next(s, step))
  {
    var r := Next(s, step);
    TailRisesInOrder(s, step);
    forall c | 0 <= c < |r.subs|
      ensures SubOk(r, r.subs[c])
    {
      assert SubOk(s, s.subs[c]);
      if !ByProducer(step) && step.c == c {
        SubKept(s, step);
      } else {
        assert r.log[..|s.log|] == s.log[..|s.log|];
        SliceOfPrefix(r.log, s.log, |s.log|, s.subs[c].start, s.subs[c].ReadTo());
      }
    }
  }

  // ---- every run -----------------------------------------------------------------------

  ghost predicate Inv<T>(s: State<T>) {
    Tickets(s) && Slots(s) && Reads(s)
  }

  /** In every interleaving of at most ring-size producers and any subscribers: tickets are claimed and
      published in order, published slots hold what was pushed, subscribers read the history. */
  lemma {:induction false} EveryRunKeepsInvariant<T>(s: State<T>, steps: seq<Step<T>>)
    requires Init(s) && |s.producers| <= |s.ring|
    ensures var r := Run(s, steps); Inv(r) && |r.producers| == |s.producers| && r.head - r.tail <= |s.producers|
  {
    if steps == [] {
      assert Inv(s);
    } else {
      var init, last := steps[..|steps| - 1], steps[|steps| - 1];
      EveryRunKeepsInvariant(s, init);
      var m := Run(s, init);
      TicketsKept(m, last);
      SlotsKept(m, last);
      ReadsKept(m, last);
    }
    InFlightBound(Run(s, steps));
  }

  /** Looking up a published sequence number that is not yet overtaken finds the value its producer pushed. */
  lemma PublishedIsFound<T>(s: State<T>, steps: seq<Step<T>>, seqNo: nat)
    requires Init(s) && |s.producers| <= |s.ring|
    requires var r := Run(s, steps); 1 <= seqNo <= r.tail && r.head < seqNo + |r.ring|
    ensures var r := Run(s, steps); seqNo <= |r.log| && r.ring[seqNo % |r.ring|] == r.log[seqNo - 1]
  {
    EveryRunKeepsInvariant(s, steps);
    assert Settled(Run(s, steps), seqNo);
  }

  /** A subscriber that is never lapped has read, by any mix of single reads and drains, exactly the history
      from where it started, each push once and in order. */
  lemma SubscriberReadsHistory<T>(s: State<T>, steps: seq<Step<T>>, c: nat)
    requires Init(s) && |s.producers| <= |s.ring| && c < |s.subs|
    ensures var r := Run(s, steps);
            c < |r.subs| && var sub := r.subs[c];
            !sub.lapped ==>
              0 <= sub.start <= sub.ReadTo() <= r.tail <= |r.log| && sub.got == r.log[sub.start..sub.ReadTo()]
  {
    EveryRunKeepsInvariant(s, steps);
    SubsStay(s, steps);
    assert SubOk(Run(s, steps), Run(s, steps).subs[c]);
  }

  lemma {:induction false} SubsStay<T>(s: State<T>, steps: seq<Step<T>>)
    requires |s.ring| > 0
    ensures |Run(s, steps).subs| == |s.subs|
  {
    if steps != [] {
      SubsStay(s, steps[..|steps| - 1]);
    }
  }

  // ---- the bound on producers is needed ------------------------------------------------

  lemma OneMore<T>(s: State<T>, steps: seq<Step<T>>, step: Step<T>) returns (steps': seq<Step<T>>)
    requires |s.ring| > 0
    ensures Run(s, steps') == Next(Run(s, steps), step)
  {
    steps' := steps + [step];
    assert steps'[..|steps|] == steps;
  }

  lemma SetTwice<T>(xs: seq<T>, i: nat, a: T, b: T)
    requires i < |xs|
    ensures xs[i := a][i := b] == xs[i := b]
  {
  }

  /** An idle producer can go on alone until it owns the next ticket. */
  lemma ClaimAlone<T>(s: State<T>, steps: seq<Step<T>>, p: nat, v: T) returns (steps': seq<Step<T>>)
    requires |s.ring| > 0
    requires var m := Run(s, steps); p < |m.producers| && m.producers[p] == Idle && m.tail <= m.head
    ensures var m := Run(s, steps);
            Run(s, steps') == At(m, p, Claimed(v, m.head + 1)).(
              head := m.head + 1, log := m.log + [v], owners := m.owners + [p])
  {
    hide Run;
    var m := Run(s, steps);
    steps' := OneMore(s, steps, Begin(p, v));
    steps' := OneMore(s, steps', LoadHead(p));
    SetTwice(m.producers, p, Choosing(v), Loaded(v, m.head));
    assert Run(s, steps') == At(m, p, Loaded(v, m.head));
    steps' := OneMore(s, steps', CheckFull(p));
    SetTwice(m.producers, p, Loaded(v, m.head), Checked(v, m.head));
    assert Run(s, steps') == At(m, p, Checked(v, m.head));
    steps' := OneMore(s, steps', Cas(p));
    SetTwice(m.producers, p, Checked(v, m.head), Claimed(v, m.head + 1));
  }

  lemma WriteAlone<T>(s: State<T>, steps: seq<Step<T>>, p: nat) returns (steps': seq<Step<T>>)
    requires |s.ring| > 0
    requires var m := Run(s, steps); p < |m.producers| && m.producers[p].Claimed?
    ensures var m := Run(s, steps);
            var Claimed(v, t) := m.producers[p];
            Run(s, steps') == At(m, p, Written(v, t)).(ring := m.ring[t % |m.ring| := v])
  {
    hide Run;
    steps' := OneMore(s, steps, Write(p));
  }

  lemma PublishAlone<T>(s: State<T>, steps: seq<Step<T>>, p: nat) returns (steps': seq<Step<T>>)
    requires |s.ring| > 0
    requires var m := Run(s, steps); p < |m.producers| && m.producers[p].Written? && m.producers[p].t == m.tail + 1
    ensures var m := Run(s, steps); Run(s, steps') == At(m, p, Idle).(tail := m.tail + 1)
  {
    hide Run;
    var m := Run(s, steps);
    steps' := OneMore(s, steps, Spin(p));
    steps' := OneMore(s, steps', Publish(p));
    SetTwice(m.producers, p, Ready(m.producers[p].v, m.tail + 1), Idle);
  }

  /** A published number within the window whose slot does not hold what was pushed under it. */
  ghost predicate Lost<T>(r: State<T>, seqNo: nat) {
    && |r.ring| > 0 && 1 <= seqNo <= r.tail && r.head < seqNo + |r.ring| && seqNo <= |r.log|
    && r.ring[seqNo % |r.ring|] != r.log[seqNo - 1]
  }

  // ---- the bound on producers is exact -------------------------------------------------

  /** `k` producers have claimed a ticket each, to push their own number; of these, those from 1 up to `j` have
      written.  Nothing is published. */
  ghost predicate Crowded(m: State<int>, n: nat, producers: nat, k: nat, j: nat) {
    && |m.ring| == n && |m.producers| == producers && k <= producers
    && m.head == |m.log| == |m.owners| == k && m.tail == 0
    && (forall p :: 0 <= p < k ==> m.log[p] == p)
    && (forall p :: 0 <= p < k ==> m.producers[p] == if 1 <= p <= j then Written(p, p + 1) else Claimed(p, p + 1))
    && (forall p :: k <= p < producers ==> m.producers[p] == Idle)
  }

  lemma {:induction false} ClaimMany(s: State<int>, k: nat) returns (steps: seq<Step<int>>)
    requires Init(s) && k <= |s.producers|
    ensures Crowded(Run(s, steps), |s.ring|, |s.producers|, k, 0)
  {
    hide Run;
    if k == 0 {
      steps := [];
      RunNothing(s);
    } else {
      steps := ClaimMany(s, k - 1);
      steps := ClaimAlone(s, steps, k - 1, k - 1);
    }
  }

  lemma RunNothing<T>(s: State<T>)
    requires |s.ring| > 0
    ensures Run(s, []) == s
  {
  }

  lemma {:induction false} WriteMany(s: State<int>, k: nat, j: nat) returns (steps: seq<Step<int>>)
    requires Init(s) && j < k <= |s.producers|
    ensures Crowded(Run(s, steps), |s.ring|, |s.producers|, k, j)
  {
    hide Run;
    if j == 0 {
      steps := ClaimMany(s, k);
    } else {
      steps := WriteMany(s, k, j - 1);
      steps := WriteAlone(s, steps, j);
    }
  }

  /** All `k` have written, the one with ticket 1 last; the first `t` tickets are published. */
  ghost predicate Overwritten(m: State<int>, n: nat, k: nat, t: nat) {
    && |m.ring| == n > 0 && k <= |m.producers| && m.head == |m.log| == k && m.tail == t <= k
    && (forall p :: 0 <= p < k ==> m.log[p] == p)
    && (forall p :: t <= p < k ==> m.producers[p] == Written(p, p + 1))
    && m.ring[1 % n] == 0
  }

  lemma {:induction false} PublishMany(s: State<int>, k: nat, t: nat) returns (steps: seq<Step<int>>)
    requires Init(s) && 0 < k <= |s.producers| && t <= k
    ensures Overwritten(Run(s, steps), |s.ring|, k, t)
  {
    hide Run;
    if t == 0 {
      steps := WriteMany(s, k, k - 1);
      steps := WriteAlone(s, steps, 0);
    } else {
      steps := PublishMany(s, k, t - 1);
      steps := PublishAlone(s, steps, t - 1);
    }
  }

  /** With more producers than slots, a slow writer of ticket 1 overwrites the ticket that comes a ring length later
      in their common slot, before either is published. */
  lemma TooManyProducersLoseAPush(s: State<int>) returns (steps: seq<Step<int>>)
    requires Init(s) && |s.producers| > |s.ring|
    ensures Lost(Run(s, steps), |s.ring| + 1)
  {
    var n := |s.ring|;
    steps := PublishMany(s, n + 1, n + 1);
    hide Run;
    ModStep(1, n);
  }

  /** Published pushes inside the window are found in every interleaving exactly if there are at most as many
      producers as slots. */
  lemma SafeExactlyForFewProducers(s: State<int>)
    requires Init(s)
    ensures (forall steps, seqNo: nat :: !Lost(Run(s, steps), seqNo)) <==> |s.producers| <= |s.ring|
  {
    if |s.producers| <= |s.ring| {
      forall steps, seqNo: nat ensures !Lost(Run(s, steps), seqNo) {
        if Lost(Run(s, steps), seqNo) {
          PublishedIsFound(s, steps, seqNo);
        }
      }
    } else {
      var steps := TooManyProducersLoseAPush(s);
    }
  }
}
