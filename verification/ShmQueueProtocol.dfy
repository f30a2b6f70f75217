/**
 The shared-memory queue as interleaved atomic steps: one caller of `push` at a time, any number of callers of
 `wait_and_pop`.  A consumer claims an index by compare-and-swap on `head` and only then copies the item.
 `tail` is the number of announced messages; indices are unbounded (32-bit counters in the source).
 */
module ShmQueueProtocol {
  import opened Modular
  import opened SlotRing

  datatype Pusher<W> = Idle | SawHead(msg: seq<W>, h: nat) | Filling

  datatype Consumer<W> =
    | Waiting
    | SawOne(h: nat)             // has read head = h
    | SawBoth(h: nat)            // ... and then a tail above h
    | Copying(i: nat, got: seq<W>)

  /** What a consumer returned; it is timely if no push for the same slot had begun when the copy ended. */
  datatype Popped<W> = Popped(got: seq<W>, timely: bool)

  /** `claims[i]` is the consumer that claimed index i. */
  datatype State<W> = State(
    ring: Ring<W>,
    head: nat,
    pusher: Pusher<W>,
    consumers: seq<Consumer<W>>,
    claims: seq<nat>,
    popped: map<nat, Popped<W>>)
  {
    function Tail(): nat { |ring.log| }

    function Size(): nat { |ring.slots| }
  }

  datatype Step<W> =
    | LoadHead(msg: seq<W>)      // push reads head
    | CheckFull                  // ... then tail, and returns if the queue is full
    | FillWord                   // memcpy, a word at a time
    | Store                      // stores tail + 1
    | PopLoadHead(c: nat)
    | PopLoadTail(c: nat)
    | PopCas(c: nat)
    | PopWord(c: nat)            // memcpy, a word at a time
    | PopReturn(c: nat)

  // ---- steps ---------------------------------------------------------------------------

  /** One step of the pusher; a step that is not enabled changes nothing. */
  ghost function Push<W>(s: State<W>, step: Step<W>): State<W>
    requires Shaped(s.ring) && (s.pusher.Filling? <==> s.ring.writer.Writing?)
  {
    match (step, s.pusher)
    case (LoadHead(msg), Idle) => if |msg| == s.ring.width then s.(pusher := SawHead(msg, s.head)) else s
    case (CheckFull, SawHead(msg, h)) =>
      if s.Tail() - h >= s.Size() then s.(pusher := Idle)
      else s.(pusher := Filling, ring := Start(s.ring, msg))
    case (FillWord, Filling) => if s.ring.writer.k < s.ring.width then s.(ring := PutWord(s.ring)) else s
    case (Store, Filling) =>
      if s.ring.writer.k == s.ring.width then s.(pusher := Idle, ring := Announce(s.ring)) else s
    case _ => s
  }

  ghost function At<W>(s: State<W>, c: nat, pc: Consumer<W>): State<W>
    requires c < |s.consumers|
  {
    s.(consumers := s.consumers[c := pc])
  }

  ghost function Pop<W>(s: State<W>, c: nat, step: Step<W>): State<W>
    requires Shaped(s.ring) && c < |s.consumers|
  {
    match (step, s.consumers[c])
    case (PopLoadHead(_), Waiting) => At(s, c, SawOne(s.head))
    case (PopLoadTail(_), SawOne(h)) => At(s, c, if h < s.Tail() then SawBoth(h) else Waiting)
    case (PopCas(_), SawBoth(h)) =>
      if s.head == h then At(s, c, Copying(h, [])).(head := h + 1, claims := s.claims + [c]) else At(s, c, Waiting)
    case (PopWord(_), Copying(i, got)) =>
      if |got| < s.ring.width then At(s, c, Copying(i, got + [s.ring.slots[s.ring.SlotOf(i)][|got|]])) else s
    case (PopReturn(_), Copying(i, got)) =>
      if |got| == s.ring.width then
        At(s, c, Waiting).(popped := s.popped[i := Popped(got, s.ring.Begun() <= i + s.Size())])
      else s
    case _ => s
  }

  predicate ByPusher<W>(step: Step<W>) {
    step.LoadHead? || step.CheckFull? || step.FillWord? || step.Store?
  }

  ghost function Next<W>(s: State<W>, step: Step<W>): State<W>
    requires Kept(s)
  {
    if ByPusher(step) then Push(s, step) else if step.c < |s.consumers| then Pop(s, step.c, step) else s
  }

  /** A created queue: nothing pushed, everyone idle. */
  ghost predicate Init<W>(s: State<W>) {
    && Shaped(s.ring) && s.ring.log == [] && s.ring.writer == Quiet
    && s.head == 0 && s.pusher == Idle && s.claims == [] && s.popped == map[]
    && (forall c :: 0 <= c < |s.consumers| ==> s.consumers[c] == Waiting)
  }

  // ---- what every step keeps -----------------------------------------------------------

  /** head <= tail <= head + size, also while a push is under way. */
  ghost predicate InBounds<W>(s: State<W>) {
    && s.head <= s.Tail() && s.ring.Begun() <= s.head + s.Size()
    && (s.pusher.Filling? <==> s.ring.writer.Writing?)
    && (s.pusher.SawHead? ==> s.pusher.h <= s.head && |s.pusher.msg| == s.ring.width)
  }

  /** A claimed index is held by its claimer or has been returned by it. */
  ghost predicate Accounted<W>(s: State<W>, i: nat) {
    i < |s.claims| && s.claims[i] < |s.consumers| &&
    var pc := s.consumers[s.claims[i]];
    if i in s.popped then !(pc.Copying? && pc.i == i) else pc.Copying? && pc.i == i
  }

  ghost predicate ConsumerOk<W>(s: State<W>, c: nat)
    requires c < |s.consumers|
  {
    match s.consumers[c]
    case Waiting => true
    case SawOne(h) => h <= s.head
    case SawBoth(h) => h <= s.head && h < s.Tail()
    case Copying(i, got) => i < |s.claims| && s.claims[i] == c && Faithful(s.ring, i, got)
  }

  ghost predicate PoppedOk<W>(s: State<W>, i: nat)
    requires i in s.popped
  {
    i < s.head && i < s.Tail() && (s.popped[i].timely ==> s.popped[i].got == s.ring.log[i])
  }

  ghost predicate Kept<W>(s: State<W>) {
    && Sound(s.ring)
    && InBounds(s)
    && |s.claims| == s.head
    && (forall i :: 0 <= i < s.head ==> Accounted(s, i))
    && (forall c :: 0 <= c < |s.consumers| ==> ConsumerOk(s, c))
    && (forall i :: i in s.popped ==> PoppedOk(s, i))
  }

  lemma PushKeeps<W>(s: State<W>, step: Step<W>)
    requires Kept(s) && ByPusher(step)
    ensures Kept(Push(s, step))
  {
    assert Shaped(s.ring);
    hide Sound, Faithful;
    var r := Push(s, step);
    PushKeepsRing(s, step);
    assert InBounds(r);
    forall i | 0 <= i < r.head ensures Accounted(r, i) {
      assert Accounted(s, i);
    }
    forall c | 0 <= c < |r.consumers| ensures ConsumerOk(r, c) {
      assert ConsumerOk(s, c);
      if s.consumers[c].Copying? {
        FaithfulKept(s.ring, r.ring, s.consumers[c].i, s.consumers[c].got);
      }
    }
    forall i | i in r.popped ensures PoppedOk(r, i) {
      assert PoppedOk(s, i);
    }
  }

  lemma PushKeepsRing<W>(s: State<W>, step: Step<W>)
    requires Kept(s) && ByPusher(step)
    ensures var r := Push(s, step).ring;
            Sound(r) && s.ring.log <= r.log && s.ring.Begun() <= r.Begun()
            && |r.slots| == |s.ring.slots| && r.width == s.ring.width
  {
    hide Sound, Faithful;
    if step.CheckFull? && s.pusher.SawHead? {
      StartKeeps(s.ring, s.pusher.msg);
    } else if step.FillWord? && s.pusher.Filling? && s.ring.writer.k < s.ring.width {
      PutWordKeeps(s.ring);
    } else if step.Store? && s.pusher.Filling? && s.ring.writer.k == s.ring.width {
      AnnounceKeeps(s.ring);
    }
  }

  /** The three ways a consumer step changes the state: its own place only, a claim, a return. */
  lemma MoveKeeps<W>(s: State<W>, c: nat, pc: Consumer<W>)
    requires Kept(s) && c < |s.consumers| && ConsumerOk(At(s, c, pc), c)
    requires pc.Copying? <==> s.consumers[c].Copying?
    requires pc.Copying? ==> pc.i == s.consumers[c].i
    ensures Kept(At(s, c, pc))
  {
    hide Sound, Faithful;
    var r := At(s, c, pc);
    forall i | 0 <= i < r.head ensures Accounted(r, i) {
      assert Accounted(s, i);
    }
    forall d | 0 <= d < |r.consumers| ensures ConsumerOk(r, d) {
      assert ConsumerOk(s, d);
    }
    forall i | i in r.popped ensures PoppedOk(r, i) {
      assert PoppedOk(s, i);
    }
  }

  lemma ClaimKeeps<W>(s: State<W>, c: nat)
    requires Kept(s) && c < |s.consumers| && s.consumers[c] == SawBoth(s.head)
    ensures Kept(At(s, c, Copying(s.head, [])).(head := s.head + 1, claims := s.claims + [c]))
  {
    assert ConsumerOk(s, c) && s.head < s.Tail() && |s.ring.log[s.head]| == s.ring.width;
    hide Sound;
    var r := At(s, c, Copying(s.head, [])).(head := s.head + 1, claims := s.claims + [c]);
    assert Faithful(r.ring, s.head, []);
    hide Faithful;
    assert s.head in s.popped ==> PoppedOk(s, s.head);
    forall i | 0 <= i < r.head ensures Accounted(r, i) {
      assert i < s.head ==> Accounted(s, i);
    }
    forall d | 0 <= d < |r.consumers| ensures ConsumerOk(r, d) {
      assert ConsumerOk(s, d);
    }
    forall i | i in r.popped ensures PoppedOk(r, i) {
      assert PoppedOk(s, i);
    }
  }

  lemma ReturnKeeps<W>(s: State<W>, c: nat, i: nat, got: seq<W>)
    requires Kept(s) && c < |s.consumers| && s.consumers[c] == Copying(i, got) && |got| == s.ring.width
    ensures Kept(At(s, c, Waiting).(popped := s.popped[i := Popped(got, s.ring.Begun() <= i + s.Size())]))
  {
    hide Sound;
    var r := At(s, c, Waiting).(popped := s.popped[i := Popped(got, s.ring.Begun() <= i + s.Size())]);
    assert ConsumerOk(s, c);
    assert r.popped[i].timely ==> got == s.ring.log[i] by {
      assert i < |s.ring.log| && |s.ring.log[i]| == |got| ==> s.ring.log[i][..|got|] == s.ring.log[i];
    }
    assert Faithful(s.ring, i, got);
    assert i < s.Tail();
    hide Faithful;
    forall j | 0 <= j < r.head ensures Accounted(r, j) {
      assert Accounted(s, j);
    }
    forall d | 0 <= d < |r.consumers| ensures ConsumerOk(r, d) {
      assert ConsumerOk(s, d);
    }
    forall j | j in r.popped ensures PoppedOk(r, j) {
      if j != i {
        assert PoppedOk(s, j);
      }
    }
  }

  lemma PopKeeps<W>(s: State<W>, c: nat, step: Step<W>)
    requires Kept(s) && c < |s.consumers|
    ensures Kept(Pop(s, c, step))
  {
    assert ConsumerOk(s, c) && Sound(s.ring);
    var pc := s.consumers[c];
    if step.PopCas? && pc == SawBoth(s.head) {
      hide Kept, ConsumerOk;
      ClaimKeeps(s, c);
    } else if step.PopReturn? && pc.Copying? && |pc.got| == s.ring.width {
      hide Kept, ConsumerOk;
      ReturnKeeps(s, c, pc.i, pc.got);
    } else if step.PopWord? && pc.Copying? && |pc.got| < s.ring.width {
      CopyWord(s.ring, pc.i, pc.got);
      assert ConsumerOk(Pop(s, c, step), c);
      hide Kept, ConsumerOk;
      MoveKeeps(s, c, Pop(s, c, step).consumers[c]);
    } else {
      var r := Pop(s, c, step);
      hide Sound, Faithful;
      assert ConsumerOk(r, c);
      assert r == At(s, c, r.consumers[c]);
      hide Kept, ConsumerOk;
      MoveKeeps(s, c, r.consumers[c]);
    }
  }

  lemma StepKeeps<W>(s: State<W>, step: Step<W>)
    requires Kept(s)
    ensures Kept(Next(s, step))
  {
    hide Kept;
    if ByPusher(step) {
      PushKeeps(s, step);
    } else if step.c < |s.consumers| {
      PopKeeps(s, step.c, step);
    }
  }

  // ---- whole runs ----------------------------------------------------------------------

  lemma InitKept<W>(s: State<W>)
    requires Init(s)
    ensures Kept(s)
  {
  }

  /** The state after a run of steps, in any interleaving. */
  ghost function Run<W>(s: State<W>, steps: seq<Step<W>>): (r: State<W>)
    requires Kept(s)
    ensures Kept(r)
  {
    if steps == [] then s
    else
      var before := Run(s, steps[..|steps| - 1]);
      StepKeeps(before, steps[|steps| - 1]);
      Next(before, steps[|steps| - 1])
  }

  /** In every interleaving: 0 <= tail - head <= size; indices are claimed in order, each by one consumer, which
      still copies it or has returned it; and a pop whose copy ended before the push of the message `size` later
      began returns exactly the message pushed at its index. */
  lemma EveryRunIsSafe<W>(s: State<W>, steps: seq<Step<W>>)
    requires Init(s)
    ensures (
      InitKept(s);
      var r := Run(s, steps);
      && r.head <= r.Tail() <= r.head + r.Size()
      && |r.claims| == r.head
      && (forall i :: 0 <= i < r.head ==> Accounted(r, i))
      && (forall i :: i in r.popped ==>
            i < r.Tail() && (r.popped[i].timely ==> r.popped[i].got == r.ring.log[i])))
  {
    InitKept(s);
    hide Sound, Faithful;
    var r := Run(s, steps);
    forall i | i in r.popped
      ensures i < r.Tail() && (r.popped[i].timely ==> r.popped[i].got == r.ring.log[i])
    {
      assert PoppedOk(r, i);
    }
  }

  /** A pop is timely exactly if, when it returns, the push of the message `size` later has not begun. */
  lemma TimelyMeans<W>(s: State<W>, c: nat)
    requires Kept(s) && c < |s.consumers| && s.consumers[c].Copying? && |s.consumers[c].got| == s.ring.width
    ensures var i, r := s.consumers[c].i, Next(s, PopReturn(c));
            && i in r.popped && r.popped[i].got == s.consumers[c].got
            && (r.popped[i].timely <==> s.Tail() + (if s.pusher.Filling? then 1 else 0) <= i + s.Size())
  {
  }

  // ---- a pop that copies too late ------------------------------------------------------

  lemma Extend<W>(s: State<W>, steps: seq<Step<W>>, step: Step<W>) returns (longer: seq<Step<W>>)
    requires Kept(s)
    ensures longer == steps + [step] && Run(s, longer) == Next(Run(s, steps), step)
  {
    longer := steps + [step];
    assert longer[..|steps|] == steps;
  }

  lemma KeptShape<W>(m: State<W>)
    requires Kept(m)
    ensures Shaped(m.ring) && m.head <= m.Tail() && (m.pusher.Filling? <==> m.ring.writer.Writing?)
  {
  }

  /** Messages 0 to k - 1, each two words with its number, are pushed; a consumer has claimed index 0 and copied
      nothing yet. */
  ghost predicate Dawdling(m: State<int>, n: nat, k: nat) {
    && m.ring.width == 2 && m.Size() == n && m.pusher == Idle && m.Tail() == k > 0 && m.head == 1
    && m.ring.log[0] == [0, 0] && n > 0 && m.ring.slots[0] == [0, 0]
    && |m.consumers| > 0 && m.consumers[0] == Copying(0, []) && m.popped == map[]
  }

  /** A push that finds room, up to its first word. */
  lemma BeginPush(s: State<int>, steps: seq<Step<int>>, v: int) returns (longer: seq<Step<int>>)
    requires Kept(s)
    requires var m := Run(s, steps);
             m.ring.width == 2 && m.pusher == Idle && m.Tail() - m.head < m.Size()
    ensures var m, t := Run(s, steps), Run(s, longer);
            && t.pusher == Filling && t.ring.writer == Writing([v, v], 1) && t.ring.log == m.ring.log
              && t.ring.width == 2
            && t.head == m.head && t.consumers == m.consumers && t.popped == m.popped && t.Size() == m.Size() > 0
            && var i := m.ring.SlotOf(m.Tail()); t.ring.slots == m.ring.slots[i := m.ring.slots[i][0 := v]]
  {
    KeptShape(Run(s, steps));
    hide Kept, Run;
    longer := Extend(s, steps, LoadHead([v, v]));
    longer := Extend(s, longer, CheckFull);
    KeptShape(Run(s, longer));
    longer := Extend(s, longer, FillWord);
  }

  lemma EndPush(s: State<int>, steps: seq<Step<int>>, v: int) returns (longer: seq<Step<int>>)
    requires Kept(s)
    requires var m := Run(s, steps); m.pusher == Filling && m.ring.writer == Writing([v, v], 1) && m.ring.width == 2
    ensures var m, t := Run(s, steps), Run(s, longer);
            && t.pusher == Idle && t.ring.log == m.ring.log + [[v, v]] && t.ring.width == 2
            && t.head == m.head && t.consumers == m.consumers && t.popped == m.popped && t.Size() == m.Size() > 0
            && var i := m.ring.SlotOf(m.Tail()); t.ring.slots == m.ring.slots[i := m.ring.slots[i][1 := v]]
  {
    KeptShape(Run(s, steps));
    hide Kept, Run;
    longer := Extend(s, steps, FillWord);
    KeptShape(Run(s, longer));
    longer := Extend(s, longer, Store);
  }

  /** Consumer 0 claims the only message. */
  lemma ClaimFirst(s: State<int>, steps: seq<Step<int>>) returns (longer: seq<Step<int>>)
    requires Kept(s)
    requires var m := Run(s, steps); m.head == 0 < m.Tail() && |m.consumers| > 0 && m.consumers[0] == Waiting
    ensures var m, t := Run(s, steps), Run(s, longer);
            && t.ring == m.ring && t.pusher == m.pusher && t.popped == m.popped && t.head == 1
            && |t.consumers| > 0 && t.consumers[0] == Copying(0, [])
  {
    KeptShape(Run(s, steps));
    hide Kept, Run, Shaped;
    longer := Extend(s, steps, PopLoadHead(0));
    longer := Extend(s, longer, PopLoadTail(0));
    longer := Extend(s, longer, PopCas(0));
  }

  lemma FirstPush(s: State<int>) returns (steps: seq<Step<int>>)
    requires Init(s) && Kept(s) && s.ring.width == 2 && |s.consumers| > 0 && s.Size() > 0
    ensures Dawdling(Run(s, steps), s.Size(), 1)
  {
    assert Run(s, []) == s;
    FirstMessage(s.ring.slots);
    hide Kept, Run;
    steps := BeginPush(s, [], 0);
    steps := EndPush(s, steps, 0);
    hide Init, Shaped;
    steps := ClaimFirst(s, steps);
  }

  lemma {:induction false} PushMany(s: State<int>, k: nat) returns (steps: seq<Step<int>>)
    requires Init(s) && Kept(s) && s.ring.width == 2 && |s.consumers| > 0 && 0 < k <= s.Size()
    ensures Dawdling(Run(s, steps), s.Size(), k)
  {
    hide Kept, Run, Init, Shaped;
    if k == 1 {
      steps := FirstPush(s);
    } else {
      steps := PushMany(s, k - 1);
      SlotsDiffer(0, k - 1, s.Size());
      steps := BeginPush(s, steps, k - 1);
      steps := EndPush(s, steps, k - 1);
    }
  }

  lemma FirstMessage(slots: seq<seq<int>>)
    requires |slots| > 0 && |slots[0]| == 2
    ensures 0 % |slots| == 0
    ensures var half := slots[0 := slots[0][0 := 0]]; half[0 := half[0][1 := 0]][0] == [0, 0]
  {
  }

  /** A pop that copies too late may return a mixture of two messages: the claim frees the slot before it is read.
      In a queue of any size N, the consumer of index 0 gets half of message N and half of message 0. */
  lemma LatePopIsTorn(s: State<int>) returns (steps: seq<Step<int>>)
    requires Init(s) && Kept(s) && s.ring.width == 2 && |s.consumers| > 0
    ensures var r, n := Run(s, steps), s.Size();
            n > 0 && 0 in r.popped && r.popped[0].got == [n, 0] && r.Tail() == n && r.ring.log[0] == [0, 0]
            && r.ring.writer == Writing([n, n], 1)
  {
    KeptShape(s);
    var n := s.Size();
    steps := PushMany(s, n);
    ModStep(0, n);
    hide Kept, Run, Init;
    assert Run(s, steps).ring.SlotOf(n) == 0;
    steps := BeginPush(s, steps, n);
    assert Run(s, steps).ring.slots[0] == [n, 0];
    steps := PopFirst(s, steps);
  }

  lemma CopyFirst(s: State<int>, steps: seq<Step<int>>, got: seq<int>) returns (longer: seq<Step<int>>)
    requires Kept(s)
    requires var m := Run(s, steps);
             |m.consumers| > 0 && m.consumers[0] == Copying(0, got) && |got| < m.ring.width
    ensures var m, t := Run(s, steps), Run(s, longer);
            && t.ring == m.ring && |t.consumers| > 0 && m.Size() > 0 && |m.ring.slots[0]| == m.ring.width
            && t.consumers[0] == Copying(0, got + [m.ring.slots[0][|got|]])
  {
    var m := Run(s, steps);
    KeptShape(m);
    ModStep(0, m.Size());
    assert m.ring.SlotOf(0) == 0;
    hide Kept, Run;
    longer := Extend(s, steps, PopWord(0));
  }

  /** Consumer 0 copies slot 0 as it is and returns. */
  lemma PopFirst(s: State<int>, steps: seq<Step<int>>) returns (longer: seq<Step<int>>)
    requires Kept(s)
    requires var m := Run(s, steps);
             m.ring.width == 2 && |m.consumers| > 0 && m.consumers[0] == Copying(0, []) && m.Size() > 0
    ensures var m, t := Run(s, steps), Run(s, longer);
            t.ring == m.ring && 0 in t.popped && t.popped[0].got == m.ring.slots[0]
  {
    hide Kept, Run, Shaped;
    longer := CopyFirst(s, steps, []);
    var slot := Run(s, steps).ring.slots[0];
    assert [] + [slot[0]] == [slot[0]] && [slot[0]] + [slot[1]] == slot;
    longer := CopyFirst(s, longer, [slot[0]]);
    KeptShape(Run(s, longer));
    longer := Extend(s, longer, PopReturn(0));
  }
}
