/**
 The record ring of one instrument, read while it is written: `on_rtn_data` fills the next slot and then increments
 `current_index`; a reader takes a pointer from `get_cur` and copies the record it points to, word by word.
 `current_index` is the number of announced records, unbounded here.
 */
module RecordRingProtocol {
  import opened Modular
  import opened SlotRing

  datatype Reader<W> =
    | Resting
    | SawOne                     // has read current_index >= 1
    | Copying(i: nat, got: seq<W>)

  /** A finished copy of record i, and the value of `current_index` read after it. */
  datatype Copy<W> = Copy(i: nat, got: seq<W>, indexAfter: nat)

  datatype State<W> = State(ring: Ring<W>, readers: seq<Reader<W>>, copies: seq<Copy<W>>) {
    function CurrentIndex(): nat { |ring.log| }
  }

  datatype Step<W> =
    | Begin(msg: seq<W>)
    | FillWord
    | Increment
    | LoadIndex(c: nat)          // get_cur tests current_index >= 1
    | LoadAgain(c: nat)          // ... and reads it again to make the pointer
    | CopyOne(c: nat)
    | Finish(c: nat)

  predicate ByWriter<W>(step: Step<W>) {
    step.Begin? || step.FillWord? || step.Increment?
  }

  /** One step of the writer; a step that is not enabled changes nothing. */
  ghost function Write<W>(r: Ring<W>, step: Step<W>): Ring<W>
    requires Shaped(r)
  {
    match (step, r.writer)
    case (Begin(msg), Quiet) => if |msg| == r.width then Start(r, msg) else r
    case (FillWord, Writing(_, k)) => if k < r.width then PutWord(r) else r
    case (Increment, Writing(_, k)) => if k == r.width then Announce(r) else r
    case _ => r
  }

  ghost function Read<W>(s: State<W>, c: nat, step: Step<W>): State<W>
    requires Shaped(s.ring) && c < |s.readers|
  {
    match (step, s.readers[c])
    case (LoadIndex(_), Resting) => if s.CurrentIndex() >= 1 then s.(readers := s.readers[c := SawOne]) else s
    case (LoadAgain(_), SawOne) =>
      if s.CurrentIndex() >= 1 then s.(readers := s.readers[c := Copying(s.CurrentIndex() - 1, [])]) else s
    case (CopyOne(_), Copying(i, got)) =>
      if |got| < s.ring.width then
        s.(readers := s.readers[c := Copying(i, got + [s.ring.slots[s.ring.SlotOf(i)][|got|]])])
      else s
    case (Finish(_), Copying(i, got)) =>
      if |got| == s.ring.width then
        s.(readers := s.readers[c := Resting], copies := s.copies + [Copy(i, got, s.CurrentIndex())])
      else s
    case _ => s
  }

  ghost function Next<W>(s: State<W>, step: Step<W>): State<W>
    requires Kept(s)
  {
    if ByWriter(step) then s.(ring := Write(s.ring, step))
    else if step.c < |s.readers| then Read(s, step.c, step) else s
  }

  // ---- what every step keeps -----------------------------------------------------------

  ghost predicate ReaderOk<W>(s: State<W>, c: nat)
    requires c < |s.readers|
  {
    s.readers[c].Copying? ==> Faithful(s.ring, s.readers[c].i, s.readers[c].got)
  }

  /** A copy after which `current_index` was at most i + N - 1 is the whole record. */
  ghost predicate CopyOk<W>(s: State<W>, k: nat)
    requires k < |s.copies|
  {
    var copy := s.copies[k];
    copy.i < s.CurrentIndex() && (copy.indexAfter < copy.i + |s.ring.slots| ==> copy.got == s.ring.log[copy.i])
  }

  ghost predicate Kept<W>(s: State<W>) {
    && Sound(s.ring)
    && (forall c :: 0 <= c < |s.readers| ==> ReaderOk(s, c))
    && (forall k :: 0 <= k < |s.copies| ==> CopyOk(s, k))
  }

  lemma WriteKeepsRing<W>(r: Ring<W>, step: Step<W>)
    requires Sound(r)
    ensures var s := Write(r, step);
            Sound(s) && r.log <= s.log && r.Begun() <= s.Begun() && |s.slots| == |r.slots| && s.width == r.width
  {
    assert Shaped(r);
    hide Sound, Shaped;
    if step.Begin? && r.writer.Quiet? && |step.msg| == r.width {
      StartKeeps(r, step.msg);
    } else if step.FillWord? && r.writer.Writing? && r.writer.k < r.width {
      PutWordKeeps(r);
    } else if step.Increment? && r.writer.Writing? && r.writer.k == r.width {
      AnnounceKeeps(r);
    }
  }

  lemma WriteKeeps<W>(s: State<W>, step: Step<W>)
    requires Kept(s)
    ensures Kept(s.(ring := Write(s.ring, step)))
  {
    assert Shaped(s.ring);
    hide Sound, Shaped, Faithful;
    WriteKeepsRing(s.ring, step);
    var r := s.(ring := Write(s.ring, step));
    forall c | 0 <= c < |r.readers| ensures ReaderOk(r, c) {
      assert ReaderOk(s, c);
      if s.readers[c].Copying? {
        FaithfulKept(s.ring, r.ring, s.readers[c].i, s.readers[c].got);
      }
    }
    forall k | 0 <= k < |r.copies| ensures CopyOk(r, k) {
      assert CopyOk(s, k);
    }
  }

  lemma MoveKeeps<W>(s: State<W>, c: nat, pc: Reader<W>)
    requires Kept(s) && c < |s.readers| && ReaderOk(s.(readers := s.readers[c := pc]), c)
    ensures Kept(s.(readers := s.readers[c := pc]))
  {
    hide Sound, Faithful;
    var r := s.(readers := s.readers[c := pc]);
    forall d | 0 <= d < |r.readers| ensures ReaderOk(r, d) {
      assert ReaderOk(s, d);
    }
    forall k | 0 <= k < |r.copies| ensures CopyOk(r, k) {
      assert CopyOk(s, k);
    }
  }

  lemma FinishKeeps<W>(s: State<W>, i: nat, got: seq<W>)
    requires Kept(s) && Faithful(s.ring, i, got) && |got| == s.ring.width
    ensures Kept(s.(copies := s.copies + [Copy(i, got, s.CurrentIndex())]))
  {
    var r := s.(copies := s.copies + [Copy(i, got, s.CurrentIndex())]);
    assert s.ring.log[i][..|got|] == s.ring.log[i];
    assert CopyOk(r, |s.copies|);
    hide Sound, Faithful;
    forall d | 0 <= d < |r.readers| ensures ReaderOk(r, d) {
      assert ReaderOk(s, d);
    }
    forall k | 0 <= k < |r.copies| ensures CopyOk(r, k) {
      assert k < |s.copies| ==> CopyOk(s, k);
    }
  }

  lemma StepKeeps<W>(s: State<W>, step: Step<W>)
    requires Kept(s)
    ensures Kept(Next(s, step))
  {
    if ByWriter(step) {
      WriteKeeps(s, step);
    } else if step.c < |s.readers| {
      ReadKeeps(s, step.c, step);
    }
  }

  lemma ReadKeeps<W>(s: State<W>, c: nat, step: Step<W>)
    requires Kept(s) && c < |s.readers|
    ensures Kept(Read(s, c, step))
  {
    assert ReaderOk(s, c) && Sound(s.ring);
    var pc, r := s.readers[c], Read(s, c, step);
    if step.Finish? && pc.Copying? && |pc.got| == s.ring.width {
      hide Kept;
      FinishKeeps(s, pc.i, pc.got);
      MoveKeeps(s.(copies := r.copies), c, Resting);
    } else {
      if step.CopyOne? && pc.Copying? && |pc.got| < s.ring.width {
        CopyWord(s.ring, pc.i, pc.got);
      }
      assert ReaderOk(r, c);
      hide Kept;
      assert r == s.(readers := s.readers[c := r.readers[c]]);
      MoveKeeps(s, c, r.readers[c]);
    }
  }

  // ---- whole runs ----------------------------------------------------------------------

  /** An initialised ring without records. */
  ghost predicate Init<W>(s: State<W>) {
    && Shaped(s.ring) && s.ring.log == [] && s.ring.writer == Quiet && s.copies == []
    && (forall c :: 0 <= c < |s.readers| ==> s.readers[c] == Resting)
  }

  lemma InitKept<W>(s: State<W>)
    requires Init(s)
    ensures Kept(s)
  {
  }

  ghost function Run<W>(s: State<W>, steps: seq<Step<W>>): (r: State<W>)
    requires Kept(s)
    ensures Kept(r)
  {
    if steps == [] then s
    else
      var before := Run(s, steps[..|steps| - 1]);
      StepKeeps(before, steps[|steps| - 1]);
      Next(before, steps[|steps| - 1])
  }

  /** In every interleaving: a reader that took record c - 1 and finds `current_index` at most c + N - 2 after its
      copy has copied that record whole; and between writes each of the last N records is in its slot. */
  lemma EveryRunIsSafe<W>(s: State<W>, steps: seq<Step<W>>)
    requires Init(s)
    ensures (
      InitKept(s);
      var r := Run(s, steps);
      && (forall k :: 0 <= k < |r.copies| ==>
            && r.copies[k].i < r.CurrentIndex()
            && (r.copies[k].indexAfter <= (r.copies[k].i + 1) + |r.ring.slots| - 2 ==>
                  r.copies[k].got == r.ring.log[r.copies[k].i]))
      && (r.ring.writer.Quiet? ==>
            forall i :: 0 <= i < r.CurrentIndex() <= i + |r.ring.slots| ==>
              r.ring.slots[r.ring.SlotOf(i)] == r.ring.log[i]))
  {
    InitKept(s);
    var r := Run(s, steps);
    forall k | 0 <= k < |r.copies|
      ensures r.copies[k].i < r.CurrentIndex()
      ensures r.copies[k].indexAfter <= (r.copies[k].i + 1) + |r.ring.slots| - 2 ==>
                r.copies[k].got == r.ring.log[r.copies[k].i]
    {
      assert CopyOk(r, k);
    }
    if r.ring.writer.Quiet? {
      forall i | 0 <= i < r.CurrentIndex() <= i + |r.ring.slots|
        ensures r.ring.slots[r.ring.SlotOf(i)] == r.ring.log[i]
      {
        assert Stays(r.ring, i);
      }
    }
  }

  // ---- the bound is the best possible --------------------------------------------------

  lemma Extend<W>(s: State<W>, steps: seq<Step<W>>, step: Step<W>) returns (longer: seq<Step<W>>)
    requires Kept(s)
    ensures longer == steps + [step] && Run(s, longer) == Next(Run(s, steps), step)
  {
    longer := steps + [step];
    assert longer[..|steps|] == steps;
  }

  /** Records 0 to k - 1, each a single word with its number, are written; a reader has taken record 0 and copied
      nothing yet. */
  ghost predicate Waiting(m: State<int>, n: nat, k: nat) {
    && m.ring.width == 1 && |m.ring.slots| == n && m.ring.writer == Quiet && |m.ring.log| == k > 0
    && m.ring.log[0] == [0] && |m.readers| > 0 && m.readers[0] == Copying(0, []) && m.copies == []
  }

  lemma WriteRecord(s: State<int>, steps: seq<Step<int>>, v: int) returns (longer: seq<Step<int>>)
    requires Kept(s)
    requires var m := Run(s, steps); m.ring.width == 1 && m.ring.writer == Quiet
    ensures var m, t := Run(s, steps), Run(s, longer);
            t.readers == m.readers && t.copies == m.copies && t.ring.log == m.ring.log + [[v]]
            && t.ring.width == 1 && t.ring.writer == Quiet && |t.ring.slots| == |m.ring.slots|
  {
    KeptShape(Run(s, steps));
    hide Kept, Run, Shaped;
    longer := Extend(s, steps, Begin([v]));
    KeptShape(Run(s, longer));
    longer := Extend(s, longer, FillWord);
    longer := Extend(s, longer, Increment);
  }

  lemma KeptShape<W>(m: State<W>)
    requires Kept(m)
    ensures Shaped(m.ring)
  {
  }

  lemma {:induction false} WriteMany(s: State<int>, k: nat) returns (steps: seq<Step<int>>)
    requires Init(s) && Kept(s) && s.ring.width == 1 && |s.readers| > 0 && k > 0
    ensures Waiting(Run(s, steps), |s.ring.slots|, k)
  {
    if k == 1 {
      assert Run(s, []) == s;
      hide Kept, Run;
      steps := WriteRecord(s, [], 0);
      steps := Extend(s, steps, LoadIndex(0));
      steps := Extend(s, steps, LoadAgain(0));
    } else {
      hide Kept, Run, Init;
      steps := WriteMany(s, k - 1);
      steps := WriteRecord(s, steps, k - 1);
    }
  }

  /** With `current_index` one higher, at c + N - 1, the copy can hold the record written a ring length later: in a
      ring of any length N, a reader of record 0 gets record N while `current_index` is N. */
  lemma OneMoreIsTooLate(s: State<int>) returns (steps: seq<Step<int>>)
    requires Init(s) && Kept(s) && s.ring.width == 1 && |s.readers| > 0
    ensures var r, n := Run(s, steps), |s.ring.slots|;
            r.copies == [Copy(0, [n], n)] && r.ring.log != [] && r.ring.log[0] == [0] && n > 0
  {
    var n := |s.ring.slots|;
    KeptShape(s);
    assert n > 0;
    steps := WriteMany(s, n);
    ModStep(0, n);
    hide Kept, Run, Init;
    steps := Extend(s, steps, Begin([n]));
    KeptShape(Run(s, steps));
    steps := Extend(s, steps, FillWord);
    assert Run(s, steps).ring.slots[0] == [n] by {
      assert Run(s, steps).ring.SlotOf(n) == 0;
    }
    steps := Extend(s, steps, CopyOne(0));
    assert Run(s, steps).readers[0] == Copying(0, [n]);
    steps := Extend(s, steps, Finish(0));
  }
}
