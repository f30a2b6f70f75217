/**
 A ring of slots in shared memory with one writer, which fills a slot word by word and then announces it; readers
 copy a slot word by word without locking it.  The queue and the record ring are both built on it.
 */
module SlotRing {
  import opened Modular

  datatype Writer<W> = Quiet | Writing(msg: seq<W>, k: nat)

  /** `log` is the history of announced messages; message i went to slot i modulo the number of slots. */
  datatype Ring<W> = Ring(width: nat, slots: seq<seq<W>>, log: seq<seq<W>>, writer: Writer<W>) {
    /** How many messages have been announced or begun. */
    function Begun(): nat {
      |log| + if writer.Quiet? then 0 else 1
    }

    function SlotOf(i: nat): nat
      requires |slots| > 0
    {
      i % |slots|
    }
  }

  ghost function Start<W>(r: Ring<W>, msg: seq<W>): Ring<W> {
    r.(writer := Writing(msg, 0))
  }

  ghost function PutWord<W>(r: Ring<W>): Ring<W>
    requires Shaped(r) && r.writer.Writing? && r.writer.k < r.width
  {
    var w, i := r.writer, r.SlotOf(|r.log|);
    r.(slots := r.slots[i := r.slots[i][w.k := w.msg[w.k]]], writer := Writing(w.msg, w.k + 1))
  }

  ghost function Announce<W>(r: Ring<W>): Ring<W>
    requires r.writer.Writing?
  {
    r.(log := r.log + [r.writer.msg], writer := Quiet)
  }

  // ---- what is kept --------------------------------------------------------------------

  ghost predicate Shaped<W>(r: Ring<W>) {
    && |r.slots| > 0
    && (forall i :: 0 <= i < |r.slots| ==> |r.slots[i]| == r.width)
    && (forall i :: 0 <= i < |r.log| ==> |r.log[i]| == r.width)
    && (r.writer.Writing? ==> |r.writer.msg| == r.width && r.writer.k <= r.width)
  }

  /** Message `i` is whole in its slot, unless the writer has begun the message that goes to the same slot next. */
  ghost predicate Stays<W>(r: Ring<W>, i: nat)
    requires Shaped(r)
  {
    i < |r.log| && r.Begun() <= i + |r.slots| ==> r.slots[r.SlotOf(i)] == r.log[i]
  }

  ghost predicate Sound<W>(r: Ring<W>) {
    && Shaped(r)
    && (forall i: nat :: Stays(r, i))
    && (r.writer.Writing? ==> r.slots[r.SlotOf(|r.log|)][..r.writer.k] == r.writer.msg[..r.writer.k])
  }

  /** What a reader of message `i` has copied so far is right, unless the slot was taken for a later message. */
  ghost predicate Faithful<W>(r: Ring<W>, i: nat, got: seq<W>) {
    && i < |r.log| && |got| <= r.width == |r.log[i]|
    && (r.Begun() <= i + |r.slots| ==> got == r.log[i][..|got|])
  }

  lemma StartKeeps<W>(r: Ring<W>, msg: seq<W>)
    requires Sound(r) && r.writer.Quiet? && |msg| == r.width
    ensures Sound(Start(r, msg))
  {
    forall i: nat ensures Stays(Start(r, msg), i) {
      assert Stays(r, i);
    }
  }

  lemma PutWordKeeps<W>(r: Ring<W>)
    requires Sound(r) && r.writer.Writing? && r.writer.k < r.width
    ensures Sound(PutWord(r))
  {
    var s, e := PutWord(r), |r.log|;
    forall i: nat ensures Stays(s, i) {
      assert Stays(r, i);
      if i < e && s.Begun() <= i + |s.slots| {
        SlotsDiffer(i, e, |r.slots|);
      }
    }
    var k, slot := r.writer.k, r.slots[r.SlotOf(e)];
    assert slot[k := r.writer.msg[k]][..k + 1] == slot[..k] + [r.writer.msg[k]];
    assert r.writer.msg[..k + 1] == r.writer.msg[..k] + [r.writer.msg[k]];
  }

  lemma AnnounceKeeps<W>(r: Ring<W>)
    requires Sound(r) && r.writer.Writing? && r.writer.k == r.width
    ensures Sound(Announce(r))
  {
    var s := Announce(r);
    forall i: nat ensures Stays(s, i) {
      assert Stays(r, i);
      if i == |r.log| {
        assert r.writer.msg[..r.width] == r.writer.msg;
        assert r.slots[r.SlotOf(i)][..r.width] == r.slots[r.SlotOf(i)];
      }
    }
  }

  /** Later steps of the writer do not make a copy wrong without beginning a message for the same slot. */
  lemma FaithfulKept<W>(r: Ring<W>, s: Ring<W>, i: nat, got: seq<W>)
    requires Faithful(r, i, got) && r.log <= s.log && |s.slots| == |r.slots| && s.width == r.width
    requires r.Begun() <= s.Begun()
    ensures Faithful(s, i, got)
  {
  }

  lemma CopyWord<W>(r: Ring<W>, i: nat, got: seq<W>)
    requires Sound(r) && Faithful(r, i, got) && |got| < r.width
    ensures Faithful(r, i, got + [r.slots[r.SlotOf(i)][|got|]])
  {
    assert Stays(r, i);
    assert r.log[i][..|got| + 1] == r.log[i][..|got|] + [r.log[i][|got|]];
  }
}
