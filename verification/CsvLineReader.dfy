/**
 The line reader: a buffer of three blocks, the third of which a worker thread fills while lines are taken
 from the first two.  Lines are specified by splitting the bytes of the source at newlines.
 */
module CsvLineReader {
  import opened Slices

  const NEWLINE: bv8 := 10
  const RETURN: bv8 := 13
  const NUL: bv8 := 0

  // ---- lines ---------------------------------------------------------------------------

  /** The position of the first newline, or the length. */
  function LineEnd(s: seq<bv8>): (e: nat)
    ensures e <= |s|
    ensures forall i :: 0 <= i < e ==> s[i] != NEWLINE
    ensures e < |s| ==> s[e] == NEWLINE
  {
    if s == [] || s[0] == NEWLINE then 0 else 1 + LineEnd(s[1..])
  }

  function StripReturn(line: seq<bv8>): seq<bv8> {
    if line != [] && line[|line| - 1] == RETURN then line[..|line| - 1] else line
  }

  function FirstLine(s: seq<bv8>): seq<bv8> {
    StripReturn(s[..LineEnd(s)])
  }

  function AfterLine(s: seq<bv8>): (r: seq<bv8>)
    ensures s != [] ==> |r| < |s|
  {
    if LineEnd(s) < |s| then s[LineEnd(s) + 1..] else []
  }

  /** The lines of a text; the last one may lack its newline. */
  function Lines(s: seq<bv8>): seq<seq<bv8>>
    decreases |s|
  {
    if s == [] then [] else [FirstLine(s)] + Lines(AfterLine(s))
  }

  /** Every line, without its newline, is shorter than the block. */
  predicate AllFit(s: seq<bv8>, blockLen: nat)
    decreases |s|
  {
    s == [] || (LineEnd(s) < blockLen && AllFit(AfterLine(s), blockLen))
  }

  /** The lines before the first that does not fit. */
  function FittingLines(s: seq<bv8>, blockLen: nat): seq<seq<bv8>>
    decreases |s|
  {
    if s == [] || LineEnd(s) >= blockLen then [] else [FirstLine(s)] + FittingLines(AfterLine(s), blockLen)
  }

  lemma {:induction false} FittingIsAll(s: seq<bv8>, blockLen: nat)
    requires AllFit(s, blockLen)
    ensures FittingLines(s, blockLen) == Lines(s)
    decreases |s|
  {
    if s != [] {
      FittingIsAll(AfterLine(s), blockLen);
    }
  }

  /** What a C string shows of a line. */
  function UpToNul(line: seq<bv8>): seq<bv8> {
    if line == [] || line[0] == NUL then [] else [line[0]] + UpToNul(line[1..])
  }

  lemma {:induction false} UpToNulIs(line: seq<bv8>, n: nat)
    requires n <= |line| && (forall i :: 0 <= i < n ==> line[i] != NUL) && (n < |line| ==> line[n] == NUL)
    ensures UpToNul(line) == line[..n]
  {
    if n > 0 {
      UpToNulIs(line[1..], n - 1);
    }
  }

  function Texts(lines: seq<seq<bv8>>): seq<seq<bv8>> {
    seq(|lines|, i requires 0 <= i < |lines| => UpToNul(lines[i]))
  }

  lemma AfterLineShorter(s: seq<bv8>)
    requires s != []
    ensures |AfterLine(s)| < |s|
  {
  }

  lemma FittingStep(texts: seq<seq<bv8>>, s: seq<bv8>, blockLen: nat)
    requires s != [] && LineEnd(s) < blockLen
    ensures texts + Texts(FittingLines(s, blockLen)) ==
            texts + [UpToNul(FirstLine(s))] + Texts(FittingLines(AfterLine(s), blockLen))
    ensures AllFit(s, blockLen) <==> AllFit(AfterLine(s), blockLen)
  {
    hide LineEnd, FirstLine, AfterLine, UpToNul;
    assert FittingLines(s, blockLen) == [FirstLine(s)] + FittingLines(AfterLine(s), blockLen);
  }

  /** The lines, each closed by a newline. */
  function Closed(lines: seq<seq<bv8>>): seq<bv8> {
    if lines == [] then [] else lines[0] + [NEWLINE] + Closed(lines[1..])
  }

  lemma ClosedStep(line: seq<bv8>, lines: seq<seq<bv8>>)
    ensures Closed([line] + lines) == line + [NEWLINE] + Closed(lines)
  {
    assert ([line] + lines)[1..] == lines;
  }

  lemma SplitAt(s: seq<bv8>, e: nat)
    requires e <= |s|
    ensures if e < |s| then s == s[..e] + [s[e]] + s[e + 1..] else s == s[..e]
    ensures forall b :: b in s[..e] ==> b in s
    ensures e < |s| ==> forall b :: b in s[e + 1..] ==> b in s
  {
  }

  lemma NothingToStrip(line: seq<bv8>)
    requires RETURN !in line
    ensures StripReturn(line) == line
  {
    assert line != [] ==> line[|line| - 1] in line;
  }

  lemma FirstLineSplits(s: seq<bv8>)
    requires s != [] && RETURN !in s
    ensures var e := LineEnd(s); FirstLine(s) == s[..e] && NEWLINE !in s[..e]
    ensures RETURN !in AfterLine(s)
    ensures if LineEnd(s) < |s| then s == FirstLine(s) + [NEWLINE] + AfterLine(s)
            else s == FirstLine(s) && AfterLine(s) == [] && s[|s| - 1] != NEWLINE
  {
    var e := LineEnd(s);
    hide LineEnd, StripReturn;
    SplitAt(s, e);
    NothingToStrip(s[..e]);
  }

  /** The text with its last line closed. */
  function ClosedText(s: seq<bv8>): seq<bv8> {
    if s == [] || s[|s| - 1] == NEWLINE then s else s + [NEWLINE]
  }

  lemma ClosedTextStep(line: seq<bv8>, rest: seq<bv8>)
    ensures ClosedText(line + [NEWLINE] + rest) == line + [NEWLINE] + ClosedText(rest)
  {
    if rest == [] {
      assert line + [NEWLINE] + rest == line + [NEWLINE];
    } else {
      assert line + [NEWLINE] + rest + [NEWLINE] == line + [NEWLINE] + (rest + [NEWLINE]);
    }
  }

  /** Splitting loses nothing: without carriage returns the lines, closed by newlines, are the text again, but for
      the newline the last line may lack; */
  lemma {:induction false} LinesRebuildText(s: seq<bv8>)
    requires RETURN !in s
    ensures Closed(Lines(s)) == ClosedText(s)
    decreases |s|
  {
    if s != [] {
      var line, rest := FirstLine(s), AfterLine(s);
      FirstLineSplits(s);
      assert Lines(s) == [line] + Lines(rest);
      LinesRebuildText(rest);
      hide Lines, Closed, FirstLine, AfterLine;
      ClosedStep(line, Lines(rest));
      if LineEnd(s) < |s| {
        hide ClosedText, LineEnd;
        ClosedTextStep(line, rest);
      } else {
        assert line + [NEWLINE] + ClosedText([]) == line + [NEWLINE];
      }
    }
  }

  /** ... and no line holds a newline. */
  lemma {:induction false} LinesHaveNoNewline(s: seq<bv8>, k: nat)
    requires k < |Lines(s)|
    ensures NEWLINE !in Lines(s)[k]
    decreases |s|
  {
    if k == 0 {
      FirstLineHasNoNewline(s);
    } else {
      hide FirstLine, LineEnd, AfterLine;
      AfterLineShorter(s);
      LinesHaveNoNewline(AfterLine(s), k - 1);
    }
  }

  lemma FirstLineHasNoNewline(s: seq<bv8>)
    ensures NEWLINE !in FirstLine(s)
  {
    var line := s[..LineEnd(s)];
    assert forall i :: 0 <= i < |line| ==> line[i] != NEWLINE;
    assert forall i :: 0 <= i < |FirstLine(s)| ==> FirstLine(s)[i] == line[i];
  }

  // ---- lines and their endings ---------------------------------------------------------

  /** A line with what closes it: a newline, with a carriage return before it exactly if one stands there; the last
      line may lack the newline, but then it is not empty. */
  predicate Closes(line: seq<bv8>, ending: seq<bv8>, last: bool) {
    && NEWLINE !in line
    && (ending == [NEWLINE] || ending == [RETURN, NEWLINE] || (last && (ending == [] || ending == [RETURN])))
    && (RETURN !in ending ==> line == [] || line[|line| - 1] != RETURN)
    && (ending == [] ==> line != [])
  }

  predicate AllClosed(lines: seq<seq<bv8>>, endings: seq<seq<bv8>>) {
    && |lines| == |endings|
    && forall k :: 0 <= k < |lines| ==> Closes(lines[k], endings[k], k == |lines| - 1)
  }

  /** Every line and its ending. */
  function Woven(lines: seq<seq<bv8>>, endings: seq<seq<bv8>>): seq<bv8>
    requires |lines| == |endings|
  {
    if lines == [] then [] else lines[0] + endings[0] + Woven(lines[1..], endings[1..])
  }

  /** What closes the first line. */
  function FirstEnding(s: seq<bv8>): seq<bv8> {
    var e := LineEnd(s);
    var newline := if e < |s| then [NEWLINE] else [];
    if e > 0 && s[e - 1] == RETURN then [RETURN] + newline else newline
  }

  lemma FirstLineJoins(s: seq<bv8>)
    requires s != []
    ensures FirstLine(s) + FirstEnding(s) + AfterLine(s) == s
  {
    hide LineEnd, StripReturn;
    var e := LineEnd(s);
    var raw, newline := s[..e], if e < |s| then [NEWLINE] else [];
    var cr := if raw != [] && raw[|raw| - 1] == RETURN then [RETURN] else [];
    assert FirstEnding(s) == cr + newline;
    SplitAt(s, e);
    assert raw + newline + AfterLine(s) == s;
    StripJoins(raw, cr);
    assert FirstLine(s) + cr == raw;
    hide FirstLine, FirstEnding, AfterLine;
    Regroup(FirstLine(s), cr, newline);
  }

  lemma StripJoins(raw: seq<bv8>, cr: seq<bv8>)
    requires cr == if raw != [] && raw[|raw| - 1] == RETURN then [RETURN] else []
    ensures StripReturn(raw) + cr == raw
  {
  }

  lemma FirstLineCloses(s: seq<bv8>)
    requires s != []
    ensures Closes(FirstLine(s), FirstEnding(s), AfterLine(s) == [])
  {
    FirstLineHasNoNewline(s);
    hide LineEnd;
    var e := LineEnd(s);
    assert e == 0 || s[..e][|s[..e]| - 1] == s[e - 1];
  }

  /** Every text is its lines, each with its ending; whatever carriage returns it holds. */
  lemma {:induction false} TextIsClosedLines(s: seq<bv8>) returns (endings: seq<seq<bv8>>)
    ensures AllClosed(Lines(s), endings) && Woven(Lines(s), endings) == s
    decreases |s|
  {
    hide FirstLine, FirstEnding, AfterLine, Closes;
    if s == [] {
      endings := [];
    } else {
      AfterLineShorter(s);
      FirstLineJoins(s);
      FirstLineCloses(s);
      var line, rest := FirstLine(s), AfterLine(s);
      var more := TextIsClosedLines(rest);
      endings := [FirstEnding(s)] + more;
      assert Lines(s) == [line] + Lines(rest);
      assert rest == [] ==> Lines(rest) == [];
      hide Lines;
      assert Lines(s)[1..] == Lines(rest) && endings[1..] == more;
      AllClosedCons(line, FirstEnding(s), Lines(rest), more);
    }
  }

  lemma AllClosedCons(line: seq<bv8>, ending: seq<bv8>, lines: seq<seq<bv8>>, endings: seq<seq<bv8>>)
    requires Closes(line, ending, lines == []) && AllClosed(lines, endings)
    ensures AllClosed([line] + lines, [ending] + endings)
  {
    hide Closes;
  }

  /** ... and no other lines with endings make up a text. */
  lemma {:induction false} OnlyItsLines(lines: seq<seq<bv8>>, endings: seq<seq<bv8>>)
    requires AllClosed(lines, endings)
    ensures Lines(Woven(lines, endings)) == lines
  {
    if lines != [] {
      var rest := Woven(lines[1..], endings[1..]);
      assert Closes(lines[0], endings[0], |lines| == 1);
      forall k | 0 <= k < |lines| - 1
        ensures Closes(lines[1..][k], endings[1..][k], k == |lines| - 2)
      {
        assert Closes(lines[k + 1], endings[k + 1], k + 1 == |lines| - 1);
      }
      OnlyItsLines(lines[1..], endings[1..]);
      hide Closes;
      ClosedLineIsFirst(lines[0], endings[0], |lines| == 1, rest);
      hide FirstLine, AfterLine;
    }
  }

  lemma ClosedLineIsFirst(line: seq<bv8>, ending: seq<bv8>, last: bool, rest: seq<bv8>)
    requires Closes(line, ending, last) && (last ==> rest == [])
    ensures var s := line + ending + rest; s != [] && FirstLine(s) == line && AfterLine(s) == rest
  {
    var s := line + ending + rest;
    var raw := line + if RETURN in ending then [RETURN] else [];
    assert s[..|raw|] == raw;
    forall i | 0 <= i < |raw|
      ensures s[i] != NEWLINE
    {
      assert s[i] == raw[i];
    }
    LineEndIs(s, |raw|);
    hide LineEnd;
    assert RETURN in ending ==> raw[..|raw| - 1] == line;
  }

  /** Lines that end in no carriage return can be closed either way. */
  lemma ReturnsDoNotMatter(lines: seq<seq<bv8>>)
    requires forall k :: 0 <= k < |lines| ==> NEWLINE !in lines[k]
    requires forall k :: 0 <= k < |lines| ==> lines[k] == [] || lines[k][|lines[k]| - 1] != RETURN
    ensures Lines(Woven(lines, seq(|lines|, _ => [RETURN, NEWLINE]))) == lines
    ensures Lines(Woven(lines, seq(|lines|, _ => [NEWLINE]))) == lines
  {
    hide Lines, Woven;
    OnlyItsLines(lines, seq(|lines|, _ => [RETURN, NEWLINE]));
    OnlyItsLines(lines, seq(|lines|, _ => [NEWLINE]));
  }

  /** One of the `n` bytes from `i` on is a newline. */
  predicate NewlineWithin(s: seq<bv8>, i: nat, n: nat) {
    exists j :: i <= j < i + n && j < |s| && s[j] == NEWLINE
  }

  /** All lines fit exactly if there is a newline among any `blockLen` bytes in a row. */
  lemma {:induction false} FittingMeans(s: seq<bv8>, blockLen: nat)
    requires blockLen > 0
    ensures AllFit(s, blockLen) <==> forall i: nat :: i + blockLen <= |s| ==> NewlineWithin(s, i, blockLen)
    decreases |s|
  {
    if s != [] {
      var e, rest := LineEnd(s), AfterLine(s);
      AfterLineShorter(s);
      FittingMeans(rest, blockLen);
      if e >= blockLen {
        assert !NewlineWithin(s, 0, blockLen);
      } else if e < |s| {
        hide LineEnd;
        WindowsOf(s, rest, e, blockLen);
      }
    }
  }

  lemma WindowsOf(s: seq<bv8>, rest: seq<bv8>, e: nat, n: nat)
    requires e < |s| && e < n && s[e] == NEWLINE && rest == s[e + 1..]
    ensures (forall i: nat :: i + n <= |s| ==> NewlineWithin(s, i, n)) <==>
            (forall i: nat :: i + n <= |rest| ==> NewlineWithin(rest, i, n))
  {
    forall i: nat | i + n <= |rest|
      ensures NewlineWithin(rest, i, n) <==> NewlineWithin(s, e + 1 + i, n)
    {
      WindowShifted(s, e + 1, i, n);
    }
    if forall i: nat :: i + n <= |rest| ==> NewlineWithin(rest, i, n) {
      forall i: nat | i + n <= |s|
        ensures NewlineWithin(s, i, n)
      {
        if i > e {
          WindowShifted(s, e + 1, i - e - 1, n);
          assert NewlineWithin(rest, i - e - 1, n);
        }
      }
    }
  }

  lemma WindowShifted(s: seq<bv8>, k: nat, i: nat, n: nat)
    requires k <= |s|
    ensures NewlineWithin(s[k..], i, n) <==> NewlineWithin(s, k + i, n)
  {
    var rest := s[k..];
    if NewlineWithin(rest, i, n) {
      var j :| i <= j < i + n && j < |rest| && rest[j] == NEWLINE;
      assert s[k + j] == NEWLINE;
    }
    if NewlineWithin(s, k + i, n) {
      var j :| k + i <= j < k + i + n && j < |s| && s[j] == NEWLINE;
      assert rest[j - k] == NEWLINE;
    }
  }

  /** The lines before one that does not fit are those of a front part of the text, after which `blockLen` bytes
      follow without a newline. */
  lemma {:induction false} FittingIsFront(s: seq<bv8>, blockLen: nat) returns (front: seq<bv8>, back: seq<bv8>)
    requires !AllFit(s, blockLen)
    ensures front + back == s && (front == [] || front[|front| - 1] == NEWLINE) && AllFit(front, blockLen)
    ensures FittingLines(s, blockLen) == Lines(front)
    ensures |back| >= blockLen && !NewlineWithin(back, 0, blockLen)
    decreases |s|
  {
    hide LineEnd, FirstLine, AfterLine, NewlineWithin, AllFit, FittingLines, Lines;
    var e := LineEnd(s);
    FitCases(s, blockLen);
    if e >= blockLen {
      front, back := [], s;
      assert [] + s == s;
    } else {
      AfterLineShorter(s);
      var more;
      more, back := FittingIsFront(AfterLine(s), blockLen);
      front := s[..e + 1] + more;
      FrontGrows(s, more, back, e);
      FitCases(front, blockLen);
    }
  }

  lemma FitCases(s: seq<bv8>, blockLen: nat)
    ensures s == [] ==> AllFit(s, blockLen) && Lines(s) == []
    ensures AllFit([], blockLen) && Lines([]) == []
    ensures s != [] ==> Lines(s) == [FirstLine(s)] + Lines(AfterLine(s))
    ensures s != [] && LineEnd(s) >= blockLen ==> FittingLines(s, blockLen) == [] && !NewlineWithin(s, 0, blockLen)
    ensures s != [] && LineEnd(s) < blockLen ==>
              && FittingLines(s, blockLen) == [FirstLine(s)] + FittingLines(AfterLine(s), blockLen)
              && (AllFit(s, blockLen) <==> AllFit(AfterLine(s), blockLen))
              && (LineEnd(s) == |s| ==> AllFit(s, blockLen))
  {
    hide FirstLine;
  }

  lemma FrontGrows(s: seq<bv8>, more: seq<bv8>, back: seq<bv8>, e: nat)
    requires LineEnd(s) == e < |s| && more + back == AfterLine(s)
    requires more == [] || more[|more| - 1] == NEWLINE
    ensures var front := s[..e + 1] + more;
            && front + back == s && front[|front| - 1] == NEWLINE
            && LineEnd(front) == e && FirstLine(front) == FirstLine(s) && AfterLine(front) == more
  {
    var front := s[..e + 1] + more;
    assert s == s[..e + 1] + s[e + 1..];
    LineEndIs(front, e);
    assert front[..e] == s[..e];
    assert front[e + 1..] == more;
  }

  // ---- the byte order mark -------------------------------------------------------------

  /** The mark is dropped, once, and nothing else. */
  lemma BomIsDropped(s: seq<bv8>)
    ensures DropBom([0xEF, 0xBB, 0xBF] + s) == s
    ensures (forall t :: [0xEF, 0xBB, 0xBF] + t != s) ==> DropBom(s) == s
  {
    assert ([0xEF, 0xBB, 0xBF] + s)[3..] == s;
    if |s| >= 3 {
      assert s[..3] + s[3..] == s;
      assert s[0] == 0xEF && s[1] == 0xBB && s[2] == 0xBF ==> s[..3] == [0xEF, 0xBB, 0xBF];
    }
  }

  function DropBom(s: seq<bv8>): seq<bv8> {
    if |s| >= 3 && s[0] == 0xEF && s[1] == 0xBB && s[2] == 0xBF then s[3..] else s
  }

  lemma LineEndIs(s: seq<bv8>, e: nat)
    requires e <= |s| && (forall i :: 0 <= i < e ==> s[i] != NEWLINE) && (e < |s| ==> s[e] == NEWLINE)
    ensures LineEnd(s) == e
  {
  }

  function Min(a: nat, b: nat): nat {
    if a < b then a else b
  }

  /** What `next_line` returns: null, a pointer into the buffer, or the length-limit exception. */
  datatype Next = EndOfData | Line(start: nat) | TooLong

  /** The bytes not yet returned: those of the buffer, then those not yet taken from the source. */
  function Rest(buf: seq<bv8>, dataBegin: nat, dataEnd: nat, source: seq<bv8>, taken: nat): seq<bv8>
    requires dataBegin <= dataEnd <= |buf| && taken <= |source|
  {
    buf[dataBegin..dataEnd] + source[taken..]
  }

  /** The third block starts with the next `n` bytes of the source. */
  predicate Delivered(buf: seq<bv8>, source: seq<bv8>, blockLen: nat, taken: nat, n: nat) {
    2 * blockLen + n <= |buf| && taken + n <= |source|
      && buf[2 * blockLen..2 * blockLen + n] == source[taken..taken + n]
  }

  class LineReader {
    const blockLen: nat
    const buffer: array<bv8>
    var dataBegin: nat
    var dataEnd: nat
    var fileLine: nat

    /** The byte source, and how many of its bytes have reached the first two blocks. */
    const source: seq<bv8>
    var taken: nat

    /** The asynchronous reader: started at all; its worker still running; the outstanding request already
        served into the third block. */
    var readerValid: bool
    var workerAlive: bool
    var served: bool

    /** The bytes not yet returned as lines. */
    ghost function Remaining(): seq<bv8>
      requires dataBegin <= dataEnd <= buffer.Length && taken <= |source|
      reads this, buffer
    {
      Rest(buffer[..], dataBegin, dataEnd, source, taken)
    }

    /** What the outstanding request will deliver, or has delivered. */
    function Delivery(): nat
      requires taken <= |source|
      reads this
    {
      Min(blockLen, |source| - taken)
    }

    ghost predicate Bounds()
      reads this
    {
      && blockLen >= 2 && buffer.Length == 3 * blockLen
      && dataBegin <= dataEnd <= 2 * blockLen && taken <= |source|
    }

    ghost predicate Valid()
      reads this, buffer
    {
      && Bounds()
      && (taken < |source| ==> readerValid && workerAlive && dataBegin < dataEnd == 2 * blockLen)
      && (served ==> readerValid && Delivered(buffer[..], source, blockLen, taken, Delivery()))
      && (readerValid && !workerAlive && !served ==> dataEnd <= blockLen || dataBegin == dataEnd)
    }

    /** `init`: the first two blocks are read at once; a byte order mark is skipped. */
    constructor (source: seq<bv8>, blockLen: nat)
      requires blockLen >= 2
      ensures Valid() && fresh(buffer) && this.blockLen == blockLen && this.source == source
      ensures Remaining() == DropBom(source)
    {
      this.source, this.blockLen := source, blockLen;
      var n := Min(2 * blockLen, |source|);
      buffer := new bv8[3 * blockLen](i => if 0 <= i < n && n <= |source| then source[i] else NUL);
      dataBegin := if n >= 3 && source[0] == 0xEF && source[1] == 0xBB && source[2] == 0xBF then 3 else 0;
      dataEnd, taken, fileLine := n, n, 0;
      readerValid, workerAlive, served := n == 2 * blockLen, n == 2 * blockLen, false;
      new;
      Rejoin(source, dataBegin, n);
      assert buffer[..n] == source[..n];
      SliceOfPrefix(buffer[..], source, n, dataBegin, n);
    }

    /** The worker thread serves the outstanding request, and exits when the source is at its end. */
    method WorkerServes()
      requires Bounds() && readerValid && workerAlive && !served
      modifies buffer, this`served, this`workerAlive
      ensures served && workerAlive == (Delivery() > 0)
      ensures Delivered(buffer[..], source, blockLen, taken, Delivery())
      ensures buffer[..2 * blockLen] == old(buffer[..2 * blockLen])
    {
      var n := Delivery();
      forall i | 0 <= i < n {
        buffer[2 * blockLen + i] := source[taken + i];
      }
      served, workerAlive := true, n > 0;
    }

    /** `memcpy` of a block to `target` from the block after it. */
    method CopyBlockTo(target: nat)
      requires Bounds() && target + 2 * blockLen <= buffer.Length
      modifies buffer
      ensures buffer[..target] == old(buffer[..target])
      ensures buffer[target..target + blockLen] == old(buffer[target + blockLen..target + 2 * blockLen])
      ensures buffer[target + blockLen..] == old(buffer[target + blockLen..])
    {
      forall i | target <= i < target + blockLen {
        buffer[i] := buffer[i + blockLen];
      }
    }

    /** `finish_read`, taking over the third block, and `start_read`.  Finishing is only allowed while the request
        has been or can still be served: otherwise the caller would wait for ever. */
    method TakeThird()
      requires Bounds() && readerValid && (served || workerAlive)
      requires served ==> Delivered(buffer[..], source, blockLen, taken, Delivery())
      requires taken < |source| ==> workerAlive && dataEnd == blockLen
      requires dataBegin < dataEnd <= blockLen
      modifies buffer, this`dataEnd, this`taken, this`served, this`workerAlive
      ensures Bounds() && !served && dataEnd <= 2 * blockLen
      ensures taken < |source| ==> workerAlive && dataEnd == 2 * blockLen
      ensures !workerAlive ==> dataEnd <= blockLen
      ensures Remaining() == old(Remaining())
    {
      hide Delivered, Rest;
      ghost var buf := buffer[..];
      if !served {
        WorkerServes();
      }
      var n := Delivery();
      ghost var third := buffer[..];
      CopyBlockTo(blockLen);
      RefillKeeps(buf, third, buffer[..], blockLen, dataBegin, dataEnd, source, taken, n);
      dataEnd, taken, served := dataEnd + n, taken + n, false;
    }

    /** Whatever the worker thread gets to do at a point where the caller is elsewhere. */
    method LetWorkerRun()
      requires Valid()
      modifies buffer, this`served, this`workerAlive
      ensures Valid() && Remaining() == old(Remaining())
    {
      hide Delivered;
      if readerValid && workerAlive && !served {
        if * {
          ghost var before := buffer[..];
          assert Remaining() == Rest(before, dataBegin, dataEnd, source, taken);
          WorkerServes();
          SliceOfPrefix(before, buffer[..], 2 * blockLen, dataBegin, dataEnd);
          assert Remaining() == Rest(buffer[..], dataBegin, dataEnd, source, taken);
        }
      }
    }

    /** Moves the second block to the front, and refills behind it if there is an asynchronous reader. */
    method Shift()
      requires Valid() && blockLen <= dataBegin < dataEnd
      modifies buffer, this`dataBegin, this`dataEnd, this`taken, this`served, this`workerAlive
      ensures Valid() && Remaining() == old(Remaining())
      ensures dataBegin == old(dataBegin) - blockLen
    {
      hide Delivered;
      ghost var buf := buffer[..];
      assert Remaining() == Rest(buf, dataBegin, dataEnd, source, taken);
      CopyBlockTo(0);
      ShiftKeeps(buf, buffer[..], blockLen, dataBegin, dataEnd, source, taken, Delivery());
      dataBegin, dataEnd := dataBegin - blockLen, dataEnd - blockLen;
      assert Remaining() == Rest(buffer[..], dataBegin, dataEnd, source, taken);
      if readerValid {
        TakeThird();
      }
    }

    /** The scan for a newline, up to the end of the data. */
    method FindLineEnd() returns (lineEnd: nat)
      requires Bounds()
      ensures dataBegin <= lineEnd <= dataEnd
      ensures forall i :: dataBegin <= i < lineEnd ==> buffer[i] != NEWLINE
      ensures lineEnd < dataEnd ==> buffer[lineEnd] == NEWLINE
    {
      lineEnd := dataBegin;
      while buffer[lineEnd] != NEWLINE && lineEnd != dataEnd
        invariant dataBegin <= lineEnd <= dataEnd
        invariant forall i :: dataBegin <= i < lineEnd ==> buffer[i] != NEWLINE
        decreases dataEnd - lineEnd
      {
        lineEnd := lineEnd + 1;
      }
    }

    /** `next_line`: null exactly at the end of the data, the length-limit error exactly when the next line does
        not fit a block, and otherwise the next line, NUL-terminated in the buffer. */
    method NextLine() returns (r: Next)
      requires Valid()
      modifies buffer, this`dataBegin, this`dataEnd, this`taken, this`served, this`workerAlive, this`fileLine
      ensures r == EndOfData <==> old(Remaining()) == []
      ensures r == EndOfData ==> Valid() && Remaining() == [] && fileLine == old(fileLine)
      ensures r == TooLong <==> old(Remaining()) != [] && LineEnd(old(Remaining())) >= blockLen
      ensures r != EndOfData ==> fileLine == old(fileLine) + 1
      ensures r.Line? ==> Valid() && Remaining() == AfterLine(old(Remaining()))
      ensures r.Line? ==> IsCString(buffer[..], r.start, FirstLine(old(Remaining())))
    {
      hide LineEnd, AfterLine, FirstLine, IsCString, Delivered;
      if dataBegin == dataEnd {
        return EndOfData;
      }
      assert Remaining() != [];
      fileLine := fileLine + 1;
      if dataBegin >= blockLen {
        Shift();
      }
      hide Rest;
      var lineEnd := FindLineEnd();
      ScannedLineEnd(buffer[..], dataBegin, lineEnd, dataEnd, source, taken);
      if lineEnd - dataBegin + 1 > blockLen {
        return TooLong;
      }
      r := CutLine(lineEnd);
    }

    /** The C string at `start`. */
    method TextAt(start: nat, ghost line: seq<bv8>) returns (text: seq<bv8>)
      requires IsCString(buffer[..], start, line)
      ensures text == UpToNul(line)
    {
      var stop := start;
      while buffer[stop] != NUL
        invariant start <= stop <= start + |line|
        invariant forall i :: start <= i < stop ==> buffer[i] != NUL
        decreases start + |line| - stop
      {
        stop := stop + 1;
      }
      text := buffer[start..stop];
      assert text == line[..stop - start];
      UpToNulIs(line, stop - start);
    }

    /** The run of `next_line` calls of a client that takes every line, with the worker running in between as it
        likes.  It ends well exactly when every line fits a block, and has then seen exactly the lines of the
        text; otherwise it has seen all lines before the first that does not fit. */
    method ReadAll() returns (texts: seq<seq<bv8>>, ok: bool)
      requires Valid()
      modifies buffer, this`dataBegin, this`dataEnd, this`taken, this`served, this`workerAlive, this`fileLine
      ensures ok <==> AllFit(old(Remaining()), blockLen)
      ensures texts == Texts(FittingLines(old(Remaining()), blockLen))
      ensures ok ==> texts == Texts(Lines(old(Remaining())))
      ensures fileLine == old(fileLine) + |texts| + if ok then 0 else 1
    {
      hide FirstLine, AfterLine, LineEnd, IsCString, Rest, Delivered;
      ghost var all := Remaining();
      texts := [];
      if AllFit(all, blockLen) {
        FittingIsAll(all, blockLen);
      }
      while true
        invariant Valid() && fileLine == old(fileLine) + |texts|
        invariant texts + Texts(FittingLines(Remaining(), blockLen)) == Texts(FittingLines(all, blockLen))
        invariant AllFit(Remaining(), blockLen) <==> AllFit(all, blockLen)
        decreases |Remaining()|
      {
        LetWorkerRun();
        ghost var rest := Remaining();
        var r := NextLine();
        if r.EndOfData? {
          return texts, true;
        }
        if r.TooLong? {
          return texts, false;
        }
        var text := TextAt(r.start, FirstLine(rest));
        AfterLineShorter(rest);
        FittingStep(texts, rest, blockLen);
        texts := texts + [text];
      }
    }

    /** Terminates the line and steps past it. */
    method CutLine(lineEnd: nat) returns (r: Next)
      requires Valid() && dataBegin < dataEnd && dataBegin <= lineEnd <= dataEnd && dataBegin < blockLen
      requires lineEnd - dataBegin == LineEnd(Remaining()) < blockLen
      requires lineEnd == dataEnd ==> taken == |source| && dataEnd < 2 * blockLen
      modifies buffer, this`dataBegin, this`dataEnd
      ensures Valid() && r.Line? && Remaining() == AfterLine(old(Remaining()))
      ensures IsCString(buffer[..], r.start, FirstLine(old(Remaining())))
    {
      hide LineEnd, AfterLine, FirstLine, IsCString, Delivered, Rest;
      ghost var before, newEnd := buffer[..], if lineEnd == dataEnd then dataEnd + 1 else dataEnd;
      CutIsFirstLine(before, dataBegin, lineEnd, dataEnd, source, taken);
      CutLeavesRest(before, dataBegin, lineEnd, dataEnd, newEnd, source, taken);
      if served {
        CutKeepsThird(before, dataBegin, lineEnd, source, blockLen, taken, Delivery());
      }
      if lineEnd != dataEnd {
        buffer[lineEnd] := NUL;
      } else {
        dataEnd := dataEnd + 1;
        buffer[lineEnd] := NUL;
      }
      if lineEnd != dataBegin && buffer[lineEnd - 1] == RETURN {
        buffer[lineEnd - 1] := NUL;
      }
      assert buffer[..] == Cut(before, dataBegin, lineEnd);
      r := Line(dataBegin);
      dataBegin := lineEnd + 1;
    }
  }

  lemma Rejoin(s: seq<bv8>, a: nat, b: nat)
    requires a <= b <= |s|
    ensures s[a..b] + s[b..] == s[a..]
  {
  }

  lemma ShiftKeeps(buf: seq<bv8>, after: seq<bv8>, blockLen: nat, dataBegin: nat, dataEnd: nat,
                   source: seq<bv8>, taken: nat, n: nat)
    requires |buf| == |after| == 3 * blockLen && blockLen <= dataBegin <= dataEnd <= 2 * blockLen
    requires n <= blockLen && taken + n <= |source|
    requires after[0..blockLen] == buf[blockLen..2 * blockLen] && after[blockLen..] == buf[blockLen..]
    ensures Rest(after, dataBegin - blockLen, dataEnd - blockLen, source, taken) ==
            Rest(buf, dataBegin, dataEnd, source, taken)
    ensures Delivered(buf, source, blockLen, taken, n) ==> Delivered(after, source, blockLen, taken, n)
  {
    SliceSlice(after, 0, blockLen, dataBegin - blockLen, dataEnd - blockLen);
    SliceSlice(buf, blockLen, 2 * blockLen, dataBegin - blockLen, dataEnd - blockLen);
    SliceSlice(after, blockLen, |after|, blockLen, blockLen + n);
    SliceSlice(buf, blockLen, |buf|, blockLen, blockLen + n);
    assert after[blockLen..|after|] == after[blockLen..] && buf[blockLen..|buf|] == buf[blockLen..];
  }

  lemma RefillKeeps(buf: seq<bv8>, third: seq<bv8>, after: seq<bv8>, blockLen: nat, dataBegin: nat, dataEnd: nat,
                    source: seq<bv8>, taken: nat, n: nat)
    requires |buf| == |third| == |after| == 3 * blockLen && dataBegin <= dataEnd <= blockLen
    requires taken + n <= |source| && n <= blockLen && (n > 0 ==> dataEnd == blockLen)
    requires third[..2 * blockLen] == buf[..2 * blockLen]
    requires Delivered(third, source, blockLen, taken, n)
    requires after[..blockLen] == third[..blockLen]
      && after[blockLen..2 * blockLen] == third[2 * blockLen..3 * blockLen]
    ensures Rest(after, dataBegin, dataEnd + n, source, taken + n) == Rest(buf, dataBegin, dataEnd, source, taken)
  {
    SliceOfPrefix(third, after, blockLen, dataBegin, dataEnd);
    SliceOfPrefix(buf, third, 2 * blockLen, dataBegin, dataEnd);
    SliceSlice(after, blockLen, 2 * blockLen, 0, n);
    SliceSlice(third, 2 * blockLen, 3 * blockLen, 0, n);
    assert after[dataBegin..dataEnd + n] == after[dataBegin..dataEnd] + after[dataEnd..dataEnd + n];
    assert after[dataEnd..dataEnd + n] == source[taken..taken + n];
    Rejoin(source, taken, taken + n);
    Regroup(buf[dataBegin..dataEnd], source[taken..taken + n], source[taken + n..]);
  }

  /** The buffer after a line has been terminated in place: its newline, and a carriage return before it, are
      overwritten. */
  function Cut(buf: seq<bv8>, dataBegin: nat, lineEnd: nat): seq<bv8>
    requires dataBegin <= lineEnd < |buf|
  {
    var cut := buf[lineEnd := NUL];
    if lineEnd != dataBegin && buf[lineEnd - 1] == RETURN then cut[lineEnd - 1 := NUL] else cut
  }

  /** The bytes from `start` are `line` and then a NUL. */
  predicate IsCString(buf: seq<bv8>, start: nat, line: seq<bv8>) {
    start + |line| < |buf| && buf[start..start + |line|] == line && buf[start + |line|] == NUL
  }

  lemma CutIsFirstLine(buf: seq<bv8>, dataBegin: nat, lineEnd: nat, dataEnd: nat, source: seq<bv8>, taken: nat)
    requires dataBegin <= lineEnd <= dataEnd < |buf| && taken <= |source|
    requires LineEnd(Rest(buf, dataBegin, dataEnd, source, taken)) == lineEnd - dataBegin
    ensures IsCString(Cut(buf, dataBegin, lineEnd), dataBegin, FirstLine(Rest(buf, dataBegin, dataEnd, source, taken)))
  {
    hide LineEnd, Cut;
    var rest := Rest(buf, dataBegin, dataEnd, source, taken);
    assert rest[..lineEnd - dataBegin] == buf[dataBegin..lineEnd];
    CutTerminates(buf, dataBegin, lineEnd);
  }

  lemma CutTerminates(buf: seq<bv8>, dataBegin: nat, lineEnd: nat)
    requires dataBegin <= lineEnd < |buf|
    ensures IsCString(Cut(buf, dataBegin, lineEnd), dataBegin, StripReturn(buf[dataBegin..lineEnd]))
  {
    var raw, cut := buf[dataBegin..lineEnd], Cut(buf, dataBegin, lineEnd);
    if raw != [] && raw[|raw| - 1] == RETURN {
      assert cut[dataBegin..lineEnd - 1] == raw[..|raw| - 1];
    } else {
      assert cut[dataBegin..lineEnd] == raw;
    }
  }

  lemma CutLeavesRest(buf: seq<bv8>, dataBegin: nat, lineEnd: nat, dataEnd: nat, newEnd: nat, source: seq<bv8>,
    taken: nat)
    requires dataBegin <= lineEnd <= dataEnd < |buf| && taken <= |source|
    requires LineEnd(Rest(buf, dataBegin, dataEnd, source, taken)) == lineEnd - dataBegin
    requires lineEnd == dataEnd ==> taken == |source|
    requires newEnd == if lineEnd == dataEnd then dataEnd + 1 else dataEnd
    ensures Rest(Cut(buf, dataBegin, lineEnd), lineEnd + 1, newEnd, source, taken) ==
            AfterLine(Rest(buf, dataBegin, dataEnd, source, taken))
  {
    hide LineEnd;
    var rest := Rest(buf, dataBegin, dataEnd, source, taken);
    var cut := Cut(buf, dataBegin, lineEnd);
    if lineEnd < dataEnd {
      assert cut[lineEnd + 1..dataEnd] == buf[lineEnd + 1..dataEnd];
      assert rest[lineEnd - dataBegin + 1..] == buf[lineEnd + 1..dataEnd] + source[taken..];
    }
  }

  lemma CutKeepsThird(buf: seq<bv8>, dataBegin: nat, lineEnd: nat, source: seq<bv8>, blockLen: nat, taken: nat, n: nat)
    requires dataBegin <= lineEnd < |buf| && lineEnd < 2 * blockLen
    requires Delivered(buf, source, blockLen, taken, n)
    ensures Delivered(Cut(buf, dataBegin, lineEnd), source, blockLen, taken, n)
  {
    assert Cut(buf, dataBegin, lineEnd)[2 * blockLen..2 * blockLen + n] == buf[2 * blockLen..2 * blockLen + n];
  }

  lemma ScannedLineEnd(buf: seq<bv8>, dataBegin: nat, lineEnd: nat, dataEnd: nat, source: seq<bv8>, taken: nat)
    requires dataBegin <= lineEnd <= dataEnd < |buf| && taken <= |source|
    requires forall i :: dataBegin <= i < lineEnd ==> buf[i] != NEWLINE
    requires lineEnd < dataEnd ==> buf[lineEnd] == NEWLINE
    ensures lineEnd < dataEnd || taken == |source| ==>
              LineEnd(Rest(buf, dataBegin, dataEnd, source, taken)) == lineEnd - dataBegin
    ensures lineEnd == dataEnd ==> LineEnd(Rest(buf, dataBegin, dataEnd, source, taken)) >= lineEnd - dataBegin
  {
    var rest, n := Rest(buf, dataBegin, dataEnd, source, taken), lineEnd - dataBegin;
    assert forall i :: 0 <= i < n ==> rest[i] == buf[dataBegin + i];
    if lineEnd < dataEnd || taken == |source| {
      LineEndIs(rest, n);
    }
  }
}
