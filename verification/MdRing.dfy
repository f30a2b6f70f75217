/**
 The per-instrument record ring and the search for a time range in it.

 `GetMd` and `GetMdByTp` are the queries as functions of the slots and of `current_index`; the class runs
 them with the loops of the source; the theorems say when they equal a linear filter over the live records.
 */
module MdRing {
  import opened Modular
  import Calendar

  const WORD: nat := 0x1_0000_0000_0000_0000
  const HALF: nat := 0x8000_0000_0000_0000

  /** A market data record: its time stamp and the rest. */
  datatype Record<T> = Record(nTimeMill: nat, payload: T)

  /** An answer; its times are 32 bits wide. */
  datatype Ret = Ret(ret: bool, startIndex: nat, endIndex: nat, startTime: nat, endTime: nat)

  const NOT_FOUND := Ret(false, 0, 0, 0, 0)

  /** A time as an answer reports it. */
  function Reported(time: nat): nat {
    time % 0x1_0000_0000
  }

  // ---- the queries ---------------------------------------------------------------------

  function Slot<T>(dat: seq<Record<T>>, i: int): nat
    requires |dat| > 0
  {
    dat[i % |dat|].nTimeMill
  }

  /** The newest index, `current_index - 1` as an unsigned word. */
  function Newest(current: nat): nat {
    if current == 0 then WORD - 1 else current - 1
  }

  /** The oldest index still in the ring. */
  function Oldest(current: nat, n: nat): nat {
    if current >= n then current - n else 0
  }

  /** A word read as a signed integer. */
  function Int64(x: nat): int {
    if x % WORD < HALF then x % WORD else x % WORD - WORD
  }

  /** Where the search may start when at most four records arrive a second. */
  function ShortStart(current: nat, offsetSec: nat): nat {
    var d := Int64(Newest(current)) - 4 * (Int64(offsetSec) + 2);
    if d < 0 then 0 else d
  }

  /** The signed 64-bit arithmetic of the shortcut does not overflow. */
  predicate ShortFits(current: nat, offsetSec: nat) {
    var back := 4 * (Int64(offsetSec) + 2);
    0 <= back + HALF < WORD && 0 <= Int64(Newest(current)) - back + HALF < WORD
  }

  /** The binary search loop: the final value of `right`. */
  function Narrow<T>(dat: seq<Record<T>>, left: nat, right: int, tp: nat): (r: int)
    requires |dat| > 0 && right >= -1
    ensures r >= -1 && (right >= 0 ==> r >= 0) && r <= right
    decreases right - left
  {
    if left >= right then right
    else
      var mid := (left + right) / 2;
      if Slot(dat, mid) == tp then mid
      else if Slot(dat, mid) > tp then
        if mid - 1 < 0 then mid else Narrow(dat, left, mid - 1, tp)
      else Narrow(dat, mid + 1, right, tp)
  }

  /** The search for the last record at or before `tp`, with its correction. */
  function SearchEnd<T>(dat: seq<Record<T>>, left: nat, newest: nat, tp: nat): nat
    requires |dat| > 0
  {
    var right := Narrow(dat, left, newest, tp);
    if Slot(dat, right) > tp && right >= 1 then right - 1 else right
  }

  /** The search for the first record at or after `tp`, with its correction. */
  function SearchStart<T>(dat: seq<Record<T>>, left: nat, newest: nat, tp: nat): nat
    requires |dat| > 0
  {
    var right := Narrow(dat, left, newest, tp);
    if Slot(dat, right) < tp && right < newest then right + 1 else right
  }

  /** Where a search for `tp` begins: at the shortcut if its record is older than `tp`, else at the oldest. */
  function From<T>(dat: seq<Record<T>>, current: nat, offsetSec: nat, tp: nat): nat
    requires |dat| > 0
  {
    var short := ShortStart(current, offsetSec);
    if Slot(dat, short) >= tp then Oldest(current, |dat|) else short
  }

  function GetMd<T>(dat: seq<Record<T>>, current: nat, startTp: nat, endTp: nat, offsetSec: nat): Ret
    requires |dat| > 0
  {
    var newest, oldest := Newest(current), Oldest(current, |dat|);
    if startTp > endTp then NOT_FOUND
    else if Slot(dat, newest) < startTp || Slot(dat, oldest) > endTp then NOT_FOUND
    else
      var e := if endTp >= Slot(dat, newest) then newest
               else SearchEnd(dat, From(dat, current, offsetSec, endTp), newest, endTp);
      var s := if startTp <= Slot(dat, oldest) then oldest
               else SearchStart(dat, From(dat, current, offsetSec, startTp), newest, startTp);
      Ret(true, s, e, Reported(Slot(dat, s)), Reported(Slot(dat, e)))
  }

  function GetMdByTp<T>(dat: seq<Record<T>>, current: nat, endTp: nat): Ret
    requires |dat| > 0
  {
    var newest, oldest := Newest(current), Oldest(current, |dat|);
    if Slot(dat, oldest) > endTp then NOT_FOUND
    else
      var e := if endTp >= Slot(dat, newest) then newest else SearchEnd(dat, oldest, newest, endTp);
      Ret(true, e, e, Reported(Slot(dat, e)), Reported(Slot(dat, e)))
  }

  // ---- what is in the ring -------------------------------------------------------------

  /** Record i of the history is live: it has not been overwritten. */
  predicate Live<T>(dat: seq<Record<T>>, h: seq<Record<T>>, i: int) {
    0 <= i < |h| && |h| - |dat| <= i
  }

  /** Every live record is at its index modulo the ring's length. */
  ghost predicate Holds<T>(dat: seq<Record<T>>, h: seq<Record<T>>) {
    && |dat| > 0
    && forall i :: Live(dat, h, i) ==> dat[i % |dat|] == h[i]
  }

  /** Times do not decrease over the live records. */
  ghost predicate Sorted<T>(dat: seq<Record<T>>, h: seq<Record<T>>) {
    forall i, j :: Live(dat, h, i) && Live(dat, h, j) && i <= j ==> h[i].nTimeMill <= h[j].nTimeMill
  }

  /** At most one live record has time `tp`. */
  ghost predicate Unique<T>(dat: seq<Record<T>>, h: seq<Record<T>>, tp: nat) {
    forall i, j :: Live(dat, h, i) && Live(dat, h, j) && h[i].nTimeMill == tp == h[j].nTimeMill ==> i == j
  }

  /** The shortcut can be computed and does not reach back further than twice the ring. */
  predicate ShortcutInReach(current: nat, n: nat, offsetSec: nat) {
    var short := ShortStart(current, offsetSec);
    ShortFits(current, offsetSec) && short < current && current - 1 - short <= 2 * (n - 1)
  }

  // ---- the search finds the boundary ---------------------------------------------------

  /** `b` is the first live index whose time reaches `tp`. */
  ghost predicate Boundary<T>(dat: seq<Record<T>>, h: seq<Record<T>>, tp: nat, b: nat) {
    && Live(dat, h, b) && h[b].nTimeMill >= tp
    && forall i :: Live(dat, h, i) && i < b ==> h[i].nTimeMill < tp
  }

  lemma {:induction false} FindBoundary<T>(dat: seq<Record<T>>, h: seq<Record<T>>, tp: nat, hi: nat) returns (b: nat)
    requires Sorted(dat, h) && Live(dat, h, hi) && h[hi].nTimeMill >= tp
    ensures Boundary(dat, h, tp, b) && b <= hi
    decreases hi
  {
    if hi > Oldest(|h|, |dat|) && h[hi - 1].nTimeMill >= tp {
      b := FindBoundary(dat, h, tp, hi - 1);
    } else {
      b := hi;
    }
  }

  /** From a live range around the boundary, the loop ends at a record of time `tp` if there is one, and otherwise
      at the boundary or just before it. */
  lemma {:induction false} NarrowFinds<T>(dat: seq<Record<T>>, h: seq<Record<T>>, left: nat, right: int, tp: nat,
    b: nat)
    requires Holds(dat, h) && Sorted(dat, h) && Boundary(dat, h, tp, b)
    requires Oldest(|h|, |dat|) <= left <= b && b - 1 <= right < |h| && left <= right + 1
    requires h[b].nTimeMill == tp ==> b <= right
    requires b == Oldest(|h|, |dat|) ==> h[b].nTimeMill == tp
    ensures Found(dat, h, tp, b, Narrow(dat, left, right, tp))
    decreases right - left
  {
    hide Holds, Sorted, Boundary, Live, Slot, Narrow, Found;
    BoundaryIsLive(dat, h, tp, b);
    NarrowStep(dat, left, right, tp);
    if left >= right {
      FoundNear(dat, h, tp, b, right);
    } else {
      var mid := (left + right) / 2;
      InRangeIsLive(dat, h, mid);
      Compare(dat, h, mid, tp, b);
      if Slot(dat, mid) == tp {
        FoundTie(dat, h, tp, b, mid);
      } else if Slot(dat, mid) > tp {
        NarrowFinds(dat, h, left, mid - 1, tp, b);
      } else {
        NarrowFinds(dat, h, mid + 1, right, tp, b);
      }
    }
  }

  lemma FoundNear<T>(dat: seq<Record<T>>, h: seq<Record<T>>, tp: nat, b: nat, r: int)
    requires b < |h| && b - 1 <= r <= b && h[b].nTimeMill >= tp && (h[b].nTimeMill == tp ==> r == b)
    ensures Found(dat, h, tp, b, r)
  {
  }

  lemma FoundTie<T>(dat: seq<Record<T>>, h: seq<Record<T>>, tp: nat, b: nat, r: nat)
    requires b <= r < |h| && h[r].nTimeMill == tp == h[b].nTimeMill
    ensures Found(dat, h, tp, b, r)
  {
  }

  lemma NarrowStep<T>(dat: seq<Record<T>>, left: nat, right: int, tp: nat)
    requires |dat| > 0 && right >= -1
    ensures left >= right ==> Narrow(dat, left, right, tp) == right
    ensures left < right ==>
              var mid := (left + right) / 2;
              && (Slot(dat, mid) == tp ==> Narrow(dat, left, right, tp) == mid)
              && (Slot(dat, mid) > tp && mid > 0 ==> Narrow(dat, left, right, tp) == Narrow(dat, left, mid - 1, tp))
              && (Slot(dat, mid) < tp ==> Narrow(dat, left, right, tp) == Narrow(dat, mid + 1, right, tp))
  {
    hide Slot;
  }

  /** Where a search for `tp` may end when `b` is the boundary. */
  ghost predicate Found<T>(dat: seq<Record<T>>, h: seq<Record<T>>, tp: nat, b: nat, r: int) {
    && b < |h| && b - 1 <= r < |h|
    && (h[b].nTimeMill == tp ==> b <= r && h[r].nTimeMill == tp)
    && (h[b].nTimeMill > tp ==> r <= b)
  }

  lemma BoundaryIsLive<T>(dat: seq<Record<T>>, h: seq<Record<T>>, tp: nat, b: nat)
    requires Boundary(dat, h, tp, b)
    ensures b < |h| && h[b].nTimeMill >= tp
  {
  }

  lemma InRangeIsLive<T>(dat: seq<Record<T>>, h: seq<Record<T>>, i: nat)
    requires Oldest(|h|, |dat|) <= i < |h|
    ensures Live(dat, h, i)
  {
  }

  /** What one probe says about the boundary. */
  lemma Compare<T>(dat: seq<Record<T>>, h: seq<Record<T>>, mid: nat, tp: nat, b: nat)
    requires Holds(dat, h) && Sorted(dat, h) && Boundary(dat, h, tp, b) && Live(dat, h, mid)
    ensures |dat| > 0 && b < |h| && h[b].nTimeMill >= tp
    ensures Slot(dat, mid) < tp ==> mid < b
    ensures Slot(dat, mid) > tp ==> b <= mid && (h[b].nTimeMill == tp ==> b < mid)
    ensures Slot(dat, mid) == tp ==> b <= mid < |h| && h[mid].nTimeMill == tp == h[b].nTimeMill
  {
    assert Slot(dat, mid) == h[mid].nTimeMill;
  }

  /** A shortcut older than the ring is only taken when its slot's (newer) record is before `tp`; then the
      first probe is already among the live records, and it moves past all dead indices. */
  lemma DeadShortcutRecovers<T>(dat: seq<Record<T>>, h: seq<Record<T>>, left: nat, tp: nat, b: nat)
    requires Holds(dat, h) && Sorted(dat, h) && Boundary(dat, h, tp, b)
    requires left < Oldest(|h|, |dat|) && Slot(dat, left) < tp && |h| - 1 - left <= 2 * (|dat| - 1)
    ensures var mid := (left + |h| - 1) / 2;
            Live(dat, h, mid) && mid < b && Narrow(dat, left, |h| - 1, tp) == Narrow(dat, mid + 1, |h| - 1, tp)
  {
    var alias := left + |dat|;
    ModStep(left, |dat|);
    assert Live(dat, h, alias) && h[alias].nTimeMill < tp;
    var mid := (left + |h| - 1) / 2;
    assert Live(dat, h, mid) && mid < alias;
    assert Slot(dat, mid) == h[mid].nTimeMill <= h[alias].nTimeMill;
  }

  lemma BeforeBoundary<T>(dat: seq<Record<T>>, h: seq<Record<T>>, i: nat, tp: nat, b: nat)
    requires Holds(dat, h) && Sorted(dat, h) && Boundary(dat, h, tp, b) && Live(dat, h, i) && Slot(dat, i) < tp
    ensures i < b
  {
  }

  /** From wherever the source begins, the loop finds its end if the shortcut is in reach. */
  lemma SearchFinds<T>(dat: seq<Record<T>>, h: seq<Record<T>>, offsetSec: nat, tp: nat, b: nat)
    requires Holds(dat, h) && Sorted(dat, h) && Boundary(dat, h, tp, b) && |h| < HALF
    requires ShortcutInReach(|h|, |dat|, offsetSec)
    requires b == Oldest(|h|, |dat|) ==> h[b].nTimeMill == tp
    ensures Found(dat, h, tp, b, Narrow(dat, From(dat, |h|, offsetSec, tp), |h| - 1, tp))
  {
    hide Narrow, ShortStart, Found, Sorted, Holds;
    var oldest, newest := Oldest(|h|, |dat|), |h| - 1;
    var left := From(dat, |h|, offsetSec, tp);
    if left >= oldest {
      if left > oldest {
        BeforeBoundary(dat, h, left, tp, b);
      }
      hide Boundary, From;
      NarrowFinds(dat, h, left, newest, tp, b);
    } else {
      DeadShortcutRecovers(dat, h, left, tp, b);
      NarrowFinds(dat, h, (left + newest) / 2 + 1, newest, tp, b);
    }
  }

  // ---- the queries equal a linear filter -----------------------------------------------

  /** `e` is a last live index at or before `tp`, up to equal times: no record up to it is later, all earlier records
      are up to it, and it has the time `tp` if any record does. */
  ghost predicate EndsAt<T>(dat: seq<Record<T>>, h: seq<Record<T>>, tp: nat, e: int) {
    Live(dat, h, e) &&
    forall i :: Live(dat, h, i) ==>
      && (i <= e ==> h[i].nTimeMill <= tp)
      && (h[i].nTimeMill < tp ==> i <= e)
      && (h[i].nTimeMill == tp ==> h[e].nTimeMill == tp)
  }

  /** `s` is a first live index at or after `tp`, up to equal times. */
  ghost predicate StartsAt<T>(dat: seq<Record<T>>, h: seq<Record<T>>, tp: nat, s: int) {
    Live(dat, h, s) &&
    forall i :: Live(dat, h, i) ==>
      && (s <= i ==> h[i].nTimeMill >= tp)
      && (h[i].nTimeMill > tp ==> s <= i)
      && (h[i].nTimeMill == tp ==> h[s].nTimeMill == tp)
  }

  lemma SearchEndFinds<T>(dat: seq<Record<T>>, h: seq<Record<T>>, left: nat, tp: nat, b: nat)
    requires Holds(dat, h) && Sorted(dat, h) && Boundary(dat, h, tp, b)
    requires b == Oldest(|h|, |dat|) ==> h[b].nTimeMill == tp
    requires Found(dat, h, tp, b, Narrow(dat, left, |h| - 1, tp))
    ensures EndsAt(dat, h, tp, SearchEnd(dat, left, |h| - 1, tp))
  {
    var r := Narrow(dat, left, |h| - 1, tp);
    assert Live(dat, h, r) && Slot(dat, r) == h[r].nTimeMill;
  }

  lemma SearchStartFinds<T>(dat: seq<Record<T>>, h: seq<Record<T>>, left: nat, tp: nat, b: nat)
    requires Holds(dat, h) && Sorted(dat, h) && Boundary(dat, h, tp, b) && b > Oldest(|h|, |dat|)
    requires Found(dat, h, tp, b, Narrow(dat, left, |h| - 1, tp))
    ensures StartsAt(dat, h, tp, SearchStart(dat, left, |h| - 1, tp))
  {
    var r := Narrow(dat, left, |h| - 1, tp);
    assert Live(dat, h, r) && Slot(dat, r) == h[r].nTimeMill;
  }

  /** With records in the ring, times in order and the shortcut in reach, `get_md` answers no only if no live record
      is in the time range; otherwise the range of indices it gives starts and ends where it should, up to records
      with exactly the asked times: it holds every record strictly between them and none outside. */
  lemma GetMdWithTies<T>(dat: seq<Record<T>>, h: seq<Record<T>>, startTp: nat, endTp: nat, offsetSec: nat)
    requires Holds(dat, h) && Sorted(dat, h)
    requires 0 < |h| < HALF && ShortcutInReach(|h|, |dat|, offsetSec)
    ensures var r := GetMd(dat, |h|, startTp, endTp, offsetSec);
            if r.ret then
              && StartsAt(dat, h, startTp, r.startIndex) && EndsAt(dat, h, endTp, r.endIndex)
              && r.startTime == Reported(h[r.startIndex].nTimeMill) && r.endTime == Reported(h[r.endIndex].nTimeMill)
            else forall i :: Live(dat, h, i) ==> !(startTp <= h[i].nTimeMill <= endTp)
  {
    hide Found, Narrow, SearchEnd, SearchStart, ShortStart, From, Boundary;
    var newest, oldest := |h| - 1, Oldest(|h|, |dat|);
    var r := GetMd(dat, |h|, startTp, endTp, offsetSec);
    assert Live(dat, h, newest) && Live(dat, h, oldest);
    if r.ret {
      if endTp < h[newest].nTimeMill {
        EndFinds(dat, h, offsetSec, endTp);
      }
      if startTp > h[oldest].nTimeMill {
        StartFinds(dat, h, offsetSec, startTp);
      }
      assert Slot(dat, r.endIndex) == h[r.endIndex].nTimeMill;
      assert Slot(dat, r.startIndex) == h[r.startIndex].nTimeMill;
    }
  }

  lemma EndFinds<T>(dat: seq<Record<T>>, h: seq<Record<T>>, offsetSec: nat, tp: nat)
    requires Holds(dat, h) && Sorted(dat, h) && 0 < |h| < HALF && ShortcutInReach(|h|, |dat|, offsetSec)
    requires h[Oldest(|h|, |dat|)].nTimeMill <= tp < h[|h| - 1].nTimeMill
    ensures EndsAt(dat, h, tp, SearchEnd(dat, From(dat, |h|, offsetSec, tp), |h| - 1, tp))
  {
    hide Narrow, From, SearchEnd, Found, EndsAt;
    var b := FindBoundary(dat, h, tp, |h| - 1);
    SearchFinds(dat, h, offsetSec, tp, b);
    SearchEndFinds(dat, h, From(dat, |h|, offsetSec, tp), tp, b);
  }

  lemma StartFinds<T>(dat: seq<Record<T>>, h: seq<Record<T>>, offsetSec: nat, tp: nat)
    requires Holds(dat, h) && Sorted(dat, h) && 0 < |h| < HALF && ShortcutInReach(|h|, |dat|, offsetSec)
    requires h[Oldest(|h|, |dat|)].nTimeMill < tp <= h[|h| - 1].nTimeMill
    ensures StartsAt(dat, h, tp, SearchStart(dat, From(dat, |h|, offsetSec, tp), |h| - 1, tp))
  {
    hide Narrow, From, SearchStart, Found, StartsAt;
    var b := FindBoundary(dat, h, tp, |h| - 1);
    SearchFinds(dat, h, offsetSec, tp, b);
    SearchStartFinds(dat, h, From(dat, |h|, offsetSec, tp), tp, b);
  }

  /** `r` selects exactly the live records with startTp <= time <= endTp; a negative answer means there are none. */
  ghost predicate Selects<T>(dat: seq<Record<T>>, h: seq<Record<T>>, startTp: nat, endTp: nat, r: Ret) {
    && (r.ret ==> Oldest(|h|, |dat|) <= r.startIndex < |h| && Oldest(|h|, |dat|) <= r.endIndex < |h|)
    && (r.ret ==> r.startTime == Reported(h[r.startIndex].nTimeMill))
    && (r.ret ==> r.endTime == Reported(h[r.endIndex].nTimeMill))
    && (forall i :: Live(dat, h, i) ==>
          (startTp <= h[i].nTimeMill <= endTp <==> r.ret && r.startIndex <= i <= r.endIndex))
  }

  /** Where the range ends it is exact: the time is not duplicated, or the newest record is not later. */
  ghost predicate EndIsExact<T>(dat: seq<Record<T>>, h: seq<Record<T>>, endTp: nat)
    requires |h| > 0
  {
    Unique(dat, h, endTp) || endTp >= h[|h| - 1].nTimeMill
  }

  /** Where it starts: the time is not duplicated, or the oldest record is not earlier. */
  ghost predicate StartIsExact<T>(dat: seq<Record<T>>, h: seq<Record<T>>, startTp: nat)
    requires |h| > 0 && |dat| > 0
  {
    Unique(dat, h, startTp) || startTp <= h[Oldest(|h|, |dat|)].nTimeMill
  }

  /** If moreover an asked time strictly inside the live window is not duplicated, `get_md` is the linear filter; in
      particular its answer does not depend on the shortcut. */
  lemma GetMdIsFilter<T>(dat: seq<Record<T>>, h: seq<Record<T>>, startTp: nat, endTp: nat, offsetSec: nat)
    requires Holds(dat, h) && Sorted(dat, h) && 0 < |h| < HALF && ShortcutInReach(|h|, |dat|, offsetSec)
    requires StartIsExact(dat, h, startTp) && EndIsExact(dat, h, endTp)
    ensures Selects(dat, h, startTp, endTp, GetMd(dat, |h|, startTp, endTp, offsetSec))
  {
    GetMdWithTies(dat, h, startTp, endTp, offsetSec);
    GetMdAtEnds(dat, h, startTp, endTp, offsetSec);
    var r := GetMd(dat, |h|, startTp, endTp, offsetSec);
    hide GetMd;
    forall i | Live(dat, h, i)
      ensures startTp <= h[i].nTimeMill <= endTp <==> r.ret && r.startIndex <= i <= r.endIndex
    {
    }
  }

  /** Asked from the oldest or up to the newest record or beyond, the query takes them without a search. */
  lemma GetMdAtEnds<T>(dat: seq<Record<T>>, h: seq<Record<T>>, startTp: nat, endTp: nat, offsetSec: nat)
    requires Holds(dat, h) && 0 < |h| < HALF
    ensures var r := GetMd(dat, |h|, startTp, endTp, offsetSec);
            && (r.ret && endTp >= h[|h| - 1].nTimeMill ==> r.endIndex == |h| - 1)
            && (r.ret && startTp <= h[Oldest(|h|, |dat|)].nTimeMill ==> r.startIndex == Oldest(|h|, |dat|))
  {
    hide SearchEnd, SearchStart, From;
    assert Live(dat, h, |h| - 1) && Live(dat, h, Oldest(|h|, |dat|));
  }

  /** `get_md_by_tp` returns a last live record at or before `endTp`, up to equal times, and nothing only if there is
      none. */
  lemma GetMdByTpWithTies<T>(dat: seq<Record<T>>, h: seq<Record<T>>, endTp: nat)
    requires Holds(dat, h) && Sorted(dat, h) && 0 < |h| < HALF
    ensures var r := GetMdByTp(dat, |h|, endTp);
            if r.ret then
              && EndsAt(dat, h, endTp, r.endIndex) && r.startIndex == r.endIndex
              && r.startTime == r.endTime == Reported(h[r.endIndex].nTimeMill)
            else forall i :: Live(dat, h, i) ==> h[i].nTimeMill > endTp
  {
    hide Narrow, SearchEnd, Found;
    var newest, oldest := |h| - 1, Oldest(|h|, |dat|);
    assert Live(dat, h, newest) && Live(dat, h, oldest);
    if h[oldest].nTimeMill <= endTp < h[newest].nTimeMill {
      var b := FindBoundary(dat, h, endTp, newest);
      NarrowFinds(dat, h, oldest, newest, endTp, b);
      SearchEndFinds(dat, h, oldest, endTp, b);
    }
    var r := GetMdByTp(dat, |h|, endTp);
    assert r.ret ==> Slot(dat, r.endIndex) == h[r.endIndex].nTimeMill;
  }

  /** If the asked time is not duplicated, or the newest record is not later, it is the last such record. */
  lemma GetMdByTpIsLast<T>(dat: seq<Record<T>>, h: seq<Record<T>>, endTp: nat)
    requires Holds(dat, h) && Sorted(dat, h) && 0 < |h| < HALF && EndIsExact(dat, h, endTp)
    ensures var r := GetMdByTp(dat, |h|, endTp);
            && (r.ret ==> Live(dat, h, r.endIndex) && r.startIndex == r.endIndex)
            && (r.ret ==> r.startTime == r.endTime == Reported(h[r.endIndex].nTimeMill))
            && (forall i :: Live(dat, h, i) ==> (h[i].nTimeMill <= endTp <==> r.ret && i <= r.endIndex))
  {
    GetMdByTpWithTies(dat, h, endTp);
    assert Live(dat, h, |h| - 1) && Slot(dat, |h| - 1) == h[|h| - 1].nTimeMill;
    hide SearchEnd;
  }

  // ---- the reported times --------------------------------------------------------------

  /** Both queries report a record's own time exactly if it is below 2^32. */
  lemma ReportedTimesAreCut<T>(dat: seq<Record<T>>, h: seq<Record<T>>, startTp: nat, endTp: nat, offsetSec: nat)
    requires Holds(dat, h) && Sorted(dat, h) && 0 < |h| < HALF && ShortcutInReach(|h|, |dat|, offsetSec)
    ensures var r := GetMd(dat, |h|, startTp, endTp, offsetSec);
            r.ret ==>
              && Live(dat, h, r.startIndex) && Live(dat, h, r.endIndex)
              && (r.startTime == h[r.startIndex].nTimeMill <==> h[r.startIndex].nTimeMill < 0x1_0000_0000)
              && (r.endTime == h[r.endIndex].nTimeMill <==> h[r.endIndex].nTimeMill < 0x1_0000_0000)
    ensures var r := GetMdByTp(dat, |h|, endTp);
            r.ret ==>
              && Live(dat, h, r.endIndex)
              && (r.endTime == h[r.endIndex].nTimeMill <==> h[r.endIndex].nTimeMill < 0x1_0000_0000)
  {
    hide GetMd, GetMdByTp, Holds, Sorted, ShortcutInReach, Reported;
    GetMdWithTies(dat, h, startTp, endTp, offsetSec);
    GetMdByTpWithTies(dat, h, endTp);
    forall t: nat
      ensures Reported(t) == t <==> t < 0x1_0000_0000
    {
      CutIsExact(t);
    }
  }

  lemma CutIsExact(t: nat)
    ensures Reported(t) == t <==> t < 0x1_0000_0000
  {
  }

  /** Where the records carry packed timestamps, no answer reports the time of its record. */
  lemma PackedTimesAreNotReported<T>(dat: seq<Record<T>>, h: seq<Record<T>>, startTp: nat, endTp: nat, offsetSec: nat)
    requires Holds(dat, h) && Sorted(dat, h) && 0 < |h| < HALF && ShortcutInReach(|h|, |dat|, offsetSec)
    requires forall i :: Live(dat, h, i) ==> Calendar.IsTimestamp(h[i].nTimeMill)
    ensures var r := GetMd(dat, |h|, startTp, endTp, offsetSec);
            r.ret ==> r.startTime != h[r.startIndex].nTimeMill && r.endTime != h[r.endIndex].nTimeMill
    ensures var r := GetMdByTp(dat, |h|, endTp);
            r.ret ==> r.endTime != h[r.endIndex].nTimeMill
  {
    hide GetMd, GetMdByTp, Calendar.IsTimestamp;
    ReportedTimesAreCut(dat, h, startTp, endTp, offsetSec);
    forall i | Live(dat, h, i)
      ensures h[i].nTimeMill >= 0x1_0000_0000
    {
      Calendar.TimestampIsLong(h[i].nTimeMill);
    }
  }

  /** Half past nine on the second of January 2024 comes back as another number. */
  lemma OneTimeIsCut()
    ensures Calendar.IsTimestamp(20240102_093000_000)
    ensures GetMdByTp([Record(20240102_093000_000, 0)], 1, 20240102_093000_000) ==
            Ret(true, 0, 0, 4286090560, 4286090560)
  {
    assert Calendar.Extract(20240102_093000_000) == Calendar.Time(2024, 1, 2, 9, 30, 0);
    hide Calendar.Extract;
    assert Reported(20240102_093000_000) == 4286090560;
    hide Reported, SearchEnd;
  }

  // ---- when the conditions hold, and what happens when they do not ---------------------

  /** Offsets below this do not overflow. */
  const MAX_OFFSET: nat := 0x2000_0000_0000_0000 - 2

  /** The offset between two packed timestamps never overflows. */
  lemma OffsetOfTimesFits(current: nat, startTp: nat, endTp: nat)
    requires 0 < current < HALF && startTp <= endTp
    requires Calendar.IsTimestamp(startTp) && Calendar.IsTimestamp(endTp)
    ensures Calendar.HasDate(startTp) && Calendar.HasDate(endTp)
    ensures Calendar.Offset(startTp, endTp) < MAX_OFFSET && ShortFits(current, Calendar.Offset(startTp, endTp))
  {
    Calendar.OffsetIsSmall(startTp, endTp);
    hide Calendar.Offset, Calendar.Extract;
    SmallOffsetFits(current, Calendar.Offset(startTp, endTp));
  }

  lemma SmallOffsetFits(current: nat, offsetSec: nat)
    requires 0 < current < HALF && offsetSec < MAX_OFFSET
    ensures ShortFits(current, offsetSec)
  {
  }

  /** The shortcut is in reach whenever it spans less than two rings, or the ring is short of its second wrap. */
  lemma ReachBySpan(current: nat, n: nat, offsetSec: nat)
    requires n > 0 && 0 < current < HALF && offsetSec < MAX_OFFSET
    requires 4 * (offsetSec + 2) <= 2 * (n - 1) || current <= 2 * n - 1
    ensures ShortcutInReach(current, n, offsetSec)
  {
  }

  /** The reach is the best possible, for every ring length: one record further back, the shortcut passes the test
      on its slot, the first probe is dead and holds the newest time, and the query answers with a dead index. */
  lemma ShortcutOneTooFarMisses<T>(dat: seq<Record<T>>, h: seq<Record<T>>, startTp: nat, endTp: nat, offsetSec: nat)
    requires Holds(dat, h) && |dat| >= 2 && |h| == 2 * |dat| < HALF && offsetSec < MAX_OFFSET
    requires 4 * (offsetSec + 2) >= |h| - 1 && startTp <= endTp
    requires h[|dat|].nTimeMill < endTp < h[|h| - 1].nTimeMill
    ensures |h| - 1 - ShortStart(|h|, offsetSec) == 2 * (|dat| - 1) + 1
    ensures !ShortcutInReach(|h|, |dat|, offsetSec)
    ensures var r := GetMd(dat, |h|, startTp, endTp, offsetSec);
            r.ret && !Live(dat, h, r.endIndex) && !Selects(dat, h, startTp, endTp, r)
  {
    var n := |dat|;
    TwiceRound(dat, h);
    ShortIsZero(2 * n, offsetSec);
    hide ShortStart, Slot, GetMd;
    AnswersDead(dat, startTp, endTp, offsetSec);
  }

  lemma ShortIsZero(current: nat, offsetSec: nat)
    requires 0 < current < HALF && offsetSec < HALF && 4 * (offsetSec + 2) >= current - 1
    ensures ShortStart(current, offsetSec) == 0
  {
  }

  lemma AnswersDead<T>(dat: seq<Record<T>>, startTp: nat, endTp: nat, offsetSec: nat)
    requires |dat| >= 2 && startTp <= endTp
    requires ShortStart(2 * |dat|, offsetSec) == 0
    requires var n := |dat|;
             Slot(dat, 0) == Slot(dat, n) < endTp < Slot(dat, n - 1) == Slot(dat, 2 * n - 1)
    ensures var r := GetMd(dat, 2 * |dat|, startTp, endTp, offsetSec); r.ret && r.endIndex < |dat|
  {
    hide Slot, ShortStart, Narrow, SearchStart;
    var n := |dat|;
    assert From(dat, 2 * n, offsetSec, endTp) == 0;
    FirstProbeIsDead(dat, 2 * n - 1, endTp);
  }

  /** What is in the slots when the ring has been filled twice. */
  lemma TwiceRound<T>(dat: seq<Record<T>>, h: seq<Record<T>>)
    requires Holds(dat, h) && |dat| >= 2 && |h| == 2 * |dat|
    ensures var n := |dat|;
            && Slot(dat, 0) == h[n].nTimeMill == Slot(dat, n)
            && Slot(dat, n - 1) == h[2 * n - 1].nTimeMill == Slot(dat, 2 * n - 1)
  {
    var n := |dat|;
    ModStep(0, n);
    ModStep(n - 1, n);
    assert Live(dat, h, n) && Live(dat, h, 2 * n - 1);
  }

  lemma FirstProbeIsDead<T>(dat: seq<Record<T>>, newest: nat, tp: nat)
    requires |dat| >= 2 && newest == 2 * |dat| - 1 && Slot(dat, |dat| - 1) > tp
    ensures Narrow(dat, 0, newest, tp) <= |dat| - 2
  {
    hide Slot;
    assert (0 + newest) / 2 == |dat| - 1;
    assert Narrow(dat, 0, newest, tp) == Narrow(dat, 0, |dat| - 2, tp);
  }

  /** Records with an asked time inside the live window more than once: the search stops at any of them. */
  lemma TiesAreMissed()
    ensures var dat := [Record(5, 0), Record(5, 0), Record(5, 0), Record(7, 0)];
            ShortcutInReach(4, 4, 0) && GetMd(dat, 4, 5, 5, 0) == Ret(true, 0, 1, 5, 5)
  {
    var dat := [Record(5, 0), Record(5, 0), Record(5, 0), Record(7, 0)];
    assert ShortStart(4, 0) == 0;
    assert Narrow(dat, 0, 3, 5) == 1;
  }

  /** On an instrument without records the slots are zeroed: the range query answers exactly when asked from
      time 0, the point query always, and both name index 2^64 - 1. */
  lemma EmptyRingAnswers<T>(dat: seq<Record<T>>, startTp: nat, endTp: nat, offsetSec: nat)
    requires |dat| > 0 && startTp <= endTp && forall i :: 0 <= i < |dat| ==> dat[i].nTimeMill == 0
    ensures var r := GetMd(dat, 0, startTp, endTp, offsetSec);
            (r.ret <==> startTp == 0) && (r.ret ==> r.endIndex == WORD - 1)
    ensures GetMdByTp(dat, 0, endTp) == Ret(true, WORD - 1, WORD - 1, 0, 0)
  {
  }

  // ---- the ring object -----------------------------------------------------------------

  class InstrumentRing<T> {
    const dat: array<Record<T>>
    var currentIndex: nat

    /** Every record received. */
    ghost var history: seq<Record<T>>

    ghost predicate Valid()
      reads this, dat
    {
      dat.Length > 0 && currentIndex == |history| && Holds(dat[..], history)
    }

    constructor (bufferLen: nat, blank: T)
      requires bufferLen > 0
      ensures Valid() && fresh(dat) && dat.Length == bufferLen && history == []
    {
      dat := new Record<T>[bufferLen](_ => Record(0, blank));
      currentIndex, history := 0, [];
    }

    /** `on_rtn_data` without a comparison: writes the next slot, then advances the index. */
    method OnRtnData(newData: Record<T>)
      requires Valid()
      modifies this, dat
      ensures Valid() && history == old(history) + [newData]
    {
      var n := dat.Length;
      forall i | Oldest(|history| + 1, n) <= i < |history|
        ensures i % n != currentIndex % n
      {
        SlotsDiffer(i, currentIndex, n);
      }
      dat[currentIndex % n] := newData;
      currentIndex := currentIndex + 1;
      history := history + [newData];
    }

    /** `get_cur`: the newest record, if there is one. */
    method GetCur() returns (found: bool, index: nat)
      requires Valid()
      ensures found == (history != [])
      ensures found ==> index < dat.Length && dat[index] == history[|history| - 1]
    {
      found, index := false, 0;
      if currentIndex >= 1 {
        assert Live(dat[..], history, currentIndex - 1);
        found, index := true, (currentIndex - 1) % dat.Length;
      }
    }

    /** The binary search loop. */
    method Search(left0: nat, right0: nat, tp: nat) returns (right: nat)
      requires dat.Length > 0
      ensures right == Narrow(dat[..], left0, right0, tp)
    {
      var left: nat, r: int := left0, right0;
      while left < r
        invariant r >= -1 && (r == -1 ==> false)
        invariant Narrow(dat[..], left, r, tp) == Narrow(dat[..], left0, right0, tp)
        decreases r - left
      {
        var mid := (left + r) / 2;
        var t := dat[mid % dat.Length].nTimeMill;
        if t == tp {
          return mid;
        }
        if t > tp {
          if mid - 1 < 0 {
            return mid;
          }
          r := mid - 1;
        } else {
          left := mid + 1;
        }
      }
      right := r;
    }

    /** The search and its correction, for the end of a range. */
    method LastAtOrBefore(left: nat, newest: nat, tp: nat) returns (e: nat)
      requires dat.Length > 0
      ensures e == SearchEnd(dat[..], left, newest, tp)
    {
      e := Search(left, newest, tp);
      if dat[e % dat.Length].nTimeMill > tp && e >= 1 {
        e := e - 1;
      }
    }

    /** The search and its correction, for the start of a range. */
    method FirstAtOrAfter(left: nat, newest: nat, tp: nat) returns (s: nat)
      requires dat.Length > 0
      ensures s == SearchStart(dat[..], left, newest, tp)
    {
      s := Search(left, newest, tp);
      if dat[s % dat.Length].nTimeMill < tp && s < newest {
        s := s + 1;
      }
    }

    /** `get_md` by time range and shortcut. */
    method GetRange(startTp: nat, endTp: nat, offsetSec: nat) returns (r: Ret)
      requires Valid() && ShortFits(currentIndex, offsetSec)
      ensures r == GetMd(dat[..], currentIndex, startTp, endTp, offsetSec)
    {
      hide SearchEnd, SearchStart, Holds, ShortStart, Oldest, Newest;
      var n := dat.Length;
      if startTp > endTp {
        return NOT_FOUND;
      }
      var newest, oldest, short := Newest(currentIndex), Oldest(currentIndex, n), ShortStart(currentIndex, offsetSec);
      var endTime, oldestTime := dat[newest % n].nTimeMill, dat[oldest % n].nTimeMill;
      var shortTime := dat[short % n].nTimeMill;
      if endTime < startTp || oldestTime > endTp {
        return NOT_FOUND;
      }
      var e, s := newest, oldest;
      if endTp < endTime {
        e := LastAtOrBefore(if shortTime >= endTp then oldest else short, newest, endTp);
      }
      if startTp > oldestTime {
        s := FirstAtOrAfter(if shortTime >= startTp then oldest else short, newest, startTp);
      }
      r := Ret(true, s, e, Reported(dat[s % n].nTimeMill), Reported(dat[e % n].nTimeMill));
    }

    method GetByTp(endTp: nat) returns (r: Ret)
      requires Valid()
      ensures r == GetMdByTp(dat[..], currentIndex, endTp)
    {
      hide SearchEnd, Holds, Oldest, Newest;
      var n := dat.Length;
      var newest, oldest := Newest(currentIndex), Oldest(currentIndex, n);
      if dat[oldest % n].nTimeMill > endTp {
        return NOT_FOUND;
      }
      var e := newest;
      if endTp < dat[newest % n].nTimeMill {
        e := LastAtOrBefore(oldest, newest, endTp);
      }
      r := Ret(true, e, e, Reported(dat[e % n].nTimeMill), Reported(dat[e % n].nTimeMill));
    }
  }
}
