/**
 Verification of hash chains (s0/immutable-ledger/src/service/mod.rs, `verify_entry` and
 `verify_chain`), what a tampered record does to it, and what the tip hash commits to.
 */
module LedgerVerifier {
  import opened Wrappers
  import opened LedgerCrypto
  import opened LedgerRepository
  import opened Sorting

  datatype FailureReason = NoFailure | ChainLinkMismatch | EntryHashMismatch

  datatype ChainReport = ChainReport(valid: bool, checked: int, firstInvalid: Option<nat>, reason: FailureReason)

  /******* The declarative condition *******/

  /** The hash that record `i` must name as its predecessor's. */
  function ExpectedPrevious(h: Scheme, es: seq<Entry>, i: nat): Text
    requires i < |es|
  {
    if i == 0 && es[i].position == 1 then h.genesis
    else if i > 0 then es[i - 1].entryHash
    else es[i].previousHash
  }

  predicate LinkHolds(h: Scheme, es: seq<Entry>, i: nat)
    requires i < |es|
  {
    es[i].previousHash == ExpectedPrevious(h, es, i)
  }

  predicate Sound(h: Scheme, es: seq<Entry>, i: nat)
    requires i < |es|
  {
    LinkHolds(h, es, i) && es[i].entryHash == h.hash(BodyOf(es[i]))
  }

  ghost predicate AllSound(h: Scheme, es: seq<Entry>) {
    forall i {:trigger Sound(h, es, i)} :: 0 <= i < |es| ==> Sound(h, es, i)
  }

  /** The report names the least index at which the condition fails, if any. */
  ghost predicate Pinpoints(h: Scheme, es: seq<Entry>, r: ChainReport) {
    if r.valid then AllSound(h, es) && r == ChainReport(true, |es|, None, NoFailure)
    else
      && 1 <= r.checked <= |es|
      && (forall i {:trigger Sound(h, es, i)} :: 0 <= i < r.checked - 1 ==> Sound(h, es, i))
      && !Sound(h, es, r.checked - 1)
      && r.firstInvalid == Some(es[r.checked - 1].id)
      && r.reason == if LinkHolds(h, es, r.checked - 1) then EntryHashMismatch else ChainLinkMismatch
  }

  lemma PinpointsUnique(h: Scheme, es: seq<Entry>, r: ChainReport, r': ChainReport)
    requires Pinpoints(h, es, r) && Pinpoints(h, es, r')
    ensures r == r'
  {
  }

  /******* verify_chain *******/

  /** Position of the first record with the given id. */
  function PositionOf(es: seq<Entry>, id: nat): (r: Option<int>)
    ensures r.Some? <==> exists e :: e in es && e.id == id
  {
    if es == [] then None
    else if es[0].id == id then assert es[0] in es; Some(es[0].position)
    else PositionOf(es[1..], id)
  }

  function MaxPosition(es: seq<Entry>): int
    requires es != []
  {
    if |es| == 1 then es[0].position
    else
      var m := MaxPosition(es[1..]);
      if es[0].position > m then es[0].position else m
  }

  lemma {:induction false} MaxPositionExact(es: seq<Entry>)
    requires es != []
    ensures forall i :: 0 <= i < |es| ==> es[i].position <= MaxPosition(es)
    ensures exists i :: 0 <= i < |es| && es[i].position == MaxPosition(es)
  {
    if |es| == 1 {
      assert es[0].position == MaxPosition(es);
    } else {
      MaxPositionExact(es[1..]);
      var i :| 0 <= i < |es[1..]| && es[1..][i].position == MaxPosition(es[1..]);
      assert es[i + 1] == es[1..][i];
      assert forall j :: 1 <= j < |es| ==> es[j] == es[1..][j - 1];
    }
  }

  function InRange(es: seq<Entry>, from: int, to: int): seq<Entry> {
    if es == [] then []
    else (if from <= es[0].position <= to then [es[0]] else []) + InRange(es[1..], from, to)
  }

  predicate ByPosition(a: Entry, b: Entry) {
    a.position <= b.position
  }

  /** The records examined: those between the two bounds, by position. */
  function Window(es: seq<Entry>, start: Option<nat>, end: Option<nat>): Result<seq<Entry>, RepositoryError>
    requires es != []
  {
    var from := if start.Some? then PositionOf(es, start.value) else Some(1);
    if from.None? then Failure(NotFound)
    else
      var to := if end.Some? then PositionOf(es, end.value) else Some(MaxPosition(es));
      if to.None? then Failure(NotFound) else Success(SortBy(ByPosition, InRange(es, from.value, to.value)))
  }

  /** What the examination of `es` reports from index `i` on. */
  function ReportFrom(h: Scheme, es: seq<Entry>, i: nat): ChainReport
    requires i <= |es|
    decreases |es| - i
  {
    if i == |es| then ChainReport(true, |es|, None, NoFailure)
    else if !LinkHolds(h, es, i) then ChainReport(false, i + 1, Some(es[i].id), ChainLinkMismatch)
    else if es[i].entryHash != h.hash(BodyOf(es[i])) then ChainReport(false, i + 1, Some(es[i].id), EntryHashMismatch)
    else ReportFrom(h, es, i + 1)
  }

  function Verdict(h: Scheme, es: seq<Entry>, start: Option<nat>, end: Option<nat>)
    : Result<ChainReport, RepositoryError>
  {
    if es == [] then Success(ChainReport(true, 0, None, NoFailure))
    else
      var w := Window(es, start, end);
      if w.Failure? then Failure(w.error) else Success(ReportFrom(h, w.value, 0))
  }

  method VerifyChain(h: Scheme, es: seq<Entry>, start: Option<nat>, end: Option<nat>)
    returns (r: Result<ChainReport, RepositoryError>)
    ensures r == Verdict(h, es, start, end)
  {
    if es == [] {
      return Success(ChainReport(true, 0, None, NoFailure));
    }
    var window := Window(es, start, end);
    if window.Failure? {
      return Failure(window.error);
    }
    var report := Examine(h, window.value);
    r := Success(report);
  }

  /** The examination loop over the selected records. */
  method Examine(h: Scheme, filtered: seq<Entry>) returns (r: ChainReport)
    ensures r == ReportFrom(h, filtered, 0)
  {
    var idx := 0;
    while idx < |filtered|
      invariant 0 <= idx <= |filtered|
      invariant ReportFrom(h, filtered, 0) == ReportFrom(h, filtered, idx)
    {
      var entry := filtered[idx];
      var previous := if idx == 0 && entry.position == 1 then h.genesis
                      else if idx > 0 then filtered[idx - 1].entryHash
                      else entry.previousHash;
      if entry.previousHash != previous {
        return ChainReport(false, idx + 1, Some(entry.id), ChainLinkMismatch);
      }
      if entry.entryHash != h.hash(BodyOf(entry)) {
        return ChainReport(false, idx + 1, Some(entry.id), EntryHashMismatch);
      }
      idx := idx + 1;
    }
    r := ChainReport(true, |filtered|, None, NoFailure);
  }

  lemma {:induction false} ReportPinpoints(h: Scheme, es: seq<Entry>, i: nat)
    requires i <= |es|
    requires forall j {:trigger Sound(h, es, j)} :: 0 <= j < i ==> Sound(h, es, j)
    ensures Pinpoints(h, es, ReportFrom(h, es, i))
    decreases |es| - i
  {
    if i < |es| && Sound(h, es, i) {
      ReportPinpoints(h, es, i + 1);
    }
  }

  /** Record `i` is the first with the given id. */
  ghost predicate FirstWith(es: seq<Entry>, id: nat, i: nat) {
    i < |es| && es[i].id == id && forall j :: 0 <= j < i ==> es[j].id != id
  }

  ghost predicate Unknown(es: seq<Entry>, id: nat) {
    forall i :: 0 <= i < |es| ==> es[i].id != id
  }

  lemma {:induction false} PositionOfFirst(es: seq<Entry>, id: nat, i: nat)
    requires FirstWith(es, id, i)
    ensures PositionOf(es, id) == Some(es[i].position)
  {
    if i > 0 {
      PositionOfFirst(es[1..], id, i - 1);
    }
  }

  lemma {:induction false} PositionOfUnknown(es: seq<Entry>, id: nat)
    ensures PositionOf(es, id).None? <==> Unknown(es, id)
  {
    if es != [] {
      PositionOfUnknown(es[1..], id);
      assert Unknown(es, id) <==> es[0].id != id && Unknown(es[1..], id);
    }
  }

  /** A known id has a first record, and its position is the bound. */
  lemma {:induction false} FirstExists(es: seq<Entry>, id: nat) returns (i: nat)
    requires !Unknown(es, id)
    ensures FirstWith(es, id, i) && PositionOf(es, id) == Some(es[i].position)
  {
    i := 0;
    if es[0].id != id {
      assert !Unknown(es[1..], id) by {
        var j :| 0 <= j < |es| && es[j].id == id;
        assert es[1..][j - 1].id == id;
      }
      i := FirstExists(es[1..], id);
      i := i + 1;
    }
    PositionOfFirst(es, id, i);
  }

  lemma {:induction false} InRangeCounts(es: seq<Entry>, from: int, to: int, e: Entry)
    ensures multiset(InRange(es, from, to))[e] == if from <= e.position <= to then multiset(es)[e] else 0
  {
    if es != [] {
      InRangeCounts(es[1..], from, to, e);
      assert es == [es[0]] + es[1..];
    }
  }

  /** The record does not lie before the first record with the given id. */
  ghost predicate NotBefore(es: seq<Entry>, id: nat, e: Entry) {
    exists i: nat :: FirstWith(es, id, i) && es[i].position <= e.position
  }

  ghost predicate NotAfter(es: seq<Entry>, id: nat, e: Entry) {
    exists i: nat :: FirstWith(es, id, i) && e.position <= es[i].position
  }

  /** The record lies between the bounds; without a start that means from position 1 on. */
  ghost predicate Within(es: seq<Entry>, start: Option<nat>, end: Option<nat>, e: Entry) {
    && (if start.None? then 1 <= e.position else NotBefore(es, start.value, e))
    && (end.Some? ==> NotAfter(es, end.value, e))
  }

  lemma BoundExact(es: seq<Entry>, id: nat, e: Entry)
    requires PositionOf(es, id).Some?
    ensures NotBefore(es, id, e) <==> PositionOf(es, id).value <= e.position
    ensures NotAfter(es, id, e) <==> e.position <= PositionOf(es, id).value
  {
    PositionOfUnknown(es, id);
    var i := FirstExists(es, id);
    assert forall j: nat :: FirstWith(es, id, j) ==> i == j;
  }

  /** The window holds the records between the bounds, each as often as it occurs, by position. */
  ghost predicate IsWindow(es: seq<Entry>, start: Option<nat>, end: Option<nat>, w: seq<Entry>) {
    && (forall i, j :: 0 <= i < j < |w| ==> w[i].position <= w[j].position)
    && (forall e :: multiset(w)[e] == if Within(es, start, end, e) then multiset(es)[e] else 0)
  }

  lemma SelectedExact(es: seq<Entry>, from: int, to: int)
    ensures var w := SortBy(ByPosition, InRange(es, from, to));
      && (forall i, j :: 0 <= i < j < |w| ==> w[i].position <= w[j].position)
      && (forall e :: multiset(w)[e] == if from <= e.position <= to then multiset(es)[e] else 0)
  {
    var selected := InRange(es, from, to);
    SortBySorts(ByPosition, selected);
    var w := SortBy(ByPosition, selected);
    forall i, j | 0 <= i < j < |w|
      ensures w[i].position <= w[j].position
    {
      assert ByPosition(w[i], w[j]);
    }
    forall e
      ensures multiset(w)[e] == if from <= e.position <= to then multiset(es)[e] else 0
    {
      InRangeCounts(es, from, to, e);
    }
  }

  lemma WindowFails(es: seq<Entry>, start: Option<nat>, end: Option<nat>)
    requires es != []
    ensures Window(es, start, end).Failure? <==>
      ((start.Some? && Unknown(es, start.value)) || (end.Some? && Unknown(es, end.value)))
  {
    if start.Some? {
      PositionOfUnknown(es, start.value);
    }
    if end.Some? {
      PositionOfUnknown(es, end.value);
    }
  }

  lemma WindowExact(es: seq<Entry>, start: Option<nat>, end: Option<nat>)
    requires es != [] && Window(es, start, end).Success?
    ensures IsWindow(es, start, end, Window(es, start, end).value)
  {
    var from := if start.Some? then PositionOf(es, start.value).value else 1;
    var to := if end.Some? then PositionOf(es, end.value).value else MaxPosition(es);
    SelectedExact(es, from, to);
    MaxPositionExact(es);
    forall e | e in es
      ensures Within(es, start, end, e) <==> from <= e.position <= to
    {
      if start.Some? {
        BoundExact(es, start.value, e);
      }
      if end.Some? {
        BoundExact(es, end.value, e);
      }
    }
  }

  /**
   `verify_chain` fails only on an unknown bound; otherwise it examines exactly the records between the bounds, in position
   order, and names the least failing one.
   */
  lemma VerdictExact(h: Scheme, es: seq<Entry>, start: Option<nat>, end: Option<nat>)
    ensures Verdict(h, es, start, end).Failure? <==>
      (es != [] && ((start.Some? && Unknown(es, start.value)) || (end.Some? && Unknown(es, end.value))))
    ensures es == [] ==> Verdict(h, es, start, end) == Success(ChainReport(true, 0, None, NoFailure))
    ensures var v := Verdict(h, es, start, end);
      v.Success? && es != [] ==>
        && Window(es, start, end).Success?
        && IsWindow(es, start, end, Window(es, start, end).value)
        && Pinpoints(h, Window(es, start, end).value, v.value)
  {
    if es != [] {
      WindowFails(es, start, end);
      if Window(es, start, end).Success? {
        WindowExact(es, start, end);
        ReportPinpoints(h, Window(es, start, end).value, 0);
      }
    }
  }

  /******* Windows of numbered records *******/

  ghost predicate PlacedAt(es: seq<Entry>, i: nat)
    requires i < |es|
  {
    es[i].position == i + 1
  }

  /** Records numbered from 1 on, each with its own id. */
  ghost predicate Numbered(es: seq<Entry>) {
    && (forall i {:trigger PlacedAt(es, i)} :: 0 <= i < |es| ==> PlacedAt(es, i))
    && (forall i {:trigger FirstWith(es, es[i].id, i)} :: 0 <= i < |es| ==> FirstWith(es, es[i].id, i))
  }

  lemma NumberedAt(es: seq<Entry>, i: nat)
    requires Numbered(es) && i < |es|
    ensures PositionOf(es, es[i].id) == Some(i + 1)
  {
    assert PlacedAt(es, i) && FirstWith(es, es[i].id, i);
    PositionOfFirst(es, es[i].id, i);
  }

  lemma InRangeCons(e: Entry, rest: seq<Entry>, from: int, to: int)
    ensures InRange([e] + rest, from, to) == (if from <= e.position <= to then [e] else []) + InRange(rest, from, to)
  {
    assert ([e] + rest)[1..] == rest;
  }

  lemma {:induction false} InRangeConcat(a: seq<Entry>, b: seq<Entry>, from: int, to: int)
    ensures InRange(a + b, from, to) == InRange(a, from, to) + InRange(b, from, to)
  {
    if a == [] {
      assert a + b == b;
    } else {
      var e, rest := a[0], a[1..];
      InRangeConcat(rest, b, from, to);
      InRangeCons(e, rest, from, to);
      InRangeCons(e, rest + b, from, to);
      assert a == [e] + rest;
      ConcatAssociates([e], rest, b);
      ConcatAssociates(if from <= e.position <= to then [e] else [], InRange(rest, from, to), InRange(b, from, to));
    }
  }

  lemma ConcatAssociates(a: seq<Entry>, b: seq<Entry>, c: seq<Entry>)
    ensures a + (b + c) == (a + b) + c
  {}

  lemma {:induction false} InRangeNone(es: seq<Entry>, from: int, to: int)
    requires forall i :: 0 <= i < |es| ==> !(from <= es[i].position <= to)
    ensures InRange(es, from, to) == []
  {
    if es != [] {
      InRangeNone(es[1..], from, to);
    }
  }

  lemma InRangeMiddle(a: seq<Entry>, b: seq<Entry>, c: seq<Entry>, from: int, to: int)
    requires forall i :: 0 <= i < |a| ==> !(from <= a[i].position <= to)
    requires forall i :: 0 <= i < |b| ==> from <= b[i].position <= to
    requires forall i :: 0 <= i < |c| ==> !(from <= c[i].position <= to)
    ensures InRange(a + (b + c), from, to) == b
  {
    InRangeConcat(a, b + c, from, to);
    InRangeConcat(b, c, from, to);
    InRangeNone(a, from, to);
    InRangeAll(b, from, to);
    InRangeNone(c, from, to);
  }

  lemma SlicePlaces(es: seq<Entry>, lo: nat, hi: nat)
    requires Numbered(es) && lo <= hi <= |es|
    ensures forall k :: 0 <= k < hi - lo ==> lo < es[lo..hi][k].position <= hi
  {
    forall k | 0 <= k < hi - lo
      ensures lo < es[lo..hi][k].position <= hi
    {
      assert PlacedAt(es, lo + k);
    }
  }

  lemma InRangeSlice(es: seq<Entry>, i: nat, j: nat)
    requires Numbered(es) && i <= j < |es|
    ensures InRange(es, i + 1, j + 1) == es[i..j + 1]
  {
    SlicePlaces(es, 0, i);
    SlicePlaces(es, i, j + 1);
    SlicePlaces(es, j + 1, |es|);
    InRangeMiddle(es[0..i], es[i..j + 1], es[j + 1..|es|], i + 1, j + 1);
    ThreeParts(es, i, j + 1);
  }

  lemma ThreeParts(es: seq<Entry>, i: nat, j: nat)
    requires i <= j <= |es|
    ensures es == es[0..i] + (es[i..j] + es[j..|es|])
  {}

  lemma SliceSelected(es: seq<Entry>, i: nat, j: nat)
    requires Numbered(es) && i <= j < |es|
    ensures SortBy(ByPosition, InRange(es, i + 1, j + 1)) == es[i..j + 1]
  {
    InRangeSlice(es, i, j);
    var w := es[i..j + 1];
    forall x, y | 0 <= x < y < |w|
      ensures ByPosition(w[x], w[y])
    {
      assert PlacedAt(es, i + x) && PlacedAt(es, i + y);
    }
    SortByFixed(ByPosition, w);
  }

  /** Between two of their ids lie the records from the one to the other, both included. */
  lemma NumberedWindow(es: seq<Entry>, i: nat, j: nat)
    requires Numbered(es) && i <= j < |es|
    ensures Window(es, Some(es[i].id), Some(es[j].id)) == Success(es[i..j + 1])
  {
    NumberedAt(es, i);
    NumberedAt(es, j);
    SliceSelected(es, i, j);
  }

  /** Without an end the window runs to the last record. */
  lemma NumberedWindowFrom(es: seq<Entry>, i: nat)
    requires Numbered(es) && i < |es|
    ensures Window(es, Some(es[i].id), None) == Success(es[i..|es|])
  {
    NumberedAt(es, i);
    MaxOfNumbered(es);
    SliceSelected(es, i, |es| - 1);
  }

  /** Without a start it runs from the first. */
  lemma NumberedWindowTo(es: seq<Entry>, j: nat)
    requires Numbered(es) && j < |es|
    ensures Window(es, None, Some(es[j].id)) == Success(es[0..j + 1])
  {
    NumberedAt(es, j);
    SliceSelected(es, 0, j);
  }

  lemma MaxOfNumbered(es: seq<Entry>)
    requires Numbered(es) && es != []
    ensures MaxPosition(es) == |es|
  {
    MaxPositionExact(es);
    assert PlacedAt(es, |es| - 1);
    var i :| 0 <= i < |es| && es[i].position == MaxPosition(es);
    assert PlacedAt(es, i);
  }

  /** The bounded check of numbered records examines that slice and names its least failing record. */
  lemma NumberedVerdict(h: Scheme, es: seq<Entry>, i: nat, j: nat)
    requires Numbered(es) && i <= j < |es|
    ensures var v := Verdict(h, es, Some(es[i].id), Some(es[j].id));
      v.Success? && Pinpoints(h, es[i..j + 1], v.value)
  {
    NumberedWindow(es, i, j);
    ReportPinpoints(h, es[i..j + 1], 0);
  }

  /******* Chains as the ledger writes them *******/

  /** Record `i` has position `i + 1`, its own canonical hash, and the link to its predecessor. */
  ghost predicate GoodRecord(h: Scheme, t: Text, es: seq<Entry>, i: nat)
    requires i < |es|
  {
    && es[i].position == i + 1
    && es[i].entryType == t
    && es[i].entryHash == h.hash(BodyOf(es[i]))
    && es[i].previousHash == if i == 0 then h.genesis else es[i - 1].entryHash
  }

  ghost predicate GoodChain(h: Scheme, t: Text, es: seq<Entry>) {
    forall i {:trigger GoodRecord(h, t, es, i)} :: 0 <= i < |es| ==> GoodRecord(h, t, es, i)
  }

  lemma GoodChainSound(h: Scheme, t: Text, es: seq<Entry>)
    requires GoodChain(h, t, es)
    ensures AllSound(h, es)
    ensures forall i :: 0 <= i < |es| ==> es[i].position == i + 1
  {
    forall i | 0 <= i < |es|
      ensures Sound(h, es, i) && es[i].position == i + 1
    {
      assert GoodRecord(h, t, es, i);
    }
  }

  lemma {:induction false} InRangeAll(es: seq<Entry>, from: int, to: int)
    requires forall i :: 0 <= i < |es| ==> from <= es[i].position <= to
    ensures InRange(es, from, to) == es
  {
    if es != [] {
      InRangeAll(es[1..], from, to);
    }
  }

  lemma FullWindow(es: seq<Entry>)
    requires es != []
    requires forall i :: 0 <= i < |es| ==> es[i].position == i + 1
    ensures Window(es, None, None) == Success(es)
  {
    MaxPositionExact(es);
    InRangeAll(es, 1, MaxPosition(es));
    SortByFixed(ByPosition, es);
  }

  /** The full-range check accepts every chain the ledger builds and counts all its records. */
  lemma GoodChainAccepted(h: Scheme, t: Text, es: seq<Entry>)
    requires GoodChain(h, t, es)
    ensures Verdict(h, es, None, None) == Success(ChainReport(true, |es|, None, NoFailure))
  {
    if es != [] {
      GoodChainSound(h, t, es);
      FullWindow(es);
      ReportPinpoints(h, es, 0);
    }
  }

  /******* Altered records *******/

  lemma {:induction false} PrefixIrrelevant(h: Scheme, es: seq<Entry>, k: nat)
    requires k <= |es|
    requires forall j {:trigger Sound(h, es, j)} :: 0 <= j < k ==> Sound(h, es, j)
    ensures ReportFrom(h, es, 0) == ReportFrom(h, es, k)
  {
    if k > 0 {
      PrefixIrrelevant(h, es, k - 1);
      assert Sound(h, es, k - 1);
    }
  }

  /**
   What the full check reports of a chain whose record `k` was replaced by `e'`: it blames that record for a changed link
   or for a stored hash that does not fit; a record rehashed to fit is blamed on its successor's link, if it has one.
   */
  function AlteredReport(h: Scheme, es: seq<Entry>, k: nat, e': Entry): ChainReport
    requires k < |es|
  {
    if e'.previousHash != es[k].previousHash then ChainReport(false, k + 1, Some(e'.id), ChainLinkMismatch)
    else if e'.entryHash != h.hash(BodyOf(e')) then ChainReport(false, k + 1, Some(e'.id), EntryHashMismatch)
    else if e'.entryHash == es[k].entryHash || k + 1 == |es| then ChainReport(true, |es|, None, NoFailure)
    else ChainReport(false, k + 2, Some(es[k + 1].id), ChainLinkMismatch)
  }

  /** Replacing record `k` leaves all others sound, up to the link of its successor. */
  lemma OthersSound(h: Scheme, t: Text, es: seq<Entry>, k: nat, e': Entry, es': seq<Entry>, j: nat)
    requires GoodChain(h, t, es) && k < |es| && e'.position == k + 1 && es' == es[k := e'] && j < |es| && j != k
    ensures Sound(h, es', j) <==> (j == k + 1 ==> e'.entryHash == es[k].entryHash)
    ensures LinkHolds(h, es', j) <==> (j == k + 1 ==> e'.entryHash == es[k].entryHash)
  {
    assert GoodRecord(h, t, es, j);
  }

  lemma ReportFromAltered(h: Scheme, t: Text, es: seq<Entry>, k: nat, e': Entry, es': seq<Entry>)
    requires GoodChain(h, t, es) && k < |es| && e'.position == k + 1 && es' == es[k := e']
    ensures ReportFrom(h, es', 0) == ReportFrom(h, es', k)
    ensures LinkHolds(h, es', k) <==> e'.previousHash == es[k].previousHash
  {
    forall j | 0 <= j < k
      ensures Sound(h, es', j)
    {
      OthersSound(h, t, es, k, e', es', j);
    }
    PrefixIrrelevant(h, es', k);
    assert GoodRecord(h, t, es, k);
  }

  /** If the replacement is sound and keeps the stored hash, or has no successor, the whole chain is sound. */
  lemma AlteredAccepted(h: Scheme, t: Text, es: seq<Entry>, k: nat, e': Entry, es': seq<Entry>)
    requires GoodChain(h, t, es) && k < |es| && e'.position == k + 1 && es' == es[k := e'] && Sound(h, es', k)
    requires e'.entryHash == es[k].entryHash || k + 1 == |es|
    ensures ReportFrom(h, es', 0) == ChainReport(true, |es|, None, NoFailure)
  {
    forall j | 0 <= j < |es|
      ensures Sound(h, es', j)
    {
      if j != k {
        OthersSound(h, t, es, k, e', es', j);
      }
    }
    PrefixIrrelevant(h, es', |es|);
  }

  /** If the replacement is sound under another stored hash, the link of its successor fails. */
  lemma SuccessorBlamed(h: Scheme, t: Text, es: seq<Entry>, k: nat, e': Entry, es': seq<Entry>)
    requires GoodChain(h, t, es) && k + 1 < |es| && e'.position == k + 1 && es' == es[k := e'] && Sound(h, es', k)
    requires e'.entryHash != es[k].entryHash
    ensures ReportFrom(h, es', k) == ChainReport(false, k + 2, Some(es[k + 1].id), ChainLinkMismatch)
  {
    OthersSound(h, t, es, k, e', es', k + 1);
    assert ReportFrom(h, es', k) == ReportFrom(h, es', k + 1);
  }

  lemma AlteredWindow(h: Scheme, t: Text, es: seq<Entry>, k: nat, e': Entry, es': seq<Entry>)
    requires GoodChain(h, t, es) && k < |es| && e'.position == k + 1 && es' == es[k := e']
    ensures Verdict(h, es', None, None) == Success(ReportFrom(h, es', 0))
  {
    GoodChainSound(h, t, es);
    FullWindow(es');
  }

  /** The verdict on a chain with one record replaced, for every replacement that keeps its position. */
  lemma AlterationExact(h: Scheme, t: Text, es: seq<Entry>, k: nat, e': Entry)
    requires GoodChain(h, t, es) && k < |es| && e'.position == es[k].position
    ensures Verdict(h, es[k := e'], None, None) == Success(AlteredReport(h, es, k, e'))
  {
    var es' := es[k := e'];
    assert GoodRecord(h, t, es, k);
    AlteredWindow(h, t, es, k, e', es');
    ReportFromAltered(h, t, es, k, e', es');
    if Sound(h, es', k) {
      if e'.entryHash == es[k].entryHash || k + 1 == |es| {
        AlteredAccepted(h, t, es, k, e', es');
      } else {
        SuccessorBlamed(h, t, es, k, e', es');
      }
    }
  }

  /******* Altered records under a bounded check *******/

  /**
   What the check from record `i` to record `j` reports if record `k` between them was replaced by `e'`. The link of the
   first record examined is not checked, unless it is the first of the chain.
   */
  function WindowReport(h: Scheme, es: seq<Entry>, i: nat, j: nat, k: nat, e': Entry): ChainReport
    requires i <= k <= j < |es|
  {
    var n := k - i;
    if (k > i || i == 0) && e'.previousHash != es[k].previousHash then ChainReport(false, n + 1, Some(e'.id), ChainLinkMismatch)
    else if e'.entryHash != h.hash(BodyOf(e')) then ChainReport(false, n + 1, Some(e'.id), EntryHashMismatch)
    else if e'.entryHash == es[k].entryHash || k == j then ChainReport(true, j - i + 1, None, NoFailure)
    else ChainReport(false, n + 2, Some(es[k + 1].id), ChainLinkMismatch)
  }

  lemma SliceOthers(h: Scheme, t: Text, es: seq<Entry>, i: nat, k: nat, e': Entry, w: seq<Entry>, m: nat)
    requires GoodChain(h, t, es) && i <= k < |es| && e'.position == k + 1
    requires m < |w| && i + |w| <= |es| && w == es[k := e'][i..i + |w|] && i + m != k
    ensures Sound(h, w, m) <==> (i + m == k + 1 ==> e'.entryHash == es[k].entryHash)
    ensures LinkHolds(h, w, m) <==> (i + m == k + 1 ==> e'.entryHash == es[k].entryHash)
  {
    assert GoodRecord(h, t, es, i + m);
  }

  lemma SliceReplaced(h: Scheme, t: Text, es: seq<Entry>, i: nat, k: nat, e': Entry, w: seq<Entry>)
    requires GoodChain(h, t, es) && i <= k < i + |w| <= |es| && e'.position == k + 1 && w == es[k := e'][i..i + |w|]
    ensures LinkHolds(h, w, k - i) <==> (k > i || i == 0 ==> e'.previousHash == es[k].previousHash)
    ensures ReportFrom(h, w, 0) == ReportFrom(h, w, k - i)
  {
    assert GoodRecord(h, t, es, k);
    forall m | 0 <= m < k - i
      ensures Sound(h, w, m)
    {
      SliceOthers(h, t, es, i, k, e', w, m);
    }
    PrefixIrrelevant(h, w, k - i);
  }

  lemma SliceAccepted(h: Scheme, t: Text, es: seq<Entry>, i: nat, k: nat, e': Entry, w: seq<Entry>)
    requires GoodChain(h, t, es) && i <= k < i + |w| <= |es| && e'.position == k + 1 && w == es[k := e'][i..i + |w|]
    requires Sound(h, w, k - i) && (e'.entryHash == es[k].entryHash || k + 1 == i + |w|)
    ensures ReportFrom(h, w, 0) == ChainReport(true, |w|, None, NoFailure)
  {
    forall m | 0 <= m < |w|
      ensures Sound(h, w, m)
    {
      if i + m != k {
        SliceOthers(h, t, es, i, k, e', w, m);
      }
    }
    PrefixIrrelevant(h, w, |w|);
  }

  lemma SliceReport(h: Scheme, t: Text, es: seq<Entry>, i: nat, j: nat, k: nat, e': Entry, w: seq<Entry>)
    requires GoodChain(h, t, es) && i <= k <= j < |es| && e'.position == k + 1 && w == es[k := e'][i..j + 1]
    ensures ReportFrom(h, w, 0) == WindowReport(h, es, i, j, k, e')
  {
    SliceReplaced(h, t, es, i, k, e', w);
    if Sound(h, w, k - i) {
      if e'.entryHash == es[k].entryHash || k == j {
        SliceAccepted(h, t, es, i, k, e', w);
      } else {
        SliceOthers(h, t, es, i, k, e', w, k + 1 - i);
        assert ReportFrom(h, w, k - i) == ReportFrom(h, w, k + 1 - i);
      }
    }
  }

  lemma ReplacedNumbered(es: seq<Entry>, k: nat, e': Entry)
    requires Numbered(es) && k < |es| && e'.id == es[k].id && e'.position == es[k].position
    ensures Numbered(es[k := e'])
  {
    var es' := es[k := e'];
    forall i | 0 <= i < |es'|
      ensures PlacedAt(es', i) && FirstWith(es', es'[i].id, i)
    {
      assert PlacedAt(es, i) && FirstWith(es, es[i].id, i);
    }
  }

  /** The verdict of every bounded check on a chain with one record replaced by any other with its id and position. */
  lemma WindowAlterationExact(h: Scheme, t: Text, es: seq<Entry>, i: nat, j: nat, k: nat, e': Entry)
    requires GoodChain(h, t, es) && Numbered(es) && i <= k <= j < |es| && e'.id == es[k].id && e'.position == es[k].position
    ensures Verdict(h, es[k := e'], Some(es[i].id), Some(es[j].id)) == Success(WindowReport(h, es, i, j, k, e'))
  {
    assert GoodRecord(h, t, es, k);
    ReplacedNumbered(es, k, e');
    NumberedWindow(es[k := e'], i, j);
    SliceReport(h, t, es, i, j, k, e', es[k := e'][i..j + 1]);
  }

  /** Every part of a good chain is accepted, and all its records are counted. */
  lemma GoodWindowAccepted(h: Scheme, t: Text, es: seq<Entry>, i: nat, j: nat)
    requires GoodChain(h, t, es) && Numbered(es) && i <= j < |es|
    ensures Verdict(h, es, Some(es[i].id), Some(es[j].id)) == Success(ChainReport(true, j - i + 1, None, NoFailure))
  {
    assert GoodRecord(h, t, es, i) && es[i := es[i]] == es;
    WindowAlterationExact(h, t, es, i, j, i, es[i]);
  }

  /** The alteration touches neither the link nor the hashed bytes. */
  predicate Unseen(e: Entry, e': Entry) {
    e'.previousHash == e.previousHash && CanonicalBytes(BodyOf(e')) == CanonicalBytes(BodyOf(e))
  }

  function TamperReason(e: Entry, e': Entry): FailureReason {
    if e'.previousHash != e.previousHash then ChainLinkMismatch else EntryHashMismatch
  }

  /**
   The verdict on `es'`, where record `k` of `es` became `e'` and its stored hash was left alone: the full check accepts
   if the change is unseen and names record `k` otherwise, or the two byte sequences collide.
   */
  ghost predicate JudgedOrCollides(H: Digest, genesis: Text, es: seq<Entry>, k: nat, e': Entry, es': seq<Entry>)
    requires k < |es|
  {
    || Collision(H, CanonicalBytes(BodyOf(es[k])), CanonicalBytes(BodyOf(e')))
    || Verdict(Canonical(H, genesis), es', None, None)
         == Success(if Unseen(es[k], e') then ChainReport(true, |es|, None, NoFailure)
                    else ChainReport(false, k + 1, Some(e'.id), TamperReason(es[k], e')))
  }

  /** Exactly which alterations of a record under its stored hash the full check sees, whatever fields they touch. */
  lemma TamperExact(H: Digest, genesis: Text, t: Text, es: seq<Entry>, k: nat, e': Entry)
    requires GoodChain(Canonical(H, genesis), t, es) && k < |es|
    requires e'.position == es[k].position && e'.entryHash == es[k].entryHash
    ensures JudgedOrCollides(H, genesis, es, k, e', es[k := e'])
  {
    AlterationExact(Canonical(H, genesis), t, es, k, e');
    assert GoodRecord(Canonical(H, genesis), t, es, k);
  }

  /** Moving the first byte of the agent id to the end of the entry type goes unseen in every record of every good chain. */
  lemma ShiftUnseen(H: Digest, genesis: Text, t: Text, es: seq<Entry>, k: nat)
    requires GoodChain(Canonical(H, genesis), t, es) && k < |es| && es[k].agentId != []
    ensures var e := es[k];
      var e' := e.(entryType := e.entryType + [e.agentId[0]], agentId := e.agentId[1..]);
      e' != e && Verdict(Canonical(H, genesis), es[k := e'], None, None) == Success(ChainReport(true, |es|, None, NoFailure))
  {
    var e := es[k];
    var e' := e.(entryType := e.entryType + [e.agentId[0]], agentId := e.agentId[1..]);
    BytesDoNotDetermineFields(BodyOf(e).(agentId := e.agentId[1..]), e.agentId[0]);
    assert [e.agentId[0]] + e.agentId[1..] == e.agentId;
    assert |e'.agentId| != |e.agentId|;
    assert GoodRecord(Canonical(H, genesis), t, es, k);
    AlterationExact(Canonical(H, genesis), t, es, k, e');
  }

  /**
   A record altered in place, either in its stored hash alone or under it: in one hashed field, or in any number of them
   with no hashed text changing its length.
   */
  ghost predicate Tampered(e: Entry, e': Entry) {
    && e'.id == e.id && e'.position == e.position
    && if e.entryHash != e'.entryHash then BodyOf(e) == BodyOf(e')
       else || OneHashedFieldChanged(BodyOf(e), BodyOf(e'))
            || (SameLengths(BodyOf(e), BodyOf(e')) && BodyOf(e) != BodyOf(e'))
  }

  lemma TamperedSeen(e: Entry, e': Entry)
    requires Tampered(e, e') && e.entryHash == e'.entryHash
    ensures !Unseen(e, e')
  {
    BytesAndLengthsDetermine(BodyOf(e), BodyOf(e'));
    if OneHashedFieldChanged(BodyOf(e), BodyOf(e')) {
      OneFieldChangesBytes(BodyOf(e), BodyOf(e'));
    }
  }

  /** The full check of `chain` blames its record `k`, where `e` became `e'`, or the two collide. */
  ghost predicate BlamedOrCollides(H: Digest, genesis: Text, chain: seq<Entry>, k: nat, e: Entry, e': Entry) {
    || Verdict(Canonical(H, genesis), chain, None, None)
         == Success(ChainReport(false, k + 1, Some(e.id), TamperReason(e, e')))
    || Collision(H, CanonicalBytes(BodyOf(e)), CanonicalBytes(BodyOf(e')))
  }

  /** Tampering with one record of a ledger chain makes the full-range check name that record, or exhibits a collision. */
  lemma TamperPinpointed(H: Digest, genesis: Text, t: Text, es: seq<Entry>, k: nat, e': Entry, es': seq<Entry>)
    requires GoodChain(Canonical(H, genesis), t, es) && k < |es| && Tampered(es[k], e') && es' == es[k := e']
    ensures BlamedOrCollides(H, genesis, es', k, es[k], e')
  {
    if es[k].entryHash == e'.entryHash {
      TamperedSeen(es[k], e');
      TamperExact(H, genesis, t, es, k, e');
    } else {
      AlterationExact(Canonical(H, genesis), t, es, k, e');
      assert GoodRecord(Canonical(H, genesis), t, es, k);
    }
  }

  /** In a numbered listing, replacing one stored entry replaces one element of the chain. */
  lemma GatherReplaced(entries: map<nat, Entry>, t: Text, ids: seq<nat>, k: nat, e': Entry)
    requires NumberedFromOne(entries, t, ids) && k < |ids|
    ensures |Gather(entries, ids)| == |ids| && Gather(entries, ids)[k] == entries[ids[k]]
    ensures Gather(entries[ids[k] := e'], ids) == Gather(entries, ids)[k := e']
  {
    var entries' := entries[ids[k] := e'];
    GatherAll(entries, ids);
    GatherAll(entries', ids);
    assert forall i :: 0 <= i < |ids| && i != k ==> ids[i] != ids[k];
  }

  /** The store with one entry replaced, everything else left alone. */
  function Altered(s: Store, id: nat, e': Entry): Store {
    s.(entries := s.entries[id := e'])
  }

  lemma EntryListed(s: Store, id: nat)
    requires Indexed(s) && id in s.entries
    ensures var e := s.entries[id];
      Listed(e, id, s.ordered) && NumberedFromOne(s.entries, e.entryType, s.ordered[e.entryType])
  {}

  lemma ListedChain(s: Store, id: nat, e': Entry, ids: seq<nat>)
    requires id in s.entries && Listed(s.entries[id], id, s.ordered) && ids == s.ordered[s.entries[id].entryType]
    requires NumberedFromOne(s.entries, s.entries[id].entryType, ids)
    ensures var e := s.entries[id]; var es := Chain(s, e.entryType);
      && 1 <= e.position <= |es|
      && es[e.position - 1] == e && e.id == id
      && Chain(Altered(s, id, e'), e.entryType) == es[e.position - 1 := e']
  {
    GatherReplaced(s.entries, s.entries[id].entryType, ids, s.entries[id].position - 1, e');
  }

  lemma AlteredChain(s: Store, id: nat, e': Entry)
    requires Indexed(s) && id in s.entries
    ensures var e := s.entries[id]; var es := Chain(s, e.entryType);
      && 1 <= e.position <= |es|
      && es[e.position - 1] == e && e.id == id
      && Chain(Altered(s, id, e'), e.entryType) == es[e.position - 1 := e']
  {
    EntryListed(s, id);
    ListedChain(s, id, e', s.ordered[s.entries[id].entryType]);
  }

  /**
   The verdict of the full check after entry `id` was replaced by `e'` in the repository is `AlteredReport`; where the
   stored hash was left alone, the change is seen exactly if it touches the link or the bytes, or these collide.
   */
  ghost predicate Assessed(H: Digest, genesis: Text, s: Store, id: nat, e': Entry)
    requires id in s.entries
  {
    var h, e := Canonical(H, genesis), s.entries[id];
    var es, es' := Chain(s, e.entryType), Chain(Altered(s, id, e'), e.entryType);
    && 1 <= e.position <= |es| && es[e.position - 1] == e && e.id == id
    && Verdict(h, es', None, None) == Success(AlteredReport(h, es, e.position - 1, e'))
    && (e'.entryHash == e.entryHash ==> JudgedOrCollides(H, genesis, es, e.position - 1, e', es'))
  }

  lemma AssessChain(H: Digest, genesis: Text, s: Store, id: nat, e': Entry, es: seq<Entry>, k: nat)
    requires id in s.entries && s.entries[id].id == id && s.entries[id].position == k + 1 == e'.position
    requires es == Chain(s, s.entries[id].entryType) && k < |es| && es[k] == s.entries[id]
    requires Chain(Altered(s, id, e'), s.entries[id].entryType) == es[k := e']
    requires GoodChain(Canonical(H, genesis), s.entries[id].entryType, es)
    ensures Assessed(H, genesis, s, id, e')
  {
    AlterationExact(Canonical(H, genesis), s.entries[id].entryType, es, k, e');
    if e'.entryHash == es[k].entryHash {
      TamperExact(H, genesis, s.entries[id].entryType, es, k, e');
    }
  }

  /** The two exact results, for a record altered in the repository itself. */
  lemma StoreAlterationExact(H: Digest, genesis: Text, s: Store, id: nat, e': Entry)
    requires Indexed(s) && id in s.entries && e'.position == s.entries[id].position
    requires GoodChain(Canonical(H, genesis), s.entries[id].entryType, Chain(s, s.entries[id].entryType))
    ensures Assessed(H, genesis, s, id, e')
  {
    AlteredChain(s, id, e');
    AssessChain(H, genesis, s, id, e', Chain(s, s.entries[id].entryType), s.entries[id].position - 1);
  }

  /** Tampering with one record in the repository is pinned on that record, or exhibits a collision. */
  lemma TamperedStorePinpointed(H: Digest, genesis: Text, s: Store, id: nat, e': Entry)
    requires Indexed(s) && id in s.entries && Tampered(s.entries[id], e')
    requires GoodChain(Canonical(H, genesis), s.entries[id].entryType, Chain(s, s.entries[id].entryType))
    ensures s.entries[id].position >= 1 && s.entries[id].id == id
    ensures BlamedOrCollides(H, genesis, Chain(Altered(s, id, e'), s.entries[id].entryType),
                             s.entries[id].position - 1, s.entries[id], e')
  {
    AlteredChain(s, id, e');
    var t := s.entries[id].entryType;
    TamperPinpointed(H, genesis, t, Chain(s, t), s.entries[id].position - 1, e', Chain(Altered(s, id, e'), t));
  }

  /******* What the tip hash commits to *******/

  /** An accepted record sequence that starts at position 1. */
  ghost predicate AcceptedFromGenesis(h: Scheme, es: seq<Entry>) {
    es != [] && es[0].position == 1 && AllSound(h, es)
  }

  /** The bytes hashed for each record. */
  function BytesOf(es: seq<Entry>): (r: seq<Text>)
    ensures |r| == |es|
  {
    seq(|es|, i requires 0 <= i < |es| => CanonicalBytes(BodyOf(es[i])))
  }

  /** The input hashed just before item `i`: the genesis input, then the items themselves. */
  function Before(genesis: Text, items: seq<Text>, i: nat): Text
    requires i <= |items|
  {
    if i == 0 then genesis else items[i - 1]
  }

  /** Every item ends in the digest of the input before it. */
  ghost predicate Linked(H: Digest, genesis: Text, items: seq<Text>) {
    forall i {:trigger LinkedAt(H, genesis, items, i)} :: 0 <= i < |items| ==> LinkedAt(H, genesis, items, i)
  }

  ghost predicate LinkedAt(H: Digest, genesis: Text, items: seq<Text>, i: nat)
    requires i < |items|
  {
    |items[i]| >= 64 && items[i][|items[i]| - 64..] == H(Before(genesis, items, i))
  }

  /** Two different inputs with the same hash, one among those hashed for each sequence. */
  ghost predicate CollideAcross(H: Digest, genesis: Text, a: seq<Text>, i: nat, b: seq<Text>, j: nat) {
    i <= |a| && j <= |b| && Collision(H, Before(genesis, a, i), Before(genesis, b, j))
  }

  /** Linked sequences whose inputs before `i` and `j` have one hash agree up to there, or their inputs collide. */
  lemma {:induction false} AgreeBelow(H: Digest, genesis: Text, a: seq<Text>, i: nat, b: seq<Text>, j: nat)
    returns (x: nat, y: nat)
    requires |genesis| < 64 && Linked(H, genesis, a) && Linked(H, genesis, b)
    requires i <= |a| && j <= |b| && H(Before(genesis, a, i)) == H(Before(genesis, b, j))
    ensures a[..i] == b[..j] || CollideAcross(H, genesis, a, x, b, y)
    decreases i
  {
    x, y := i, j;
    if i > 0 {
      assert LinkedAt(H, genesis, a, i - 1);
    }
    if j > 0 {
      assert LinkedAt(H, genesis, b, j - 1);
    }
    if i > 0 && j > 0 && a[i - 1] == b[j - 1] {
      x, y := AgreeBelow(H, genesis, a, i - 1, b, j - 1);
      assert a[..i] == a[..i - 1] + [a[i - 1]] && b[..j] == b[..j - 1] + [b[j - 1]];
    }
  }

  lemma AgreeWhole(H: Digest, genesis: Text, a: seq<Text>, b: seq<Text>) returns (x: nat, y: nat)
    requires |genesis| < 64 && Linked(H, genesis, a) && Linked(H, genesis, b)
    requires a != [] && b != [] && H(a[|a| - 1]) == H(b[|b| - 1])
    ensures a == b || CollideAcross(H, genesis, a, x, b, y)
  {
    x, y := AgreeBelow(H, genesis, a, |a|, b, |b|);
    assert a[..|a|] == a && b[..|b|] == b;
  }

  lemma SoundHash(H: Digest, genesis: Text, es: seq<Entry>, i: nat)
    requires AcceptedFromGenesis(Canonical(H, genesis), es) && i < |es|
    ensures es[i].entryHash == H(BytesOf(es)[i])
  {
    assert Sound(Canonical(H, genesis), es, i);
  }

  lemma SoundPrevious(H: Digest, genesis: Text, es: seq<Entry>, i: nat)
    requires AcceptedFromGenesis(Canonical(H, genesis), es) && i < |es|
    ensures es[i].previousHash == H(Before(genesis, BytesOf(es), i))
  {
    assert Sound(Canonical(H, genesis), es, i);
    if i > 0 {
      SoundHash(H, genesis, es, i - 1);
    }
  }

  lemma SuffixLinked(H: Digest, genesis: Text, items: seq<Text>, i: nat, b: Body)
    requires HexDigest(H) && i < |items| && items[i] == CanonicalBytes(b) && b.previousHash == H(Before(genesis, items, i))
    ensures LinkedAt(H, genesis, items, i)
  {
    CanonicalSuffix(b);
  }

  /** The bytes of an accepted sequence are linked, and its last hash is that of its last bytes. */
  lemma AcceptedLinked(H: Digest, genesis: Text, es: seq<Entry>)
    requires HexDigest(H) && AcceptedFromGenesis(Canonical(H, genesis), es)
    ensures Linked(H, genesis, BytesOf(es)) && es[|es| - 1].entryHash == H(BytesOf(es)[|es| - 1])
  {
    forall i | 0 <= i < |es|
      ensures LinkedAt(H, genesis, BytesOf(es), i)
    {
      SoundPrevious(H, genesis, es, i);
      SuffixLinked(H, genesis, BytesOf(es), i, BodyOf(es[i]));
    }
    SoundHash(H, genesis, es, |es| - 1);
  }

  /**
   Two accepted sequences ending in the same hash have the same length and the same hashed bytes
   at every index, or two inputs hashed for them, at the returned places, collide.
   */
  lemma TipCommits(H: Digest, genesis: Text, a: seq<Entry>, b: seq<Entry>) returns (x: nat, y: nat)
    requires HexDigest(H) && |genesis| < 64
    requires AcceptedFromGenesis(Canonical(H, genesis), a) && AcceptedFromGenesis(Canonical(H, genesis), b)
    requires a[|a| - 1].entryHash == b[|b| - 1].entryHash
    ensures BytesOf(a) == BytesOf(b) || CollideAcross(H, genesis, BytesOf(a), x, BytesOf(b), y)
  {
    var p, q := BytesOf(a), BytesOf(b);
    AcceptedLinked(H, genesis, a);
    AcceptedLinked(H, genesis, b);
    x, y := AgreeWhole(H, genesis, p, q);
  }

  /** The window is accepted and starts at position 1. */
  lemma AcceptedWindow(h: Scheme, es: seq<Entry>, start: Option<nat>, end: Option<nat>, w: seq<Entry>)
    requires es != [] && Window(es, start, end) == Success(w) && w != [] && w[0].position == 1
    requires Verdict(h, es, start, end).Success? && Verdict(h, es, start, end).value.valid
    ensures AcceptedFromGenesis(h, w)
  {
    VerdictExact(h, es, start, end);
  }

  /**
   The same of what `verify_chain` accepts: two accepted windows, of whatever records and bounds, that start at position 1
   and end in the same hash have the same hashed bytes throughout, or two of their inputs collide.
   */
  lemma VerifiedTipCommits(H: Digest, genesis: Text, a: seq<Entry>, startA: Option<nat>, endA: Option<nat>, v: seq<Entry>,
                           b: seq<Entry>, startB: Option<nat>, endB: Option<nat>, w: seq<Entry>) returns (x: nat, y: nat)
    requires HexDigest(H) && |genesis| < 64 && a != [] && b != []
    requires Window(a, startA, endA) == Success(v) && v != [] && v[0].position == 1
    requires Window(b, startB, endB) == Success(w) && w != [] && w[0].position == 1
    requires var r := Verdict(Canonical(H, genesis), a, startA, endA); r.Success? && r.value.valid
    requires var r := Verdict(Canonical(H, genesis), b, startB, endB); r.Success? && r.value.valid
    requires v[|v| - 1].entryHash == w[|w| - 1].entryHash
    ensures BytesOf(v) == BytesOf(w) || CollideAcross(H, genesis, BytesOf(v), x, BytesOf(w), y)
  {
    AcceptedWindow(Canonical(H, genesis), a, startA, endA, v);
    AcceptedWindow(Canonical(H, genesis), b, startB, endB, w);
    x, y := TipCommits(H, genesis, v, w);
  }

  lemma GoodChainAcceptedFromGenesis(h: Scheme, t: Text, es: seq<Entry>)
    requires GoodChain(h, t, es) && es != []
    ensures AcceptedFromGenesis(h, es)
  {
    GoodChainSound(h, t, es);
  }

  /******* verify_entry *******/

  datatype EntryReport = EntryReport(hashValid: bool, linkValid: bool, reason: FailureReason)

  function FindPosition(es: seq<Entry>, position: int): Option<Entry> {
    if es == [] then None
    else if es[0].position == position then Some(es[0])
    else FindPosition(es[1..], position)
  }

  function EntryVerdict(h: Scheme, chain: seq<Entry>, e: Entry): EntryReport {
    var hashValid := h.hash(BodyOf(e)) == e.entryHash;
    var linkValid :=
      if e.position == 1 then e.previousHash == h.genesis
      else
        var p := FindPosition(chain, e.position - 1);
        p.Some? && p.value.entryHash == e.previousHash;
    EntryReport(hashValid, linkValid,
                if hashValid && linkValid then NoFailure else if !hashValid then EntryHashMismatch else ChainLinkMismatch)
  }

  lemma {:induction false} FindPositionIn(es: seq<Entry>, from: int, k: nat)
    requires forall i :: 0 <= i < |es| ==> es[i].position == from + i
    requires k < |es|
    ensures FindPosition(es, from + k) == Some(es[k])
  {
    if k > 0 {
      FindPositionIn(es[1..], from + 1, k - 1);
    }
  }

  lemma {:induction false} FindPositionNone(es: seq<Entry>, position: int)
    ensures FindPosition(es, position).None? <==> forall i :: 0 <= i < |es| ==> es[i].position != position
  {
    if es != [] {
      FindPositionNone(es[1..], position);
      assert (forall i :: 0 <= i < |es[1..]| ==> es[1..][i] == es[i + 1]);
      assert (forall i :: 0 <= i < |es| ==> es[i].position != position) <==>
        es[0].position != position && (forall i :: 0 <= i < |es[1..]| ==> es[1..][i].position != position) by {
        assert forall i :: 1 <= i < |es| ==> es[i] == es[1..][i - 1];
      }
    }
  }

  /**
   `verify_entry` on a record of a numbered chain, sound or not: the hash is valid exactly if the stored one fits, the link
   exactly if it names the genesis hash or the stored hash of the record before, and a bad hash is reported before a bad link.
   */
  lemma EntryVerdictExact(h: Scheme, es: seq<Entry>, i: nat)
    requires (forall j :: 0 <= j < |es| ==> es[j].position == j + 1) && i < |es|
    ensures var r := EntryVerdict(h, es, es[i]);
      && (r.hashValid <==> es[i].entryHash == h.hash(BodyOf(es[i])))
      && (r.linkValid <==> es[i].previousHash == if i == 0 then h.genesis else es[i - 1].entryHash)
      && (r.reason == NoFailure <==> r.hashValid && r.linkValid)
      && (r.reason == EntryHashMismatch <==> !r.hashValid)
      && (r.reason == ChainLinkMismatch <==> r.hashValid && !r.linkValid)
  {
    if i > 0 {
      FindPositionIn(es, 1, i - 1);
    }
  }

  /** A record whose predecessor is missing from the chain has no valid link. */
  lemma MissingPredecessor(h: Scheme, es: seq<Entry>, e: Entry)
    requires e.position != 1 && forall i :: 0 <= i < |es| ==> es[i].position != e.position - 1
    ensures !EntryVerdict(h, es, e).linkValid
  {
    FindPositionNone(es, e.position - 1);
  }

  lemma EntryVerdictIsSound(h: Scheme, es: seq<Entry>, i: nat)
    requires forall j :: 0 <= j < |es| ==> es[j].position == j + 1
    requires i < |es|
    ensures EntryVerdict(h, es, es[i]) == EntryReport(true, true, NoFailure) <==> Sound(h, es, i)
  {
    if i > 0 {
      FindPositionIn(es, 1, i - 1);
    }
  }

  lemma VerdictValidIffAllSound(h: Scheme, es: seq<Entry>)
    requires forall i :: 0 <= i < |es| ==> es[i].position == i + 1
    ensures Verdict(h, es, None, None).Success?
    ensures Verdict(h, es, None, None).value.valid <==> AllSound(h, es)
  {
    if es != [] {
      FullWindow(es);
      ReportPinpoints(h, es, 0);
    }
  }

  /** On records numbered 1..n, whole-chain acceptance is acceptance of every record on its own. */
  lemma ChainVerdictIsEntryVerdicts(h: Scheme, es: seq<Entry>)
    requires forall i :: 0 <= i < |es| ==> es[i].position == i + 1
    ensures Verdict(h, es, None, None).Success?
    ensures Verdict(h, es, None, None).value.valid <==>
      forall i :: 0 <= i < |es| ==> EntryVerdict(h, es, es[i]) == EntryReport(true, true, NoFailure)
  {
    VerdictValidIffAllSound(h, es);
    forall i | 0 <= i < |es|
      ensures EntryVerdict(h, es, es[i]) == EntryReport(true, true, NoFailure) <==> Sound(h, es, i)
    {
      EntryVerdictIsSound(h, es, i);
    }
  }
}
