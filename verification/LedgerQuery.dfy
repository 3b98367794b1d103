/**
 Filtering, ordering and paging of ledger entries (s0/immutable-ledger/src/service/mod.rs, `query_entries`),
 over a fixed snapshot of the repository.
 */
module LedgerQuery {
  import opened Wrappers
  import opened LedgerCrypto
  import opened Sorting

  datatype Query = Query(
    entryType: Option<Text>,
    agentId: Option<Text>,
    sourceId: Option<Text>,
    correlationId: Option<Text>,
    from: Option<int>,
    to: Option<int>,
    pageSize: int,
    token: Option<Text>)

  datatype Page = Page(entries: seq<Entry>, next: Option<Text>, total: nat)

  const MAX_USIZE: nat := 0xFFFF_FFFF_FFFF_FFFF

  /******* Filters *******/

  /** Filter number `k` lets the entry pass; an absent filter lets everything pass. */
  predicate Holds(q: Query, k: nat, e: Entry) {
    if k == 0 then q.entryType.Some? ==> e.entryType == q.entryType.value
    else if k == 1 then q.agentId.Some? ==> e.agentId == q.agentId.value
    else if k == 2 then q.sourceId.Some? ==> e.sourceId == q.sourceId.value
    else if k == 3 then q.correlationId.Some? ==> e.correlationId == q.correlationId
    else if k == 4 then q.from.Some? ==> e.timestamp >= q.from.value
    else q.to.Some? ==> e.timestamp <= q.to.value
  }

  /** Passing the filters numbered below `k`. */
  predicate PassesBelow(q: Query, k: nat, e: Entry) {
    forall j :: 0 <= j < k ==> Holds(q, j, e)
  }

  /** `retain` with filter number `k`. */
  function Retain(q: Query, k: nat, es: seq<Entry>): seq<Entry> {
    if es == [] then [] else (if Holds(q, k, es[0]) then [es[0]] else []) + Retain(q, k, es[1..])
  }

  /** The entries that pass the filters numbered below `k`. */
  function Selected(q: Query, k: nat, es: seq<Entry>): seq<Entry> {
    if es == [] then [] else (if PassesBelow(q, k, es[0]) then [es[0]] else []) + Selected(q, k, es[1..])
  }

  lemma {:induction false} SelectedMultiset(q: Query, k: nat, es: seq<Entry>, e: Entry)
    ensures multiset(Selected(q, k, es))[e] == if PassesBelow(q, k, e) then multiset(es)[e] else 0
  {
    if es != [] {
      SelectedMultiset(q, k, es[1..], e);
      assert es == [es[0]] + es[1..];
    }
  }

  lemma {:induction false} SelectedNone(q: Query, es: seq<Entry>)
    ensures Selected(q, 0, es) == es
  {
    if es != [] {
      SelectedNone(q, es[1..]);
    }
  }

  /** One more `retain` selects by one more filter. */
  lemma {:induction false} RetainSelects(q: Query, k: nat, es: seq<Entry>)
    ensures Retain(q, k, Selected(q, k, es)) == Selected(q, k + 1, es)
  {
    if es != [] {
      RetainSelects(q, k, es[1..]);
      assert PassesBelow(q, k + 1, es[0]) <==> PassesBelow(q, k, es[0]) && Holds(q, k, es[0]);
      var rest := Selected(q, k, es[1..]);
      assert [] + rest == rest && ([es[0]] + rest)[1..] == rest;
    }
  }

  /** Without the filter there is nothing to drop. */
  lemma {:induction false} AbsentSelects(q: Query, k: nat, es: seq<Entry>)
    requires forall e :: e in es ==> Holds(q, k, e)
    ensures Selected(q, k, es) == Selected(q, k + 1, es)
  {
    if es != [] {
      AbsentSelects(q, k, es[1..]);
      assert Holds(q, k, es[0]);
      assert PassesBelow(q, k + 1, es[0]) <==> PassesBelow(q, k, es[0]) && Holds(q, k, es[0]);
    }
  }

  predicate ByTime(a: Entry, b: Entry) {
    a.timestamp < b.timestamp || (a.timestamp == b.timestamp && a.position <= b.position)
  }

  /** All answers to the query, in order. */
  function Answers(q: Query, es: seq<Entry>): seq<Entry> {
    SortBy(ByTime, Selected(q, 6, es))
  }

  /** Every filter that is given lets the entry pass; the time bounds are inclusive. */
  ghost predicate PassesAll(q: Query, e: Entry) {
    && (q.entryType.Some? ==> e.entryType == q.entryType.value)
    && (q.agentId.Some? ==> e.agentId == q.agentId.value)
    && (q.sourceId.Some? ==> e.sourceId == q.sourceId.value)
    && (q.correlationId.Some? ==> e.correlationId == Some(q.correlationId.value))
    && (q.from.Some? ==> q.from.value <= e.timestamp)
    && (q.to.Some? ==> e.timestamp <= q.to.value)
  }

  lemma PassesSpelled(q: Query, e: Entry)
    ensures PassesBelow(q, 6, e) <==> PassesAll(q, e)
  {
    assert PassesBelow(q, 6, e) <==> Holds(q, 0, e) && Holds(q, 1, e) && Holds(q, 2, e) && Holds(q, 3, e) && Holds(q, 4, e) && Holds(q, 5, e);
  }

  /** The answers are the entries that pass every filter, as often as they occur, by time and, at one time, by position. */
  lemma AnswersExact(q: Query, es: seq<Entry>)
    ensures forall i, j :: 0 <= i < j < |Answers(q, es)| ==>
      var a, b := Answers(q, es)[i], Answers(q, es)[j];
      a.timestamp < b.timestamp || (a.timestamp == b.timestamp && a.position <= b.position)
    ensures forall e :: multiset(Answers(q, es))[e] == if PassesAll(q, e) then multiset(es)[e] else 0
  {
    SortBySorts(ByTime, Selected(q, 6, es));
    var all := Answers(q, es);
    forall i, j | 0 <= i < j < |all|
      ensures all[i].timestamp < all[j].timestamp || (all[i].timestamp == all[j].timestamp && all[i].position <= all[j].position)
    {
      assert ByTime(all[i], all[j]);
    }
    forall e
      ensures multiset(all)[e] == if PassesAll(q, e) then multiset(es)[e] else 0
    {
      SelectedMultiset(q, 6, es, e);
      PassesSpelled(q, e);
    }
  }

  /******* Page tokens *******/

  /** `parse::<usize>`: an optional plus sign, then at least one digit, in range. */
  function ParseUsize(t: Text): Option<nat> {
    var digits := if t != [] && t[0] == 43 then t[1..] else t;
    if digits != [] && AllDigits(digits) && Number(digits) <= MAX_USIZE then Some(Number(digits)) else None
  }

  /** A token reads back as the offset it was written from. */
  lemma TokenRoundTrip(n: nat)
    requires n <= MAX_USIZE
    ensures ParseUsize(Digits(n)) == Some(n)
  {
    NumberOfDigits(n);
  }

  /** Besides a written offset, a leading plus sign and leading zeros are read; anything else starts over from the front. */
  lemma OtherTokens(n: nat, t: Text)
    requires n <= MAX_USIZE
    ensures ParseUsize([43] + Digits(n)) == Some(n) && ParseUsize([48] + Digits(n)) == Some(n)
    ensures t == [] || t == [43] ==> ParseUsize(t) == None
    ensures (exists i :: 0 <= i < |t| && !(48 <= t[i] < 58) && !(i == 0 && t[i] == 43)) ==> ParseUsize(t) == None
    ensures ParseUsize(Digits(MAX_USIZE + 1 + n)) == None
  {
    NumberOfDigits(n);
    PlusAndZero(Digits(n));
    NumberOfDigits(MAX_USIZE + 1 + n);
    if i :| 0 <= i < |t| && !(48 <= t[i] < 58) && !(i == 0 && t[i] == 43) {
      Unreadable(t, i);
    }
  }

  lemma PlusAndZero(d: Text)
    requires d != [] && AllDigits(d) && Number(d) <= MAX_USIZE
    ensures ParseUsize([43] + d) == Some(Number(d)) && ParseUsize([48] + d) == Some(Number(d))
  {
    assert ([43] + d)[1..] == d;
    LeadingZero(d);
  }

  lemma Unreadable(t: Text, i: nat)
    requires i < |t| && !(48 <= t[i] < 58) && !(i == 0 && t[i] == 43)
    ensures ParseUsize(t) == None
  {
    if t[0] == 43 {
      assert t[1..][i - 1] == t[i];
    }
  }

  lemma {:induction false} LeadingZero(t: Text)
    requires AllDigits(t)
    ensures AllDigits([48] + t) && Number([48] + t) == Number(t)
  {
    var z := [48] + t;
    if t != [] {
      LeadingZero(t[..|t| - 1]);
      assert z[..|z| - 1] == [48] + t[..|t| - 1];
    } else {
      assert z[..0] == [];
    }
  }

  /******* Pages *******/

  function Size(pageSize: int): (r: nat)
    ensures 1 <= r <= 1000
  {
    if pageSize <= 0 then 100 else if pageSize > 1000 then 1000 else pageSize
  }

  function Offset(token: Option<Text>): nat {
    if token.Some? && ParseUsize(token.value).Some? then ParseUsize(token.value).value else 0
  }

  /** `skip(offset).take(size)`. */
  function Slice(all: seq<Entry>, offset: nat, size: nat): (r: seq<Entry>)
    ensures |r| <= size
  {
    if offset >= |all| then []
    else if offset + size <= |all| then all[offset..offset + size]
    else all[offset..]
  }

  function PageOf(all: seq<Entry>, offset: nat, size: nat): Page {
    var entries := Slice(all, offset, size);
    Page(entries, if offset + |entries| < |all| then Some(Digits(offset + |entries|)) else None, |all|)
  }

  /** Drops what filter `k` rejects, if that filter is given. */
  method ApplyFilter(q: Query, k: nat, given: bool, entries: seq<Entry>, ghost snapshot: seq<Entry>) returns (r: seq<Entry>)
    requires entries == Selected(q, k, snapshot)
    requires !given ==> forall e :: Holds(q, k, e)
    ensures r == Selected(q, k + 1, snapshot)
  {
    r := entries;
    if given {
      r := Retain(q, k, entries);
      RetainSelects(q, k, snapshot);
    } else {
      AbsentSelects(q, k, snapshot);
    }
  }

  /** What one `query_entries` call answers. */
  function QueryPage(q: Query, snapshot: seq<Entry>): Page {
    PageOf(Answers(q, snapshot), Offset(q.token), Size(q.pageSize))
  }

  method QueryEntries(q: Query, snapshot: seq<Entry>) returns (page: Page)
    ensures page == QueryPage(q, snapshot)
  {
    var entries := snapshot;
    SelectedNone(q, snapshot);
    entries := ApplyFilter(q, 0, q.entryType.Some?, entries, snapshot);
    entries := ApplyFilter(q, 1, q.agentId.Some?, entries, snapshot);
    entries := ApplyFilter(q, 2, q.sourceId.Some?, entries, snapshot);
    entries := ApplyFilter(q, 3, q.correlationId.Some?, entries, snapshot);
    entries := ApplyFilter(q, 4, q.from.Some?, entries, snapshot);
    entries := ApplyFilter(q, 5, q.to.Some?, entries, snapshot);
    entries := SortBy(ByTime, entries);
    assert entries == Answers(q, snapshot);
    var total := |entries|;
    var size := Size(q.pageSize);
    var offset := Offset(q.token);
    var pageEntries := Slice(entries, offset, size);
    var nextOffset := offset + |pageEntries|;
    page := Page(pageEntries, if nextOffset < total then Some(Digits(nextOffset)) else None, total);
  }

  /******* Following the tokens *******/

  /** The pages hold consecutive slices of `all` from `offset` to the end, each but the last of full size. */
  ghost predicate Covers(all: seq<Entry>, offset: nat, size: nat, pages: seq<Page>)
    decreases |pages|
  {
    && pages != [] && offset <= |all|
    && if offset + size < |all|
       then pages[0].entries == all[offset..offset + size] && Covers(all, offset + size, size, pages[1..])
       else pages[0].entries == all[offset..] && |pages| == 1
  }

  /** The pages a client collects by following tokens from the given one until there is none. */
  function Follow(all: seq<Entry>, token: Option<Text>, size: nat): (pages: seq<Page>)
    requires size >= 1 && |all| <= MAX_USIZE
    ensures Offset(token) <= |all| ==> Covers(all, Offset(token), size, pages)
    decreases if Offset(token) < |all| then |all| - Offset(token) else 0
  {
    var offset := Offset(token);
    var page := PageOf(all, offset, size);
    if page.next.None? then [page]
    else
      NextOffset(all, offset, size);
      var rest := Follow(all, page.next, size);
      assert ([page] + rest)[1..] == rest;
      [page] + rest
  }

  /** The token of a page reads back as the offset behind it. */
  lemma NextOffset(all: seq<Entry>, offset: nat, size: nat)
    requires size >= 1 && |all| <= MAX_USIZE && PageOf(all, offset, size).next.Some?
    ensures offset + size < |all| && Offset(PageOf(all, offset, size).next) == offset + size
  {
    OffsetOfToken(offset + size);
  }

  lemma OffsetOfToken(n: nat)
    requires n <= MAX_USIZE
    ensures Offset(Some(Digits(n))) == n
  {
    TokenRoundTrip(n);
  }

  function Entries(pages: seq<Page>): seq<Entry> {
    if pages == [] then [] else pages[0].entries + Entries(pages[1..])
  }

  function PagesNeeded(count: nat, size: nat): nat
    requires size >= 1
  {
    if count <= size then 1 else 1 + PagesNeeded(count - size, size)
  }

  lemma {:induction false} CoversEverything(all: seq<Entry>, offset: nat, size: nat, pages: seq<Page>)
    requires size >= 1 && Covers(all, offset, size, pages)
    ensures Entries(pages) == all[offset..] && |pages| == PagesNeeded(|all| - offset, size)
    decreases |pages|
  {
    var next := offset + size;
    if next < |all| {
      CoversEverything(all, next, size, pages[1..]);
      assert all[offset..next] + all[next..] == all[offset..];
    } else {
      assert Entries(pages[1..]) == [];
    }
  }

  /** `pages` is max(1, ceil(count / size)). */
  ghost predicate IsCeiling(pages: nat, count: nat, size: nat) {
    pages >= 1 && count <= pages * size && (pages > 1 ==> (pages - 1) * size < count)
  }

  lemma {:induction false} PagesNeededIsCeiling(count: nat, size: nat)
    requires size >= 1
    ensures IsCeiling(PagesNeeded(count, size), count, size)
  {
    if count > size {
      PagesNeededIsCeiling(count - size, size);
      var p := PagesNeeded(count - size, size);
      assert (p + 1) * size == p * size + size;
      assert p > 1 ==> p * size == (p - 1) * size + size;
    }
  }

  /** The answers to a query and to the same query with each token it returns, until there is none. */
  ghost predicate Session(q: Query, snapshot: seq<Entry>, pages: seq<Page>)
    decreases |pages|
  {
    && pages != [] && pages[0] == QueryPage(q, snapshot)
    && if pages[0].next.None? then |pages| == 1 else Session(q.(token := pages[0].next), snapshot, pages[1..])
  }

  lemma {:induction false} SelectedIgnoresToken(q: Query, token: Option<Text>, k: nat, es: seq<Entry>)
    ensures Selected(q.(token := token), k, es) == Selected(q, k, es)
  {
    if es != [] {
      SelectedIgnoresToken(q, token, k, es[1..]);
      assert forall j :: 0 <= j < k ==> (Holds(q.(token := token), j, es[0]) <==> Holds(q, j, es[0]));
    }
  }

  lemma FollowUnfolds(all: seq<Entry>, token: Option<Text>, size: nat)
    requires size >= 1 && |all| <= MAX_USIZE
    ensures var page := PageOf(all, Offset(token), size);
      Follow(all, token, size) == if page.next.None? then [page] else [page] + Follow(all, page.next, size)
  {}

  /** A session is exactly the pages of the one list of answers. */
  lemma {:induction false} SessionFollows(q: Query, snapshot: seq<Entry>, pages: seq<Page>)
    requires |Answers(q, snapshot)| <= MAX_USIZE
    ensures Session(q, snapshot, pages) <==> pages == Follow(Answers(q, snapshot), q.token, Size(q.pageSize))
    decreases |pages|
  {
    var all, size := Answers(q, snapshot), Size(q.pageSize);
    var page := QueryPage(q, snapshot);
    FollowUnfolds(all, q.token, size);
    if pages != [] {
      assert pages == [pages[0]] + pages[1..];
      if page.next.Some? {
        SelectedIgnoresToken(q, page.next, 6, snapshot);
        SessionFollows(q.(token := page.next), snapshot, pages[1..]);
      }
    }
  }

  lemma {:induction false} SessionTotals(q: Query, snapshot: seq<Entry>, pages: seq<Page>)
    requires Session(q, snapshot, pages)
    ensures forall i :: 0 <= i < |pages| ==> pages[i].total == |Answers(q, snapshot)|
    decreases |pages|
  {
    if |pages| > 1 {
      SelectedIgnoresToken(q, pages[0].next, 6, snapshot);
      SessionTotals(q.(token := pages[0].next), snapshot, pages[1..]);
    }
  }

  lemma FollowComplete(all: seq<Entry>, size: nat)
    requires size >= 1 && |all| <= MAX_USIZE
    ensures Entries(Follow(all, None, size)) == all && IsCeiling(|Follow(all, None, size)|, |all|, size)
  {
    CoversEverything(all, 0, size, Follow(all, None, size));
    PagesNeededIsCeiling(|all|, size);
    assert all[0..] == all;
  }

  /**
   Every session from the start yields every answer exactly once, in order, in max(1, ceil(total / size)) pages,
   whatever page size was asked for.
   */
  lemma {:induction false} PagingComplete(q: Query, snapshot: seq<Entry>, pages: seq<Page>)
    requires |Answers(q, snapshot)| <= MAX_USIZE && q.token == None && Session(q, snapshot, pages)
    ensures Entries(pages) == Answers(q, snapshot)
    ensures IsCeiling(|pages|, |Answers(q, snapshot)|, if q.pageSize <= 0 then 100 else if q.pageSize > 1000 then 1000 else q.pageSize)
    ensures forall i :: 0 <= i < |pages| ==> pages[i].total == |Answers(q, snapshot)|
  {
    SessionFollows(q, snapshot, pages);
    SessionTotals(q, snapshot, pages);
    FollowComplete(Answers(q, snapshot), Size(q.pageSize));
  }
}
