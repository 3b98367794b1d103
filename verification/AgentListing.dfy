/**
 Listing agents page by page (s0/agent-registry-service/internal/repository/postgres/repository.go, `ListAgents`).
 The next token is the first agent left out of a page, and the next page starts after the token: that agent is never
 listed. Agent ids are compared as texts.
 */
module AgentListing {
  import opened Wrappers
  import opened DecisionKey
  import opened AgentRegistry

  /** An empty text or an absent status is no filter (the type comes in upper case), except that deregistered agents are left out by default. */
  datatype Filter = Filter(status: Option<Status>, agentType: string, ownerId: string)

  predicate Passes(s: Tables, f: Filter, id: string) {
    && id in s.agents && id in s.profiles
    && (if f.status.Some? then s.agents[id] == f.status.value else s.agents[id] != Deregistered)
    && (f.agentType != "" ==> s.profiles[id].agentType == f.agentType)
    && (f.ownerId != "" ==> s.profiles[id].ownerId == f.ownerId)
  }

  /** The ids that pass the filter, ordered. */
  function Matching(s: Tables, f: Filter): seq<string> {
    SortedKeys(set id | id in s.agents && Passes(s, f, id))
  }

  function Limit(limit: int): (r: nat)
    ensures 1 <= r <= 1000
  {
    if limit <= 0 then 50 else if limit > 1000 then 1000 else limit
  }

  /** `agent_id > token`; an empty token is no condition. */
  function Above(ids: seq<string>, token: string): seq<string> {
    if ids == [] then []
    else (if token == "" || !LexLe(ids[0], token) then [ids[0]] else []) + Above(ids[1..], token)
  }

  datatype Page = Page(agents: seq<string>, next: string)

  function PageAfter(ids: seq<string>, limit: nat, token: string): Page {
    var rows := Above(ids, token);
    if |rows| > limit then Page(rows[..limit], rows[limit]) else Page(rows, "")
  }

  /** `ListAgents`: ask for one row more than the limit, and make the extra row the token. */
  method ListAgents(s: Tables, f: Filter, limit: int, token: string) returns (page: Page)
    ensures page == PageAfter(Matching(s, f), Limit(limit), token)
  {
    var n := Limit(limit);
    var rows := Above(Matching(s, f), token);
    var result := if |rows| > n + 1 then rows[..n + 1] else rows;
    var next := "";
    if |result| > n {
      next := result[n];
      result := result[..n];
    }
    page := Page(result, next);
  }

  /******* Following the tokens *******/

  /** Ordered, without repetition and without the empty id. */
  ghost predicate Proper(ids: seq<string>) {
    && (forall i, j :: 0 <= i < j < |ids| ==> LexLe(ids[i], ids[j]) && ids[i] != ids[j])
    && (forall i :: 0 <= i < |ids| ==> ids[i] != "")
  }

  lemma {:induction false} AboveNothing(ids: seq<string>)
    ensures Above(ids, "") == ids
  {
    if ids != [] {
      AboveNothing(ids[1..]);
    }
  }

  /** If the first `n` ids are the ones not above the token, the rest is. */
  lemma {:induction false} AboveSplit(ids: seq<string>, token: string, n: nat)
    requires n <= |ids| && token != ""
    requires forall i :: 0 <= i < |ids| ==> (LexLe(ids[i], token) <==> i < n)
    ensures Above(ids, token) == ids[n..]
  {
    if ids != [] {
      AboveSplit(ids[1..], token, if n > 0 then n - 1 else 0);
    }
  }

  lemma LaterIsAbove(ids: seq<string>, k: nat, i: nat)
    requires Proper(ids) && k < i < |ids|
    ensures !LexLe(ids[i], ids[k])
  {
    if LexLe(ids[i], ids[k]) {
      LexAntisymmetric(ids[k], ids[i]);
    }
  }

  /** After the id at `k` come exactly the ids behind it. */
  lemma AboveIsRest(ids: seq<string>, k: nat)
    requires Proper(ids) && k < |ids|
    ensures Above(ids, ids[k]) == ids[k + 1..]
  {
    forall i | 0 <= i < |ids|
      ensures LexLe(ids[i], ids[k]) <==> i < k + 1
    {
      if i > k {
        LaterIsAbove(ids, k, i);
      } else if i == k {
        LexTotal(ids[k], ids[k]);
      }
    }
    AboveSplit(ids, ids[k], k + 1);
  }

  /** The answers to successive calls, each with the token of the last, until there is none. */
  ghost predicate Session(ids: seq<string>, limit: nat, token: string, pages: seq<Page>)
    decreases |pages|
  {
    && pages != [] && pages[0] == PageAfter(ids, limit, token)
    && if pages[0].next == "" then |pages| == 1 else Session(ids, limit, pages[0].next, pages[1..])
  }

  function Agents(pages: seq<Page>): seq<string> {
    if pages == [] then [] else pages[0].agents + Agents(pages[1..])
  }

  /** All but every `limit + 1`-st element. */
  function Skipping(ids: seq<string>, limit: nat): seq<string> {
    if |ids| <= limit then ids else ids[..limit] + Skipping(ids[limit + 1..], limit)
  }

  lemma {:induction false} SessionSkips(ids: seq<string>, limit: nat, token: string, from: nat, pages: seq<Page>)
    requires Proper(ids) && from <= |ids| && Above(ids, token) == ids[from..] && Session(ids, limit, token, pages)
    ensures Agents(pages) == Skipping(ids[from..], limit)
    decreases |pages|
  {
    var rows := ids[from..];
    if |rows| > limit {
      assert rows[limit] == ids[from + limit];
      AboveIsRest(ids, from + limit);
      SessionSkips(ids, limit, ids[from + limit], from + limit + 1, pages[1..]);
      assert rows[limit + 1..] == ids[from + limit + 1..];
    } else {
      assert Agents(pages[1..]) == [];
    }
  }

  /** Index `i` is the last of a run of `limit + 1` indices. */
  predicate BehindPage(i: nat, limit: nat) {
    if i <= limit then i == limit else BehindPage(i - limit - 1, limit)
  }

  lemma {:induction false} SkippingMembers(ids: seq<string>, limit: nat)
    ensures forall x :: x in Skipping(ids, limit) ==> x in ids
  {
    if |ids| > limit {
      SkippingMembers(ids[limit + 1..], limit);
    }
  }

  lemma InSlice(ids: seq<string>, i: nat, from: nat, to: nat)
    requires Proper(ids) && i < |ids| && from <= to <= |ids|
    ensures ids[i] in ids[from..to] <==> from <= i < to
  {
    if from <= i < to {
      assert ids[from..to][i - from] == ids[i];
    }
  }

  /** Exactly the elements right behind a full page are skipped. */
  lemma {:induction false} SkippingAt(ids: seq<string>, limit: nat, i: nat)
    requires Proper(ids) && i < |ids|
    ensures ids[i] in Skipping(ids, limit) <==> !BehindPage(i, limit)
  {
    if |ids| > limit {
      var rest := ids[limit + 1..];
      InSlice(ids, i, 0, limit);
      InSlice(ids, i, limit + 1, |ids|);
      SkippingMembers(rest, limit);
      assert ids[..limit] == ids[0..limit] && rest == ids[limit + 1..|ids|];
      if i > limit {
        assert ids[i] == rest[i - limit - 1];
        SkippingAt(rest, limit, i - limit - 1);
      }
    }
  }

  /** The ids a listing goes through are ordered without repetition, if no agent has the empty id. */
  lemma MatchingProper(s: Tables, f: Filter)
    requires "" !in s.agents
    ensures Proper(Matching(s, f))
  {
    SortedKeysDistinct(set id | id in s.agents && Passes(s, f, id));
  }

  lemma {:induction false} SortedKeysDistinct(keys: set<string>)
    ensures forall i, j :: 0 <= i < j < |SortedKeys(keys)| ==>
      LexLe(SortedKeys(keys)[i], SortedKeys(keys)[j]) && SortedKeys(keys)[i] != SortedKeys(keys)[j]
    ensures forall i :: 0 <= i < |SortedKeys(keys)| ==> SortedKeys(keys)[i] in keys
  {
    SortedKeysSorted(keys);
    if keys != {} {
      var k := LeastOf(keys);
      SortedKeysDistinct(keys - {k});
      var rest := SortedKeys(keys - {k});
      assert SortedKeys(keys) == [k] + rest;
      assert forall i :: 0 <= i < |rest| ==> rest[i] in keys - {k};
    }
  }

  /** Following the tokens from the start lists, of all agents that pass the filter, every one but those right behind a full page. */
  lemma ListingSkips(s: Tables, f: Filter, limit: int, pages: seq<Page>, i: nat)
    requires "" !in s.agents && Session(Matching(s, f), Limit(limit), "", pages) && i < |Matching(s, f)|
    ensures Matching(s, f)[i] in Agents(pages) <==> !BehindPage(i, Limit(limit))
  {
    var ids := Matching(s, f);
    MatchingProper(s, f);
    AboveNothing(ids);
    assert ids[0..] == ids;
    SessionSkips(ids, Limit(limit), "", 0, pages);
    SkippingAt(ids, Limit(limit), i);
  }

  /** So the listing is complete exactly if all agents that pass the filter fit on the first page. */
  lemma ListingCompleteExactly(s: Tables, f: Filter, limit: int, pages: seq<Page>)
    requires "" !in s.agents && Session(Matching(s, f), Limit(limit), "", pages)
    ensures (forall id :: id in Matching(s, f) ==> id in Agents(pages)) <==> |Matching(s, f)| <= Limit(limit)
  {
    var ids := Matching(s, f);
    if |ids| > Limit(limit) {
      ListingSkips(s, f, limit, pages, Limit(limit));
      assert ids[Limit(limit)] in ids;
    } else {
      forall i | 0 <= i < |ids|
        ensures ids[i] in Agents(pages)
      {
        ListingSkips(s, f, limit, pages, i);
      }
    }
  }

  /** What is listed: the agents with the given status, or any but DEREGISTERED, of the given type and owner, by id. */
  lemma MatchingExact(s: Tables, f: Filter)
    ensures forall id :: id in Matching(s, f) <==>
      && id in s.agents && id in s.profiles
      && (if f.status.Some? then s.agents[id] == f.status.value else s.agents[id] != Deregistered)
      && (f.agentType == "" || s.profiles[id].agentType == f.agentType)
      && (f.ownerId == "" || s.profiles[id].ownerId == f.ownerId)
  {}

  /** A page holds at most the limit, which is 50 unless given and never above 1000, and its token is the first agent left out. */
  lemma PageExact(ids: seq<string>, limit: int)
    ensures var n, page := if limit <= 0 then 50 else if limit > 1000 then 1000 else limit, PageAfter(ids, Limit(limit), "");
      page == if |ids| > n then Page(ids[..n], ids[n]) else Page(ids, "")
  {
    AboveNothing(ids);
  }
}
