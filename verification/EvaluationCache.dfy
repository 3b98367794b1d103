/**
 The decision cache (s1/opa-integration-layer/src/cache.ts): an insertion-ordered map used for time to live and
 least-recently-used eviction, with invalidation by bundle name. The map is its items in insertion order.
 */
module EvaluationCache {
  import opened Wrappers
  import opened PolicyEvaluator
  import opened RecencyOrder

  datatype DecisionReason = AdmissionEnvelope | DenyByDefault | PolicyDecision

  datatype Response = Response(
    evaluationId: string,
    effect: Effect,
    decisionReason: DecisionReason,
    matchedRules: seq<RuleMatch>,
    firedRules: seq<string>,
    bundleNames: seq<string>,
    bundleVersions: seq<string>,
    evaluatedTs: int,
    cacheHit: bool,
    denyReason: DenyReason)

  datatype Item = Item(key: string, value: Response, cachedTs: int)

  datatype Limits = Limits(ttlMs: int, maxEntries: nat)

  /******* Operations on the ordered map *******/

  function Find(items: seq<Item>, key: string): (r: Option<Item>)
    ensures r.Some? ==> r.value in items && r.value.key == key
    ensures r.None? ==> forall x :: x in items ==> x.key != key
  {
    if items == [] then None
    else if items[0].key == key then Some(items[0])
    else
      assert forall x :: x in items ==> x == items[0] || x in items[1..];
      Find(items[1..], key)
  }

  /** `Map.delete`. */
  function Delete(items: seq<Item>, key: string): (r: seq<Item>)
    ensures forall x :: x in r <==> x in items && x.key != key
  {
    if items == [] then []
    else
      assert forall x :: x in items <==> x == items[0] || x in items[1..];
      (if items[0].key == key then [] else [items[0]]) + Delete(items[1..], key)
  }

  function DropFor(items: seq<Item>, bundle: string): (r: seq<Item>)
    ensures forall x :: x in r <==> x in items && bundle !in x.value.bundleNames
  {
    if items == [] then []
    else
      assert forall x :: x in items <==> x == items[0] || x in items[1..];
      (if bundle in items[0].value.bundleNames then [] else [items[0]]) + DropFor(items[1..], bundle)
  }

  predicate Fresh(limits: Limits, item: Item, now: int) {
    now - item.cachedTs <= limits.ttlMs
  }

  /** The response served, if any. */
  function Served(limits: Limits, items: seq<Item>, key: string, now: int): (r: Option<Response>)
    ensures r.Some? ==>
      exists x :: x in items && x.key == key && r == Some(x.value.(cacheHit := true, evaluatedTs := now))
  {
    var x := Find(items, key);
    if x.Some? && Fresh(limits, x.value, now) then Some(x.value.value.(cacheHit := true, evaluatedTs := now)) else None
  }

  function AfterGet(limits: Limits, items: seq<Item>, key: string, now: int): (r: seq<Item>)
    ensures forall x :: x in r ==> x in items
  {
    var x := Find(items, key);
    if x.None? then items
    else if !Fresh(limits, x.value, now) then Delete(items, key)
    else Delete(items, key) + [x.value]
  }

  function AfterSet(limits: Limits, items: seq<Item>, key: string, value: Response, now: int): (r: seq<Item>)
    ensures forall x :: x in r ==> x in items || x == Item(key, value.(cacheHit := false), now)
  {
    var added := Delete(items, key) + [Item(key, value.(cacheHit := false), now)];
    if |added| > limits.maxEntries then added[1..] else added
  }

  /******* Each key occurs once, within the capacity *******/

  ghost predicate DistinctKeys(items: seq<Item>) {
    forall i, j :: 0 <= i < j < |items| ==> items[i].key != items[j].key
  }

  lemma DistinctPrepend(x: Item, rest: seq<Item>)
    requires DistinctKeys(rest) && forall y :: y in rest ==> y.key != x.key
    ensures DistinctKeys([x] + rest)
  {
    var all := [x] + rest;
    assert forall i :: 1 <= i < |all| ==> all[i] == rest[i - 1] && rest[i - 1] in rest;
  }

  lemma DistinctTail(items: seq<Item>)
    requires DistinctKeys(items) && items != []
    ensures DistinctKeys(items[1..]) && forall y :: y in items[1..] ==> y.key != items[0].key
  {}

  lemma DistinctExtend(items: seq<Item>, x: Item)
    requires DistinctKeys(items) && forall y :: y in items ==> y.key != x.key
    ensures DistinctKeys(items + [x])
  {
    assert forall i :: 0 <= i < |items| ==> items[i] in items;
  }

  lemma {:induction false} DeleteDistinct(items: seq<Item>, key: string)
    requires DistinctKeys(items)
    ensures DistinctKeys(Delete(items, key))
    ensures |Delete(items, key)| == if Find(items, key).Some? then |items| - 1 else |items|
  {
    if items != [] {
      var x, rest := items[0], Delete(items[1..], key);
      DistinctTail(items);
      DeleteDistinct(items[1..], key);
      if x.key == key {
        assert Find(items[1..], key).None?;
      } else {
        DistinctPrepend(x, rest);
      }
    }
  }

  /** Lookups and insertions keep keys distinct and never exceed the capacity. */
  lemma CacheKeepsLimits(limits: Limits, items: seq<Item>, key: string, value: Response, now: int)
    requires DistinctKeys(items) && |items| <= limits.maxEntries
    ensures DistinctKeys(AfterGet(limits, items, key, now)) && |AfterGet(limits, items, key, now)| <= limits.maxEntries
    ensures DistinctKeys(AfterSet(limits, items, key, value, now)) && |AfterSet(limits, items, key, value, now)| <= limits.maxEntries
  {
    DeleteDistinct(items, key);
    var rest := Delete(items, key);
    DistinctExtend(rest, Item(key, value.(cacheHit := false), now));
    if Find(items, key).Some? {
      DistinctExtend(rest, Find(items, key).value);
    }
  }

  /** A response just set is served until its time to live runs out, unless the capacity is zero. */
  lemma SetThenGet(limits: Limits, items: seq<Item>, key: string, value: Response, now: int, later: int)
    requires DistinctKeys(items) && |items| <= limits.maxEntries && limits.maxEntries >= 1
    ensures Served(limits, AfterSet(limits, items, key, value, now), key, later)
         == if later - now <= limits.ttlMs then Some(value.(cacheHit := true, evaluatedTs := later)) else None
  {
    CacheKeepsLimits(limits, items, key, value, now);
    var after := AfterSet(limits, items, key, value, now);
    var item := Item(key, value.(cacheHit := false), now);
    assert after[|after| - 1] == item;
    FindUnique(after, |after| - 1);
  }

  lemma {:induction false} FindUnique(items: seq<Item>, i: nat)
    requires DistinctKeys(items) && i < |items|
    ensures Find(items, items[i].key) == Some(items[i])
  {
    if i > 0 {
      FindUnique(items[1..], i - 1);
    }
  }

  /******* Which keys are kept: the stack law again *******/

  datatype Op =
    | Look(key: string, now: int)
    | Store(key: string, value: Response, now: int)

  function Apply(limits: Limits, items: seq<Item>, op: Op): seq<Item> {
    match op
    case Look(key, now) => AfterGet(limits, items, key, now)
    case Store(key, value, now) => AfterSet(limits, items, key, value, now)
  }

  function Run(limits: Limits, ops: seq<Op>): seq<Item> {
    if ops == [] then [] else Apply(limits, Run(limits, ops[..|ops| - 1]), ops[|ops| - 1])
  }

  function KeyList(items: seq<Item>): (r: seq<string>)
    ensures |r| == |items| && forall i :: 0 <= i < |r| ==> r[i] == items[i].key
  {
    if items == [] then [] else [items[0].key] + KeyList(items[1..])
  }

  /** No lookup finds an expired entry. */
  ghost predicate Quiet(limits: Limits, ops: seq<Op>) {
    ops == [] ||
    var init, op := ops[..|ops| - 1], ops[|ops| - 1];
    Quiet(limits, init) && (op.Look? ==> forall x :: x in Run(limits, init) && x.key == op.key ==> op.now - x.cachedTs <= limits.ttlMs)
  }

  /** The keys stored or hit, in order. */
  function Uses(limits: Limits, ops: seq<Op>): seq<string> {
    if ops == [] then []
    else
      var init, op := ops[..|ops| - 1], ops[|ops| - 1];
      Uses(limits, init) + if op.Store? || op.key in KeyList(Run(limits, init)) then [op.key] else []
  }

  lemma {:induction false} DeleteKeys(items: seq<Item>, key: string)
    ensures KeyList(Delete(items, key)) == Without(KeyList(items), key)
  {
    if items != [] {
      DeleteKeys(items[1..], key);
      var x, rest := items[0], Delete(items[1..], key);
      assert ([x] + rest)[1..] == rest && [] + rest == rest;
      assert KeyList(items)[1..] == KeyList(items[1..]);
    }
  }

  lemma FindInKeys(items: seq<Item>, key: string)
    ensures Find(items, key).Some? <==> key in KeyList(items)
  {
    if key in KeyList(items) {
      var i :| 0 <= i < |items| && KeyList(items)[i] == key;
      assert items[i] in items;
    }
    if Find(items, key).Some? {
      var i :| 0 <= i < |items| && items[i] == Find(items, key).value;
      assert KeyList(items)[i] == key;
    }
  }

  lemma KeysExtend(items: seq<Item>, x: Item)
    ensures KeyList(items + [x]) == KeyList(items) + [x.key]
  {}

  /** A hit moves the key to the end. */
  lemma LookKeys(limits: Limits, items: seq<Item>, key: string, now: int)
    requires DistinctKeys(items) && forall x :: x in items && x.key == key ==> now - x.cachedTs <= limits.ttlMs
    ensures KeyList(AfterGet(limits, items, key, now))
         == if key in KeyList(items) then Without(KeyList(items), key) + [key] else KeyList(items)
  {
    DeleteKeys(items, key);
    FindInKeys(items, key);
    if key in KeyList(items) {
      KeysExtend(Delete(items, key), Find(items, key).value);
    }
  }

  /** A store puts the key at the end and, beyond the capacity, drops the oldest. */
  lemma StoreKeys(limits: Limits, items: seq<Item>, key: string, value: Response, now: int)
    requires DistinctKeys(items) && |items| <= limits.maxEntries
    ensures KeyList(AfterSet(limits, items, key, value, now))
         == LastN(Without(KeyList(items), key) + [key], limits.maxEntries)
  {
    var rest, item := Delete(items, key), Item(key, value.(cacheHit := false), now);
    DeleteKeys(items, key);
    DeleteDistinct(items, key);
    KeysExtend(rest, item);
    var added := rest + [item];
    assert |added| <= limits.maxEntries + 1;
    if |added| > limits.maxEntries {
      assert KeyList(added[1..]) == KeyList(added)[1..];
    }
  }

  lemma KeptWhole(items: seq<Item>, key: string, n: nat)
    requires DistinctKeys(items) && |items| <= n && key in KeyList(items)
    ensures LastN(Without(KeyList(items), key) + [key], n) == Without(KeyList(items), key) + [key]
  {
    DeleteKeys(items, key);
    DeleteDistinct(items, key);
    FindInKeys(items, key);
  }

  lemma {:induction false} RunKeepsLimits(limits: Limits, ops: seq<Op>)
    ensures DistinctKeys(Run(limits, ops)) && |Run(limits, ops)| <= limits.maxEntries
  {
    if ops != [] {
      var init, op := ops[..|ops| - 1], ops[|ops| - 1];
      RunKeepsLimits(limits, init);
      var value := if op.Store? then op.value else Response("", Deny, DenyByDefault, [], [], [], [], 0, false, NoReason);
      CacheKeepsLimits(limits, Run(limits, init), op.key, value, op.now);
    }
  }

  /** In a quiet run the keys kept are the most recent part of the recency order, oldest first. */
  lemma {:induction false} OrderIsRecency(limits: Limits, ops: seq<Op>)
    requires Quiet(limits, ops)
    ensures KeyList(Run(limits, ops)) == LastN(Recency(Uses(limits, ops)), limits.maxEntries)
  {
    if ops != [] {
      var init, op := ops[..|ops| - 1], ops[|ops| - 1];
      OrderIsRecency(limits, init);
      RunKeepsLimits(limits, init);
      if op.Store? {
        StoreKeys(limits, Run(limits, init), op.key, op.value, op.now);
      } else {
        LookKeys(limits, Run(limits, init), op.key, op.now);
        if op.key in KeyList(Run(limits, init)) {
          KeptWhole(Run(limits, init), op.key, limits.maxEntries);
        }
      }
      var uses := Uses(limits, init);
      RecencyDistinct(uses);
      LastNDistinct(Recency(uses), limits.maxEntries);
      UseLast(Recency(uses), op.key, limits.maxEntries);
      var used := uses + [op.key];
      assert used[..|used| - 1] == uses && used[|used| - 1] == op.key && uses + [] == uses;
    }
  }

  /** Without expiry, a decision is kept exactly if fewer than `maxEntries` distinct other keys were stored or hit since. */
  lemma KeptIffRecent(limits: Limits, ops: seq<Op>, key: string)
    requires Quiet(limits, ops)
    ensures (exists x :: x in Run(limits, ops) && x.key == key) <==>
      (key in Uses(limits, ops) && |UsedSince(Uses(limits, ops), key)| < limits.maxEntries)
  {
    var uses := Uses(limits, ops);
    OrderIsRecency(limits, ops);
    FindInKeys(Run(limits, ops), key);
    InRecentIffFew(uses, key, limits.maxEntries);
  }

  /** Up to its time to live an item is answered, and moves to the end. */
  lemma FreshExact(limits: Limits, items: seq<Item>, i: nat, now: int)
    requires DistinctKeys(items) && i < |items| && now - items[i].cachedTs <= limits.ttlMs
    ensures Served(limits, items, items[i].key, now) == Some(items[i].value.(cacheHit := true, evaluatedTs := now))
    ensures AfterGet(limits, items, items[i].key, now) == items[..i] + items[i + 1..] + [items[i]]
  {
    FindUnique(items, i);
    DeleteOne(items, i);
  }

  /** After that a lookup answers nothing and deletes it, and only it. */
  lemma StaleExact(limits: Limits, items: seq<Item>, i: nat, now: int)
    requires DistinctKeys(items) && i < |items| && now - items[i].cachedTs > limits.ttlMs
    ensures Served(limits, items, items[i].key, now) == None
    ensures AfterGet(limits, items, items[i].key, now) == items[..i] + items[i + 1..]
  {
    FindUnique(items, i);
    DeleteOne(items, i);
  }

  lemma {:induction false} DeleteOne(items: seq<Item>, i: nat)
    requires DistinctKeys(items) && i < |items|
    ensures Delete(items, items[i].key) == items[..i] + items[i + 1..]
  {
    DistinctTail(items);
    var x, rest := items[0], items[1..];
    if i > 0 {
      DeleteOne(rest, i - 1);
      assert rest[i - 1] == items[i] && rest[i - 1] in rest;
      assert [x] + (rest[..i - 1] + rest[i..]) == items[..i] + items[i + 1..];
    } else {
      DeleteAbsent(rest, x.key);
      assert items[..0] + items[1..] == rest;
    }
  }

  lemma {:induction false} DeleteAbsent(items: seq<Item>, key: string)
    requires forall y :: y in items ==> y.key != key
    ensures Delete(items, key) == items
  {
    if items != [] {
      assert items[0] in items && forall y :: y in items[1..] ==> y in items;
      DeleteAbsent(items[1..], key);
    }
  }

  /** An answer is stored under its key with its instant and as not served from the cache. */
  lemma SetExact(limits: Limits, items: seq<Item>, key: string, value: Response, now: int)
    requires limits.maxEntries >= 1 && DistinctKeys(items) && |items| <= limits.maxEntries
    ensures var items' := AfterSet(limits, items, key, value, now);
      && items' != [] && items'[|items'| - 1] == Item(key, value.(cacheHit := false), now)
      && (forall y :: y in items' && y.key != key ==> y in items)
      && ((exists y :: y in items && y.key == key) || |items| < limits.maxEntries ==>
            forall y :: y in items && y.key != key ==> y in items')
  {
    DeleteDistinct(items, key);
  }

  /******* The cache object *******/

  class DecisionCache {
    const limits: Limits
    var items: seq<Item>

    constructor (limits: Limits)
      ensures this.limits == limits && items == []
    {
      this.limits, items := limits, [];
    }

    method Get(key: string, now: int) returns (r: Option<Response>)
      modifies this
      ensures r == Served(limits, old(items), key, now)
      ensures items == AfterGet(limits, old(items), key, now)
    {
      var entry := Find(items, key);
      if entry.None? {
        return None;
      }
      if now - entry.value.cachedTs > limits.ttlMs {
        items := Delete(items, key);
        return None;
      }
      items := Delete(items, key);
      items := items + [entry.value];
      r := Some(entry.value.value.(cacheHit := true, evaluatedTs := now));
    }

    method Set(key: string, value: Response, now: int)
      modifies this
      ensures items == AfterSet(limits, old(items), key, value, now)
    {
      items := Delete(items, key) + [Item(key, value.(cacheHit := false), now)];
      if |items| > limits.maxEntries {
        items := items[1..];
      }
    }

    /** Collects the keys of the entries that used the bundle, then deletes them one by one. */
    method InvalidateForBundle(bundle: string)
      requires DistinctKeys(items)
      modifies this
      ensures items == DropFor(old(items), bundle)
    {
      var toDelete: seq<string> := [];
      for i := 0 to |items|
        invariant items == old(items)
        invariant forall k :: k in toDelete ==> exists j :: 0 <= j < i && items[j].key == k && bundle in items[j].value.bundleNames
        invariant forall j :: 0 <= j < i && bundle in items[j].value.bundleNames ==> items[j].key in toDelete
      {
        if bundle in items[i].value.bundleNames {
          toDelete := toDelete + [items[i].key];
        }
      }
      for i := 0 to |toDelete|
        invariant items == DeleteAll(old(items), toDelete[..i])
      {
        assert toDelete[..i + 1][..i] == toDelete[..i];
        items := Delete(items, toDelete[i]);
      }
      assert toDelete[..|toDelete|] == toDelete;
      DeleteAllIsDropFor(old(items), toDelete, bundle);
    }
  }

  function DeleteAll(items: seq<Item>, keys: seq<string>): seq<Item> {
    if keys == [] then items else Delete(DeleteAll(items, keys[..|keys| - 1]), keys[|keys| - 1])
  }

  lemma {:induction false} DeleteCons(items: seq<Item>, keys: seq<string>)
    requires items != []
    ensures DeleteAll(items, keys) == (if items[0].key in keys then [] else [items[0]]) + DeleteAll(items[1..], keys)
  {
    if keys != [] {
      DeleteCons(items, keys[..|keys| - 1]);
      var rest := DeleteAll(items[1..], keys[..|keys| - 1]);
      assert ([items[0]] + rest)[1..] == rest && [] + rest == rest;
    }
  }

  lemma {:induction false} DeleteAllEmpty(keys: seq<string>)
    ensures DeleteAll([], keys) == []
  {
    if keys != [] {
      DeleteAllEmpty(keys[..|keys| - 1]);
    }
  }

  /** Deleting exactly the keys of the affected items drops exactly those items. */
  lemma {:induction false} DeleteAllIsDropFor(items: seq<Item>, keys: seq<string>, bundle: string)
    requires forall x :: x in items ==> (x.key in keys <==> bundle in x.value.bundleNames)
    ensures DeleteAll(items, keys) == DropFor(items, bundle)
  {
    if items == [] {
      DeleteAllEmpty(keys);
    } else {
      assert forall x :: x in items[1..] ==> x in items;
      DeleteAllIsDropFor(items[1..], keys, bundle);
      DeleteCons(items, keys);
      assert items[0] in items;
    }
  }
}
