/**
 The passport cache (s1/scope-evaluator-runtime/src/cache.rs): a map of entries and a queue of keys, least recently
 used first, with a capacity and a time to live. Clock readings are parameters and need not be ordered: an
 instant before the caching instant counts as no time elapsed.
 */
module PassportCache {
  import opened Wrappers
  import opened RecencyOrder
  import opened ScopeTypes

  datatype Cached = Cached(passport: Passport, at: int)

  datatype Cache = Cache(entries: map<string, Cached>, lru: seq<string>)

  datatype Config = Config(maxEntries: nat, ttl: nat)

  const EMPTY := Cache(map[], [])

  function Elapsed(at: int, now: int): nat {
    if now > at then now - at else 0
  }

  function Remove(c: Cache, key: string): Cache {
    if key in c.entries then Cache(c.entries - {key}, Without(c.lru, key)) else c
  }

  function Touch(c: Cache, key: string): Cache {
    c.(lru := Without(c.lru, key) + [key])
  }

  /** Drop the oldest keys until the capacity is respected or no key is left. */
  function Evict(c: Cache, max: nat): Cache
    decreases |c.lru|
  {
    if |c.entries| > max && c.lru != [] then Evict(Cache(c.entries - {c.lru[0]}, c.lru[1..]), max) else c
  }

  datatype Op =
    | Get(key: string, now: int)
    | Insert(key: string, passport: Passport, now: int)
    | Invalidate(key: string)

  predicate Hits(cfg: Config, c: Cache, key: string, now: int) {
    key in c.entries && Elapsed(c.entries[key].at, now) <= cfg.ttl
  }

  function Apply(cfg: Config, c: Cache, op: Op): Cache {
    match op
    case Get(key, now) =>
      if key !in c.entries then c
      else if Hits(cfg, c, key, now) then Touch(c, key)
      else Remove(c, key)
    case Insert(key, passport, now) =>
      var removed := Remove(c, key);
      Evict(Cache(removed.entries[key := Cached(passport, now)], removed.lru + [key]), cfg.maxEntries)
    case Invalidate(key) => Remove(c, key)
  }

  function Run(cfg: Config, ops: seq<Op>): Cache {
    if ops == [] then EMPTY else Apply(cfg, Run(cfg, ops[..|ops| - 1]), ops[|ops| - 1])
  }

  /******* The two structures hold the same keys *******/

  ghost predicate Coherent(c: Cache) {
    c.entries.Keys == Keys(c.lru) && Distinct(c.lru)
  }

  lemma CoherentCount(c: Cache)
    requires Coherent(c)
    ensures |c.entries| == |c.lru|
  {
    DistinctCount(c.lru);
    assert |c.entries| == |c.entries.Keys|;
  }

  lemma RemoveCoherent(c: Cache, key: string)
    requires Coherent(c)
    ensures Coherent(Remove(c, key)) && key !in Remove(c, key).entries && |Remove(c, key).lru| <= |c.lru|
    ensures Remove(c, key).lru == Without(c.lru, key)
  {
    WithoutDistinct(c.lru, key);
    WithoutKeys(c.lru, key);
    if key !in c.entries {
      assert key !in Keys(c.lru);
      WithoutAbsent(c.lru, key);
    }
  }

  lemma DropOldest(c: Cache)
    requires Coherent(c) && c.lru != []
    ensures Coherent(Cache(c.entries - {c.lru[0]}, c.lru[1..]))
  {
    assert Keys(c.lru) == {c.lru[0]} + Keys(c.lru[1..]);
    assert c.lru[0] !in Keys(c.lru[1..]);
  }

  /** Eviction keeps the most recent keys. */
  lemma {:induction false} EvictKeepsLast(c: Cache, max: nat)
    requires Coherent(c)
    ensures Coherent(Evict(c, max)) && Evict(c, max).lru == LastN(c.lru, max)
    ensures forall k :: k in Evict(c, max).entries ==> k in c.entries && Evict(c, max).entries[k] == c.entries[k]
    decreases |c.lru|
  {
    CoherentCount(c);
    if |c.lru| > max {
      var rest := Cache(c.entries - {c.lru[0]}, c.lru[1..]);
      DropOldest(c);
      EvictKeepsLast(rest, max);
      LastNOfRest(c.lru, max);
      assert Evict(c, max) == Evict(rest, max);
    }
  }

  /** What an insertion leaves in the queue. */
  lemma InsertQueue(cfg: Config, c: Cache, key: string, passport: Passport, now: int)
    requires Coherent(c)
    ensures var c' := Apply(cfg, c, Insert(key, passport, now));
      && Coherent(c') && c'.lru == LastN(Without(c.lru, key) + [key], cfg.maxEntries)
      && forall k :: k in c'.entries ==>
           if k == key then c'.entries[k] == Cached(passport, now) else k in c.entries && c'.entries[k] == c.entries[k]
  {
    RemoveCoherent(c, key);
    var removed := Remove(c, key);
    var full := Cache(removed.entries[key := Cached(passport, now)], removed.lru + [key]);
    assert key !in Keys(removed.lru);
    DistinctAppend(removed.lru, key);
    EvictKeepsLast(full, cfg.maxEntries);
  }

  lemma TouchCoherent(c: Cache, key: string)
    requires Coherent(c) && key in c.entries
    ensures Coherent(Touch(c, key)) && |Touch(c, key).lru| == |c.lru|
  {
    WithoutDistinct(c.lru, key);
    WithoutKeys(c.lru, key);
    assert key in Keys(c.lru) && key !in Keys(Without(c.lru, key));
    DistinctAppend(Without(c.lru, key), key);
  }

  /** After every sequence of operations the map and the queue hold the same keys, once each, within the capacity. */
  lemma {:induction false} RunCoherent(cfg: Config, ops: seq<Op>)
    ensures Coherent(Run(cfg, ops)) && |Run(cfg, ops).lru| <= cfg.maxEntries
    ensures |Run(cfg, ops).entries| <= cfg.maxEntries
  {
    if ops != [] {
      RunCoherent(cfg, ops[..|ops| - 1]);
      var c, op := Run(cfg, ops[..|ops| - 1]), ops[|ops| - 1];
      RemoveCoherent(c, op.key);
      if op.Insert? {
        InsertQueue(cfg, c, op.key, op.passport, op.now);
      } else if op.Get? && Hits(cfg, c, op.key, op.now) {
        TouchCoherent(c, op.key);
      }
    }
    CoherentCount(Run(cfg, ops));
  }

  /******* Which keys are present: the LRU stack law *******/

  /** No invalidation, and no lookup finds an expired entry. */
  ghost predicate Quiet(cfg: Config, ops: seq<Op>) {
    forall i {:trigger QuietAt(cfg, ops, i)} :: 0 <= i < |ops| ==> QuietAt(cfg, ops, i)
  }

  ghost predicate QuietAt(cfg: Config, ops: seq<Op>, i: nat)
    requires i < |ops|
  {
    var c := Run(cfg, ops[..i]);
    match ops[i]
    case Get(key, now) => key in c.entries ==> Hits(cfg, c, key, now)
    case Insert(_, _, _) => true
    case Invalidate(_) => false
  }

  /** The keys inserted or hit, in order. */
  function Uses(cfg: Config, ops: seq<Op>): seq<string> {
    if ops == [] then []
    else
      var init, op := ops[..|ops| - 1], ops[|ops| - 1];
      var used := op.Insert? || (op.Get? && Hits(cfg, Run(cfg, init), op.key, op.now));
      Uses(cfg, init) + if used then [op.key] else []
  }

  /** In a quiet run the queue is the most recent part of the recency order. */
  lemma {:induction false} QueueIsRecency(cfg: Config, ops: seq<Op>)
    requires Quiet(cfg, ops)
    ensures Run(cfg, ops).lru == LastN(Recency(Uses(cfg, ops)), cfg.maxEntries)
  {
    if ops != [] {
      var init, op := ops[..|ops| - 1], ops[|ops| - 1];
      assert Quiet(cfg, init) by {
        forall i | 0 <= i < |init|
          ensures QuietAt(cfg, init, i)
        {
          assert QuietAt(cfg, ops, i) && init[..i] == ops[..i];
        }
      }
      QueueIsRecency(cfg, init);
      assert QuietAt(cfg, ops, |ops| - 1);
      QueueStep(cfg, init, op);
    }
  }

  lemma QueueStep(cfg: Config, init: seq<Op>, op: Op)
    requires Run(cfg, init).lru == LastN(Recency(Uses(cfg, init)), cfg.maxEntries)
    requires op.Insert? || (op.Get? && (op.key in Run(cfg, init).entries ==> Hits(cfg, Run(cfg, init), op.key, op.now)))
    ensures Apply(cfg, Run(cfg, init), op).lru == LastN(Recency(Uses(cfg, init + [op])), cfg.maxEntries)
  {
    var c, uses := Run(cfg, init), Uses(cfg, init);
    assert (init + [op])[..|init + [op]| - 1] == init;
    RunCoherent(cfg, init);
    UseLast(Recency(uses), op.key, cfg.maxEntries);
    var used := uses + [op.key];
    assert used[..|used| - 1] == uses && used[|used| - 1] == op.key;
    assert uses + [] == uses;
    if op.Insert? {
      InsertQueue(cfg, c, op.key, op.passport, op.now);
    } else if op.key in c.entries {
      TouchCoherent(c, op.key);
    }
  }

  /**
   Without expiry or invalidation, a key is present exactly if it was used and fewer than `maxEntries` distinct
   other keys were inserted or hit since its last use.
   */
  lemma PresentIffRecent(cfg: Config, ops: seq<Op>, key: string)
    requires Quiet(cfg, ops)
    ensures key in Run(cfg, ops).entries <==>
      (key in Uses(cfg, ops) && |UsedSince(Uses(cfg, ops), key)| < cfg.maxEntries)
  {
    var uses := Uses(cfg, ops);
    QueueIsRecency(cfg, ops);
    RunCoherent(cfg, ops);
    assert key in Run(cfg, ops).entries <==> key in Keys(Run(cfg, ops).lru);
    InRecentIffFew(uses, key, cfg.maxEntries);
  }

  /******* Time to live *******/

  /** The last insertion of `key`, unless it was invalidated since. */
  function LastInsert(ops: seq<Op>, key: string): Option<Cached> {
    if ops == [] then None
    else
      var op := ops[|ops| - 1];
      if op.Insert? && op.key == key then Some(Cached(op.passport, op.now))
      else if op.Invalidate? && op.key == key then None
      else LastInsert(ops[..|ops| - 1], key)
  }

  lemma {:induction false} EntriesAreLastInserts(cfg: Config, ops: seq<Op>, key: string)
    requires key in Run(cfg, ops).entries
    ensures LastInsert(ops, key) == Some(Run(cfg, ops).entries[key])
  {
    var init, op := ops[..|ops| - 1], ops[|ops| - 1];
    var c := Run(cfg, init);
    RunCoherent(cfg, init);
    if op.Insert? {
      InsertQueue(cfg, c, op.key, op.passport, op.now);
    }
    if !(op.Insert? && op.key == key) {
      EntriesAreLastInserts(cfg, init, key);
    }
  }

  /** However often it was hit before, an answer is the last inserted passport, within its time to live from insertion. */
  lemma ServedWithinTtl(cfg: Config, ops: seq<Op>, key: string, now: int)
    requires Hits(cfg, Run(cfg, ops), key, now)
    ensures LastInsert(ops, key) == Some(Run(cfg, ops).entries[key])
    ensures now - LastInsert(ops, key).value.at <= cfg.ttl
  {
    EntriesAreLastInserts(cfg, ops, key);
  }

  /**
   A present key is served exactly up to its time to live from insertion. Then a lookup leaves all entries as they are; a
   later one removes the key from both structures and nothing else.
   */
  lemma LookupExact(cfg: Config, ops: seq<Op>, key: string, now: int)
    requires key in Run(cfg, ops).entries
    ensures var c, c' := Run(cfg, ops), Run(cfg, ops + [Get(key, now)]);
      && LastInsert(ops, key) == Some(c.entries[key])
      && if now - c.entries[key].at <= cfg.ttl
         then Hits(cfg, c, key, now) && c'.entries == c.entries
         else !Hits(cfg, c, key, now) && c'.entries == c.entries - {key} && key !in c'.lru
  {
    RunAppend(cfg, ops, Get(key, now));
    EntriesAreLastInserts(cfg, ops, key);
    WithoutMembers(Run(cfg, ops).lru, key, key);
  }

  lemma RunAppend(cfg: Config, ops: seq<Op>, op: Op)
    ensures Run(cfg, ops + [op]) == Apply(cfg, Run(cfg, ops), op)
  {
    assert (ops + [op])[..|ops + [op]| - 1] == ops;
  }

  /** A lookup of an absent key changes nothing. */
  lemma MissExact(cfg: Config, ops: seq<Op>, key: string, now: int)
    requires key !in Run(cfg, ops).entries
    ensures !Hits(cfg, Run(cfg, ops), key, now) && Run(cfg, ops + [Get(key, now)]) == Run(cfg, ops)
  {
    RunAppend(cfg, ops, Get(key, now));
  }

  /** An invalidation removes the key from both structures, and only it. */
  lemma InvalidateExact(cfg: Config, ops: seq<Op>, key: string)
    ensures var c, c' := Run(cfg, ops), Run(cfg, ops + [Invalidate(key)]);
      && c'.entries == c.entries - {key}
      && forall k :: k in c'.lru <==> k in c.lru && k != key
  {
    RunAppend(cfg, ops, Invalidate(key));
    RunCoherent(cfg, ops);
    var c := Run(cfg, ops);
    if key !in c.entries {
      assert key !in Keys(c.lru);
      assert c.entries - {key} == c.entries;
    }
    forall k
      ensures k in Without(c.lru, key) <==> k in c.lru && k != key
    {
      WithoutMembers(c.lru, key, k);
    }
  }

  /** An insertion stores the passport with its instant, unless the capacity is zero, and alters no other entry it keeps. */
  lemma InsertExact(cfg: Config, ops: seq<Op>, key: string, passport: Passport, now: int)
    ensures var c, c' := Run(cfg, ops), Run(cfg, ops + [Insert(key, passport, now)]);
      && (cfg.maxEntries >= 1 ==> key in c'.entries && c'.entries[key] == Cached(passport, now) && c'.lru != [] && c'.lru[|c'.lru| - 1] == key)
      && (forall k :: k in c'.entries && k != key ==> k in c.entries && c'.entries[k] == c.entries[k])
  {
    var c := Run(cfg, ops);
    RunAppend(cfg, ops, Insert(key, passport, now));
    RunCoherent(cfg, ops);
    InsertQueue(cfg, c, key, passport, now);
    var c' := Run(cfg, ops + [Insert(key, passport, now)]);
    if cfg.maxEntries >= 1 {
      assert c'.lru[|c'.lru| - 1] == key && key in Keys(c'.lru);
    }
  }

  /******* The cache object *******/

  class LruPassportCache {
    const cfg: Config
    var entries: map<string, Cached>
    var lru: seq<string>

    function Contents(): Cache
      reads this
    {
      Cache(entries, lru)
    }

    constructor (cfg: Config)
      ensures this.cfg == cfg && Contents() == EMPTY
    {
      this.cfg, entries, lru := cfg, map[], [];
    }

    method Lookup(key: string, now: int) returns (r: Option<Passport>)
      modifies this
      ensures r == if Hits(cfg, old(Contents()), key, now) then Some(old(entries)[key].passport) else None
      ensures Contents() == Apply(cfg, old(Contents()), Get(key, now))
    {
      if key !in entries {
        return None;
      }
      var entry := entries[key];
      if Elapsed(entry.at, now) > cfg.ttl {
        var _ := Drop(key);
        return None;
      }
      lru := Without(lru, key) + [key];
      r := Some(entry.passport);
    }

    method Put(key: string, passport: Passport, now: int)
      modifies this
      ensures Contents() == Apply(cfg, old(Contents()), Insert(key, passport, now))
    {
      if key in entries {
        var _ := Drop(key);
      }
      entries := entries[key := Cached(passport, now)];
      lru := lru + [key];
      ghost var full := Contents();
      while |entries| > cfg.maxEntries
        invariant Evict(full, cfg.maxEntries) == Evict(Contents(), cfg.maxEntries)
        decreases |lru|
      {
        if lru == [] {
          break;
        }
        var oldest := lru[0];
        lru := lru[1..];
        entries := entries - {oldest};
      }
    }

    method InvalidateKey(key: string) returns (removed: bool)
      modifies this
      ensures removed == (key in old(entries))
      ensures Contents() == Apply(cfg, old(Contents()), Invalidate(key))
    {
      removed := Drop(key);
    }

    method Drop(key: string) returns (removed: bool)
      modifies this
      ensures removed == (key in old(entries))
      ensures Contents() == Remove(old(Contents()), key)
    {
      removed := key in entries;
      if removed {
        entries := entries - {key};
        lru := Without(lru, key);
      }
    }
  }
}
