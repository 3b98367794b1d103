/**
 Least-recently-used order: a queue of distinct keys, oldest first, from which a used key moves to the end and of which
 only the last few are kept. Both caches keep their keys in this order.
 */
module RecencyOrder {

  /** `retain(|k| k != key)`. */
  function Without(s: seq<string>, key: string): seq<string> {
    if s == [] then [] else (if s[0] == key then [] else [s[0]]) + Without(s[1..], key)
  }

  ghost predicate Distinct(s: seq<string>) {
    s == [] || (s[0] !in s[1..] && Distinct(s[1..]))
  }

  function Keys(s: seq<string>): set<string> {
    set k | k in s
  }

  lemma {:induction false} WithoutMembers(s: seq<string>, key: string, k: string)
    ensures k in Without(s, key) <==> k in s && k != key
  {
    if s != [] {
      WithoutMembers(s[1..], key, k);
    }
  }

  lemma WithoutKeys(s: seq<string>, key: string)
    ensures Keys(Without(s, key)) == Keys(s) - {key}
  {
    forall k
      ensures k in Without(s, key) <==> k in s && k != key
    {
      WithoutMembers(s, key, k);
    }
  }

  lemma {:induction false} WithoutAbsent(s: seq<string>, key: string)
    requires key !in s
    ensures Without(s, key) == s
  {
    if s != [] {
      WithoutAbsent(s[1..], key);
    }
  }

  lemma {:induction false} WithoutDistinct(s: seq<string>, key: string)
    requires Distinct(s)
    ensures Distinct(Without(s, key)) && |Without(s, key)| == if key in s then |s| - 1 else |s|
  {
    if s != [] {
      WithoutDistinct(s[1..], key);
      WithoutMembers(s[1..], key, s[0]);
      var rest := Without(s[1..], key);
      assert ([s[0]] + rest)[1..] == rest && [] + rest == rest;
    }
  }

  lemma {:induction false} DistinctAppend(s: seq<string>, key: string)
    requires Distinct(s) && key !in s
    ensures Distinct(s + [key]) && Keys(s + [key]) == Keys(s) + {key}
  {
    if s != [] {
      DistinctAppend(s[1..], key);
      assert (s + [key])[1..] == s[1..] + [key];
    }
  }

  lemma {:induction false} DistinctCount(s: seq<string>)
    requires Distinct(s)
    ensures |Keys(s)| == |s|
  {
    if s != [] {
      DistinctCount(s[1..]);
      assert Keys(s) == {s[0]} + Keys(s[1..]);
    }
  }

  function LastN(s: seq<string>, n: nat): seq<string> {
    if |s| <= n then s else s[|s| - n..]
  }

  lemma LastNOfLonger(front: seq<string>, back: seq<string>, n: nat)
    requires |back| >= n
    ensures LastN(front + back, n) == LastN(back, n)
  {
    var all := front + back;
    assert all[|all| - n..] == back[|back| - n..];
  }

  lemma LastNOfRest(s: seq<string>, n: nat)
    requires |s| > n
    ensures LastN(s[1..], n) == LastN(s, n)
  {
    assert s == s[..1] + s[1..];
    LastNOfLonger(s[..1], s[1..], n);
    assert |s[1..]| == n ==> s[1..] == s[|s| - n..];
  }

  /** Distinct keys in the order of their last use. */
  function Recency(uses: seq<string>): seq<string> {
    if uses == [] then [] else Without(Recency(uses[..|uses| - 1]), uses[|uses| - 1]) + [uses[|uses| - 1]]
  }

  /** The distinct keys used after the last use of `key`. */
  function UsedSince(uses: seq<string>, key: string): set<string> {
    if uses == [] || uses[|uses| - 1] == key then {}
    else UsedSince(uses[..|uses| - 1], key) + {uses[|uses| - 1]}
  }

  lemma {:induction false} WithoutAppend(a: seq<string>, b: seq<string>, key: string)
    ensures Without(a + b, key) == Without(a, key) + Without(b, key)
  {
    if a == [] {
      assert a + b == b;
    } else {
      WithoutAppend(a[1..], b, key);
      assert (a + b)[1..] == a[1..] + b;
      var x, y := Without(a[1..], key), Without(b, key);
      assert [a[0]] + (x + y) == ([a[0]] + x) + y && [] + (x + y) == ([] + x) + y;
    }
  }

  /** Using a key that lies in the kept part, or not, commutes with keeping only the last keys. */
  lemma UseLastCut(a: seq<string>, b: seq<string>, key: string)
    requires Distinct(b)
    ensures LastN(Without(b, key) + [key], |b|) == LastN(Without(a + b, key) + [key], |b|)
  {
    var kept := Without(b, key) + [key];
    WithoutDistinct(b, key);
    WithoutAppend(a, b, key);
    assert Without(a + b, key) + [key] == Without(a, key) + kept;
    LastNOfLonger(Without(a, key), kept, |b|);
  }

  /** Using a key commutes with keeping only the last keys. */
  lemma UseLast(r: seq<string>, key: string, n: nat)
    requires Distinct(LastN(r, n))
    ensures LastN(Without(LastN(r, n), key) + [key], n) == LastN(Without(r, key) + [key], n)
  {
    if |r| > n {
      var a, b := r[..|r| - n], r[|r| - n..];
      assert r == a + b && |b| == n;
      UseLastCut(a, b, key);
    }
  }

  lemma {:induction false} RecencyDistinct(uses: seq<string>)
    ensures Distinct(Recency(uses)) && Keys(Recency(uses)) == Keys(uses)
  {
    if uses != [] {
      var init, last := uses[..|uses| - 1], uses[|uses| - 1];
      RecencyDistinct(init);
      WithoutDistinct(Recency(init), last);
      WithoutKeys(Recency(init), last);
      assert last !in Keys(Without(Recency(init), last));
      DistinctAppend(Without(Recency(init), last), last);
      assert uses == init + [last];
    }
  }

  /** The keys that come after `key` in `s`. */
  function After(s: seq<string>, key: string): set<string> {
    if s == [] then {} else if s[0] == key then Keys(s[1..]) else After(s[1..], key)
  }

  lemma {:induction false} AfterUse(s: seq<string>, used: string, key: string)
    requires key in s && key != used
    ensures After(Without(s, used) + [used], key) == After(s, key) + {used}
  {
    var w := Without(s, used) + [used];
    assert s == [s[0]] + s[1..];
    if s[0] == key {
      assert w[1..] == Without(s[1..], used) + [used];
      WithoutKeys(s[1..], used);
      assert Keys(w[1..]) == Keys(Without(s[1..], used)) + {used};
    } else {
      AfterUse(s[1..], used, key);
      if s[0] == used {
        assert w == Without(s[1..], used) + [used];
      } else {
        assert w[1..] == Without(s[1..], used) + [used];
      }
    }
  }

  lemma {:induction false} AfterLastElement(s: seq<string>, key: string)
    requires key !in s
    ensures After(s + [key], key) == {}
  {
    if s != [] {
      AfterLastElement(s[1..], key);
      assert (s + [key])[1..] == s[1..] + [key];
    }
  }

  lemma {:induction false} AfterIsUsedSince(uses: seq<string>, key: string)
    requires key in uses
    ensures After(Recency(uses), key) == UsedSince(uses, key)
  {
    var init, last := uses[..|uses| - 1], uses[|uses| - 1];
    assert uses == init + [last];
    if last == key {
      WithoutMembers(Recency(init), key, key);
      AfterLastElement(Without(Recency(init), key), key);
    } else {
      AfterIsUsedSince(init, key);
      RecencyDistinct(init);
      assert key in Keys(Recency(init));
      AfterUse(Recency(init), last, key);
    }
  }

  lemma {:induction false} InLastIffFewAfter(s: seq<string>, key: string, n: nat)
    requires Distinct(s) && key in s
    ensures key in LastN(s, n) <==> |After(s, key)| < n
  {
    assert s == [s[0]] + s[1..];
    DistinctCount(s[1..]);
    if s[0] == key {
      assert key !in s[1..];
    } else {
      InLastIffFewAfter(s[1..], key, n);
      if |s| <= n {
        AfterBound(s[1..], key);
      }
    }
  }

  lemma {:induction false} AfterBound(s: seq<string>, key: string)
    ensures After(s, key) <= Keys(s) && |After(s, key)| <= |s|
  {
    if s != [] {
      AfterBound(s[1..], key);
      KeysBound(s[1..]);
    }
  }

  lemma {:induction false} KeysBound(s: seq<string>)
    ensures |Keys(s)| <= |s|
  {
    if s != [] {
      KeysBound(s[1..]);
      assert Keys(s) == {s[0]} + Keys(s[1..]);
    }
  }

  lemma LastNDistinct(s: seq<string>, n: nat)
    requires Distinct(s)
    ensures Distinct(LastN(s, n))
  {
    if |s| > n {
      SuffixDistinct(s, |s| - n);
    }
  }

  lemma {:induction false} SuffixDistinct(s: seq<string>, k: nat)
    requires Distinct(s) && k <= |s|
    ensures Distinct(s[k..])
  {
    if k > 0 {
      SuffixDistinct(s[1..], k - 1);
      assert s[1..][k - 1..] == s[k..];
    } else {
      assert s[k..] == s;
    }
  }

  /** A key is among the last of the recency order exactly if it was used and few others were since. */
  lemma InRecentIffFew(uses: seq<string>, key: string, n: nat)
    ensures key in LastN(Recency(uses), n) <==> key in uses && |UsedSince(uses, key)| < n
  {
    RecencyDistinct(uses);
    assert key in Recency(uses) <==> key in Keys(Recency(uses));
    assert key in uses <==> key in Keys(uses);
    if key in uses {
      AfterIsUsedSince(uses, key);
      InLastIffFewAfter(Recency(uses), key, n);
    }
  }
}
