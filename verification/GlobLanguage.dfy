/**
 The declarative meaning of resource patterns: `*` is any run inside a segment, `?` one character, a bare `**`
 segment zero or more segments, and bracket characters match nothing.
 */
module GlobLanguage {

  predicate Bracket(c: char) {
    c == '[' || c == ']' || c == '{' || c == '}'
  }

  predicate HasBracket(p: string) {
    exists i :: 0 <= i < |p| && Bracket(p[i])
  }

  ghost predicate MatchesSegment(p: string, t: string) {
    if p == "" then t == ""
    else if p[0] == '*' then exists k :: 0 <= k <= |t| && MatchesSegment(p[1..], t[k..])
    else t != "" && (p[0] == '?' || (!Bracket(p[0]) && p[0] == t[0])) && MatchesSegment(p[1..], t[1..])
  }

  ghost predicate Matches(ps: seq<string>, rs: seq<string>) {
    if ps == [] then rs == []
    else if ps[0] == "**" then exists k :: 0 <= k <= |rs| && Matches(ps[1..], rs[k..])
    else rs != [] && MatchesSegment(ps[0], rs[0]) && Matches(ps[1..], rs[1..])
  }

  /******* Trailing stars *******/

  predicate AllStars(p: string) {
    forall i :: 0 <= i < |p| ==> p[i] == '*'
  }

  predicate EndsInTwoStars(p: string) {
    |p| >= 2 && p[|p| - 1] == '*' && p[|p| - 2] == '*'
  }

  /** The segment with a trailing run of two or more stars replaced by `?*`. */
  function Strict(p: string): string {
    if p == "" then ""
    else if |p| >= 2 && AllStars(p) then "?*"
    else [p[0]] + Strict(p[1..])
  }

  /** Every segment but a bare `**` made strict. */
  function StrictAll(ps: seq<string>): (r: seq<string>)
    ensures |r| == |ps|
  {
    if ps == [] then [] else [if ps[0] == "**" then ps[0] else Strict(ps[0])] + StrictAll(ps[1..])
  }

  lemma {:induction false} StrictSame(p: string)
    requires !EndsInTwoStars(p)
    ensures Strict(p) == p
  {
    if p != "" {
      StrictSame(p[1..]);
    }
  }

  lemma StrictShort(p: string)
    requires |Strict(p)| <= 1
    ensures Strict(p) == p
  {
    if p != "" {
      assert |Strict(p[1..])| == 0;
      assert p[1..] == "";
    }
  }

  /** Strictness never produces a bare `**`. */
  lemma StrictNotBare(p: string)
    ensures Strict(p) != "**"
  {
    if |p| >= 2 && !AllStars(p) && Strict(p) == "**" {
      assert Strict(p)[0] == p[0] && Strict(p)[1..] == Strict(p[1..]) == "*";
      StrictShort(p[1..]);
    } else if |p| == 1 {
      assert Strict(p[1..]) == "";
    }
  }

  lemma {:induction false} StarsMatchAll(p: string, t: string)
    requires AllStars(p) && p != ""
    ensures MatchesSegment(p, t)
  {
    assert t[|t|..] == "";
    if |p| > 1 {
      StarsMatchAll(p[1..], t);
      assert t[0..] == t;
    } else {
      assert p[1..] == "" && MatchesSegment(p[1..], t[|t|..]);
    }
  }

  lemma {:induction false} NonStarNeedsText(p: string)
    requires !AllStars(p)
    ensures !MatchesSegment(p, "")
  {
    if p[0] == '*' {
      NonStarNeedsText(p[1..]);
      assert forall k :: 0 <= k <= |""| ==> ""[k..] == "";
    }
  }

  /** Making a segment strict only ever takes texts away. */
  lemma {:induction false} StrictOnlyRejects(p: string, t: string)
    requires MatchesSegment(Strict(p), t)
    ensures MatchesSegment(p, t)
    decreases |p|
  {
    if p == "" {
    } else if |p| >= 2 && AllStars(p) {
      StarsMatchAll(p, t);
    } else {
      assert Strict(p)[1..] == Strict(p[1..]);
      if p[0] == '*' {
        var k :| 0 <= k <= |t| && MatchesSegment(Strict(p)[1..], t[k..]);
        StrictOnlyRejects(p[1..], t[k..]);
      } else {
        StrictOnlyRejects(p[1..], t[1..]);
      }
    }
  }

  lemma {:induction false} StrictAllOnlyRejects(ps: seq<string>, rs: seq<string>)
    requires Matches(StrictAll(ps), rs)
    ensures Matches(ps, rs)
    decreases |ps|
  {
    if ps != [] {
      assert StrictAll(ps)[1..] == StrictAll(ps[1..]);
      if ps[0] == "**" {
        var k :| 0 <= k <= |rs| && Matches(StrictAll(ps)[1..], rs[k..]);
        StrictAllOnlyRejects(ps[1..], rs[k..]);
      } else {
        StrictNotBare(ps[0]);
        StrictOnlyRejects(ps[0], rs[0]);
        StrictAllOnlyRejects(ps[1..], rs[1..]);
      }
    }
  }

  lemma {:induction false} StrictAllSame(ps: seq<string>)
    requires forall p :: p in ps && p != "**" ==> !EndsInTwoStars(p)
    ensures StrictAll(ps) == ps
  {
    if ps != [] {
      StrictAllSame(ps[1..]);
      if ps[0] != "**" {
        StrictSame(ps[0]);
      }
    }
  }

  /******* Exactly which segments change their meaning *******/

  /** A shortest text a bracket-free segment matches: its own characters, stars dropped. */
  function Shortest(p: string): string {
    if p == "" then ""
    else if p[0] == '*' then Shortest(p[1..])
    else [if p[0] == '?' then 'a' else p[0]] + Shortest(p[1..])
  }

  lemma {:induction false} ShortestMatches(p: string)
    requires !HasBracket(p)
    ensures MatchesSegment(p, Shortest(p))
  {
    if p != "" {
      assert !HasBracket(p[1..]) && !Bracket(p[0]);
      ShortestMatches(p[1..]);
      var t := Shortest(p);
      if p[0] == '*' {
        assert t[0..] == t;
      } else {
        assert t[1..] == Shortest(p[1..]);
      }
    }
  }

  lemma {:induction false} ShortestIsShortest(p: string, t: string)
    requires MatchesSegment(p, t)
    ensures |Shortest(p)| <= |t|
    decreases |p|
  {
    if p != "" {
      if p[0] == '*' {
        var k :| 0 <= k <= |t| && MatchesSegment(p[1..], t[k..]);
        ShortestIsShortest(p[1..], t[k..]);
      } else {
        ShortestIsShortest(p[1..], t[1..]);
      }
    }
  }

  lemma {:induction false} AllStarsShortest(p: string)
    requires AllStars(p)
    ensures Shortest(p) == ""
  {
    if p != "" {
      AllStarsShortest(p[1..]);
    }
  }

  lemma {:induction false} StrictIsLonger(p: string)
    requires EndsInTwoStars(p)
    ensures |Shortest(Strict(p))| == |Shortest(p)| + 1
  {
    if AllStars(p) {
      AllStarsShortest(p);
      assert Strict(p)[1..] == "*" && "*"[1..] == "";
    } else {
      assert |p| > 2;
      StrictIsLonger(p[1..]);
      assert Strict(p)[1..] == Strict(p[1..]);
    }
  }

  ghost predicate StrictAgrees(p: string, t: string) {
    MatchesSegment(Strict(p), t) <==> MatchesSegment(p, t)
  }

  /** A bracket-free segment keeps its meaning when made strict exactly if it does not end in two stars. */
  lemma StrictExactlyWhen(p: string)
    requires !HasBracket(p)
    ensures (forall t :: StrictAgrees(p, t)) <==> !EndsInTwoStars(p)
  {
    if EndsInTwoStars(p) {
      ShortestMatches(p);
      StrictIsLonger(p);
      if MatchesSegment(Strict(p), Shortest(p)) {
        ShortestIsShortest(Strict(p), Shortest(p));
      }
      assert !StrictAgrees(p, Shortest(p));
    } else {
      StrictSame(p);
    }
  }

  /******* Exactly which patterns change their meaning *******/

  /** A shortest resource a bracket-free pattern matches: the shortest texts of its segments, bare `**` segments dropped. */
  function Texts(ps: seq<string>): seq<string> {
    if ps == [] then []
    else if ps[0] == "**" then Texts(ps[1..])
    else [Shortest(ps[0])] + Texts(ps[1..])
  }

  function Total(rs: seq<string>): nat {
    if rs == [] then 0 else |rs[0]| + Total(rs[1..])
  }

  ghost predicate BracketFree(ps: seq<string>) {
    forall p :: p in ps ==> !HasBracket(p)
  }

  lemma {:induction false} TextsMatch(ps: seq<string>)
    requires BracketFree(ps)
    ensures Matches(ps, Texts(ps))
  {
    if ps != [] {
      TextsMatch(ps[1..]);
      if ps[0] == "**" {
        assert Texts(ps)[0..] == Texts(ps);
      } else {
        ShortestMatches(ps[0]);
        assert Texts(ps)[1..] == Texts(ps[1..]);
      }
    }
  }

  lemma {:induction false} TotalSuffix(rs: seq<string>, k: nat)
    requires k <= |rs|
    ensures Total(rs[k..]) <= Total(rs)
  {
    if k > 0 {
      TotalSuffix(rs[1..], k - 1);
      assert rs[1..][k - 1..] == rs[k..];
    } else {
      assert rs[k..] == rs;
    }
  }

  /** No match is shorter than the shortest texts together. */
  lemma {:induction false} MatchTotal(ps: seq<string>, rs: seq<string>)
    requires Matches(ps, rs)
    ensures Total(Texts(ps)) <= Total(rs)
    decreases |ps|
  {
    if ps != [] {
      if ps[0] == "**" {
        var k :| 0 <= k <= |rs| && Matches(ps[1..], rs[k..]);
        MatchTotal(ps[1..], rs[k..]);
        TotalSuffix(rs, k);
      } else {
        ShortestIsShortest(ps[0], rs[0]);
        MatchTotal(ps[1..], rs[1..]);
        assert Texts(ps)[1..] == Texts(ps[1..]);
      }
    }
  }

  /** The segment reads differently when strict. */
  predicate Affected(p: string) {
    p != "**" && EndsInTwoStars(p)
  }

  lemma {:induction false} StrictTotal(ps: seq<string>)
    ensures Total(Texts(StrictAll(ps))) >= Total(Texts(ps)) + if exists p :: p in ps && Affected(p) then 1 else 0
  {
    if ps != [] {
      StrictTotal(ps[1..]);
      var qs := StrictAll(ps);
      assert qs[1..] == StrictAll(ps[1..]);
      assert forall p :: p in ps <==> p == ps[0] || p in ps[1..];
      if ps[0] != "**" {
        StrictNotBare(ps[0]);
        assert Texts(ps)[1..] == Texts(ps[1..]) && Texts(qs)[1..] == Texts(qs[1..]);
        if EndsInTwoStars(ps[0]) {
          StrictIsLonger(ps[0]);
        } else {
          StrictSame(ps[0]);
        }
      }
    }
  }

  /** A pattern whose one segment besides bare `**` matches the empty text also matches two empty segments. */
  lemma TwoEmptySegments(ps: seq<string>)
    requires BracketFree(ps) && Texts(ps) == [""] && |ps| >= 2
    ensures Matches(ps, ["", ""])
  {
    var rs := ["", ""];
    assert rs[1..] == [""] && [""][1..] == [];
    if ps[0] == "**" {
      TextsMatch(ps[1..]);
      assert Matches(ps[1..], rs[1..]);
    } else {
      ShortestMatches(ps[0]);
      assert Texts(ps[1..]) == Texts(ps)[1..] == [];
      assert ps[1..][0] == "**" && Texts(ps[1..][1..]) == [];
      TextsMatch(ps[1..][1..]);
      assert Matches(ps[1..][1..], [""][1..]);
    }
  }

  lemma {:induction false} BracketMatchesNothing(p: string, t: string)
    requires HasBracket(p)
    ensures !MatchesSegment(p, t)
    decreases |p|
  {
    var i :| 0 <= i < |p| && Bracket(p[i]);
    if i > 0 {
      assert p[1..][i - 1] == p[i];
      forall k | 0 <= k <= |t|
        ensures !MatchesSegment(p[1..], t[k..])
      {
        BracketMatchesNothing(p[1..], t[k..]);
      }
    }
  }

  lemma {:induction false} BracketPatternMatchesNothing(ps: seq<string>, rs: seq<string>)
    requires !BracketFree(ps)
    ensures !Matches(ps, rs)
    decreases |ps|
  {
    var p :| p in ps && HasBracket(p);
    if ps[0] == p && rs != [] {
      BracketMatchesNothing(p, rs[0]);
    }
    if p in ps[1..] {
      forall k | 0 <= k <= |rs|
        ensures !Matches(ps[1..], rs[k..])
      {
        BracketPatternMatchesNothing(ps[1..], rs[k..]);
      }
    }
  }
}
