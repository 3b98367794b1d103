/**
 The budgeted backtracking matcher (s1/scope-evaluator-runtime/src/glob_match.rs).

 `Segment`, `Scan`, `Star`, `Segments` and `Branch` are the recursive calls and loops of the matcher with the work
 counter passed along; the methods at the end are the matcher itself, with its loops. The `Free` functions are the
 same search without a counter: they return the work it takes. `calls` in an outcome is bookkeeping of the model.
 */
module GlobMatcher {
  import opened Strings
  import opened Wrappers
  import opened GlobLanguage

  datatype GlobError = InvalidPattern | PatternTooComplex

  const MAX_DOUBLE_STAR_DEPTH: nat := 48
  const MAX_GLOB_WORK: nat := 65_536

  type Answer = Result<bool, GlobError>

  /** An answer, the work left, and the number of matcher calls that got past their first tick. */
  datatype Outcome = Outcome(answer: Answer, work: nat, calls: nat)

  const EXHAUSTED := Outcome(Failure(PatternTooComplex), 0, 0)

  function After(calls: nat, o: Outcome): Outcome {
    o.(calls := calls + o.calls)
  }

  /******* The budgeted search *******/

  function Segment(p: string, t: string, work: nat): (r: Outcome)
    ensures r.work + r.calls <= work
    decreases |p|, 1, 0
  {
    if work == 0 then EXHAUSTED else After(1, Scan(p, t, work - 1))
  }

  function Scan(p: string, t: string, work: nat): (r: Outcome)
    ensures r.work + r.calls <= work
    decreases |p|, 0, 0
  {
    if p == "" then Outcome(Success(t == ""), work, 0)
    else if p[0] == '*' then Star(p[1..], t, work)
    else if p[0] == '?' then (if t == "" then Outcome(Success(false), work, 0) else Scan(p[1..], t[1..], work))
    else if Bracket(p[0]) then Outcome(Failure(InvalidPattern), work, 0)
    else if t == "" || t[0] != p[0] then Outcome(Success(false), work, 0)
    else Scan(p[1..], t[1..], work)
  }

  function Star(rest: string, t: string, work: nat): (r: Outcome)
    ensures r.work + r.calls <= work
    decreases |rest|, 2, |t|
  {
    if t == "" then Outcome(Success(rest == ""), work, 0)
    else if work == 0 then EXHAUSTED
    else
      var trial := Segment(rest, t, work - 1);
      if trial.answer != Success(false) then trial else After(trial.calls, Star(rest, t[1..], trial.work))
  }

  /** The matcher makes at most as many calls as its budget allows. */
  function Segments(ps: seq<string>, rs: seq<string>, depth: nat, work: nat): (r: Outcome)
    ensures r.work + r.calls <= work
    decreases |ps|, 0, 0
  {
    if work == 0 then EXHAUSTED
    else if ps == [] then Outcome(Success(rs == []), work - 1, 1)
    else if ps[0] == "**" then
      if depth >= MAX_DOUBLE_STAR_DEPTH then Outcome(Failure(PatternTooComplex), work - 1, 1)
      else if |ps| == 1 then Outcome(Success(true), work - 1, 1)
      else After(1, Branch(ps[1..], rs, 0, depth + 1, work - 1))
    else if rs == [] then Outcome(Success(false), work - 1, 1)
    else
      var first := After(1, Segment(ps[0], rs[0], work - 1));
      if first.answer != Success(true) then first else After(first.calls, Segments(ps[1..], rs[1..], depth, first.work))
  }

  /** The loop over the split points of a `**`, from `i` on. */
  function Branch(ps: seq<string>, rs: seq<string>, i: nat, depth: nat, work: nat): (r: Outcome)
    requires i <= |rs| + 1
    ensures r.work + r.calls <= work
    decreases |ps|, 1, |rs| + 1 - i
  {
    if i == |rs| + 1 then Outcome(Success(false), work, 0)
    else if work == 0 then EXHAUSTED
    else
      var trial := Segments(ps, rs[i..], depth, work - 1);
      if trial.answer != Success(false) then trial else After(trial.calls, Branch(ps, rs, i + 1, depth, trial.work))
  }

  /******* The same search without a budget *******/

  /** An answer and the work it takes. */
  datatype Cost = Cost(answer: Answer, work: nat)

  function Add(n: nat, c: Cost): Cost {
    Cost(c.answer, n + c.work)
  }

  function FreeSegment(p: string, t: string): Cost
    decreases |p|, 1, 0
  {
    Add(1, FreeScan(p, t))
  }

  function FreeScan(p: string, t: string): Cost
    decreases |p|, 0, 0
  {
    if p == "" then Cost(Success(t == ""), 0)
    else if p[0] == '*' then FreeStar(p[1..], t)
    else if p[0] == '?' then (if t == "" then Cost(Success(false), 0) else FreeScan(p[1..], t[1..]))
    else if Bracket(p[0]) then Cost(Failure(InvalidPattern), 0)
    else if t == "" || t[0] != p[0] then Cost(Success(false), 0)
    else FreeScan(p[1..], t[1..])
  }

  function FreeStar(rest: string, t: string): Cost
    decreases |rest|, 2, |t|
  {
    if t == "" then Cost(Success(rest == ""), 0)
    else
      var trial := Add(1, FreeSegment(rest, t));
      if trial.answer != Success(false) then trial else Add(trial.work, FreeStar(rest, t[1..]))
  }

  function FreeSegments(ps: seq<string>, rs: seq<string>, depth: nat): Cost
    decreases |ps|, 0, 0
  {
    if ps == [] then Cost(Success(rs == []), 1)
    else if ps[0] == "**" then
      if depth >= MAX_DOUBLE_STAR_DEPTH then Cost(Failure(PatternTooComplex), 1)
      else if |ps| == 1 then Cost(Success(true), 1)
      else Add(1, FreeBranch(ps[1..], rs, 0, depth + 1))
    else if rs == [] then Cost(Success(false), 1)
    else
      var first := Add(1, FreeSegment(ps[0], rs[0]));
      if first.answer != Success(true) then first else Add(first.work, FreeSegments(ps[1..], rs[1..], depth))
  }

  function FreeBranch(ps: seq<string>, rs: seq<string>, i: nat, depth: nat): Cost
    requires i <= |rs| + 1
    decreases |ps|, 1, |rs| + 1 - i
  {
    if i == |rs| + 1 then Cost(Success(false), 0)
    else
      var trial := Add(1, FreeSegments(ps, rs[i..], depth));
      if trial.answer != Success(false) then trial else Add(trial.work, FreeBranch(ps, rs, i + 1, depth))
  }

  /******* The budget only decides whether the search may finish *******/

  /** The outcome is the free search's if the budget covers it, else exhaustion with nothing left. */
  ghost predicate Charged(o: Outcome, c: Cost, work: nat) {
    if c.work <= work then o.answer == c.answer && o.work == work - c.work
    else o.answer == Failure(PatternTooComplex) && o.work == 0
  }

  lemma {:induction false} SegmentCharged(p: string, t: string, work: nat)
    ensures Charged(Segment(p, t, work), FreeSegment(p, t), work)
    decreases |p|, 1, 0
  {
    if work > 0 {
      ScanCharged(p, t, work - 1);
    }
  }

  lemma {:induction false} ScanCharged(p: string, t: string, work: nat)
    ensures Charged(Scan(p, t, work), FreeScan(p, t), work)
    decreases |p|, 0, 0
  {
    if p != "" {
      if p[0] == '*' {
        StarCharged(p[1..], t, work);
      } else if t != "" {
        ScanCharged(p[1..], t[1..], work);
      }
    }
  }

  lemma {:induction false} StarCharged(rest: string, t: string, work: nat)
    ensures Charged(Star(rest, t, work), FreeStar(rest, t), work)
    decreases |rest|, 2, |t|
  {
    if t != "" && work > 0 {
      SegmentCharged(rest, t, work - 1);
      StarCharged(rest, t[1..], Segment(rest, t, work - 1).work);
    }
  }

  /**
   Budget independence: with any budget the matcher answers what the unbudgeted search answers and uses the same work,
   if the budget covers that work; otherwise it fails closed.
   */
  lemma {:induction false} SegmentsCharged(ps: seq<string>, rs: seq<string>, depth: nat, work: nat)
    ensures Charged(Segments(ps, rs, depth, work), FreeSegments(ps, rs, depth), work)
    decreases |ps|, 0, 0
  {
    if work > 0 && ps != [] {
      if ps[0] == "**" {
        if depth < MAX_DOUBLE_STAR_DEPTH && |ps| > 1 {
          BranchCharged(ps[1..], rs, 0, depth + 1, work - 1);
        }
      } else if rs != [] {
        SegmentCharged(ps[0], rs[0], work - 1);
        SegmentsCharged(ps[1..], rs[1..], depth, Segment(ps[0], rs[0], work - 1).work);
      }
    }
  }

  lemma {:induction false} BranchCharged(ps: seq<string>, rs: seq<string>, i: nat, depth: nat, work: nat)
    requires i <= |rs| + 1
    ensures Charged(Branch(ps, rs, i, depth, work), FreeBranch(ps, rs, i, depth), work)
    decreases |ps|, 1, |rs| + 1 - i
  {
    if i <= |rs| && work > 0 {
      SegmentsCharged(ps, rs[i..], depth, work - 1);
      var trial := Segments(ps, rs[i..], depth, work - 1);
      if trial.answer == Success(false) {
        BranchCharged(ps, rs, i + 1, depth, trial.work);
      }
    }
  }

  /******* The language of the search *******/

  /** Some position of `t` before its end is one from which `rest` matches, in the strict reading. */
  ghost predicate MatchesLater(rest: string, t: string) {
    exists k :: 0 <= k < |t| && MatchesSegment(Strict(rest), t[k..])
  }

  lemma StarsMeaning(rest: string, t: string)
    requires rest != "" && AllStars(rest)
    ensures MatchesSegment(Strict("*" + rest), t) <==> MatchesLater(rest, t)
  {
    assert AllStars("*" + rest) && Strict("*" + rest) == "?*" && "?*"[1..] == "*" && t[0..] == t;
    if t != "" {
      StarsMatchAll("*", t[1..]);
      StarsMatchAll("*", t);
      assert Strict(rest) == "?*" || rest == "*";
      assert MatchesSegment(Strict(rest), t[0..]);
    }
  }

  lemma StarThenText(rest: string, t: string)
    requires !AllStars(rest)
    ensures MatchesSegment(Strict("*" + rest), t) <==> MatchesLater(rest, t)
  {
    var p := "*" + rest;
    assert p[1..] == rest && t[|t|..] == "";
    assert !AllStars(p) by {
      var i :| 0 <= i < |rest| && rest[i] != '*';
      assert p[i + 1] == rest[i];
    }
    assert Strict(p)[1..] == Strict(rest);
    StrictKeepsNonStar(rest);
    NonStarNeedsText(Strict(rest));
  }

  /** A star followed by `rest` in the strict reading: `rest` is empty, or it matches from some position before the end. */
  lemma StarMeaning(rest: string, t: string)
    ensures MatchesSegment(Strict("*" + rest), t) <==> rest == "" || MatchesLater(rest, t)
  {
    if rest == "" {
      assert "*" + rest == "*" && "*"[1..] == "";
      StarsMatchAll("*", t);
    } else if AllStars(rest) {
      StarsMeaning(rest, t);
    } else {
      StarThenText(rest, t);
    }
  }

  lemma {:induction false} StrictKeepsNonStar(p: string)
    requires !AllStars(p)
    ensures !AllStars(Strict(p))
  {
    if p[0] == '*' {
      assert !AllStars(p[1..]) by {
        var i :| 0 <= i < |p| && p[i] != '*';
        assert p[1..][i - 1] == p[i];
      }
      StrictKeepsNonStar(p[1..]);
      var q := Strict(p[1..]);
      var i :| 0 <= i < |q| && q[i] != '*';
      assert Strict(p)[i + 1] == q[i];
    } else {
      assert Strict(p)[0] == p[0];
    }
  }

  lemma {:induction false} ScanMeaning(p: string, t: string)
    requires FreeScan(p, t).answer.Success?
    ensures FreeScan(p, t).answer.value <==> MatchesSegment(Strict(p), t)
    decreases |p|, 0, 0
  {
    if p != "" {
      if p[0] == '*' {
        assert p == "*" + p[1..];
        StarLoop(p[1..], t);
        StarMeaning(p[1..], t);
      } else {
        assert Strict(p)[1..] == Strict(p[1..]);
        if t != "" && (p[0] == '?' || p[0] == t[0]) {
          ScanMeaning(p[1..], t[1..]);
        }
      }
    }
  }

  lemma {:induction false} StarLoop(rest: string, t: string)
    requires FreeStar(rest, t).answer.Success?
    ensures FreeStar(rest, t).answer.value <==> rest == "" || MatchesLater(rest, t)
    decreases |rest|, 2, |t|
  {
    if t != "" {
      assert t[0..] == t;
      ScanMeaning(rest, t);
      if !FreeScan(rest, t).answer.value {
        StarLoop(rest, t[1..]);
        assert forall k :: 1 <= k <= |t| ==> t[k..] == t[1..][k - 1..];
        assert forall k :: 0 <= k < |t[1..]| ==> t[1..][k..] == t[k + 1..];
      } else {
        assert MatchesSegment(Strict(rest), t[0..]);
      }
    }
  }

  /** The strict pattern matches what is left of `rs` after some number of segments, at least `i`. */
  ghost predicate MatchesFrom(ps: seq<string>, rs: seq<string>, i: nat) {
    exists k :: i <= k <= |rs| && Matches(StrictAll(ps), rs[k..])
  }

  lemma MatchesBare(ps: seq<string>, rs: seq<string>)
    requires ps != [] && ps[0] == "**"
    ensures Matches(StrictAll(ps), rs) <==> |ps| == 1 || MatchesFrom(ps[1..], rs, 0)
  {
    assert StrictAll(ps)[1..] == StrictAll(ps[1..]);
    if |ps| == 1 {
      assert Matches(StrictAll(ps)[1..], rs[|rs|..]);
    }
  }

  lemma MatchesPlain(ps: seq<string>, rs: seq<string>)
    requires ps != [] && ps[0] != "**"
    ensures Matches(StrictAll(ps), rs) <==>
      rs != [] && MatchesSegment(Strict(ps[0]), rs[0]) && Matches(StrictAll(ps[1..]), rs[1..])
  {
    StrictNotBare(ps[0]);
    assert StrictAll(ps)[1..] == StrictAll(ps[1..]);
  }

  /** Whenever the search answers, it answers membership in the strict language. */
  lemma {:induction false} SegmentsMeaning(ps: seq<string>, rs: seq<string>, depth: nat)
    requires FreeSegments(ps, rs, depth).answer.Success?
    ensures FreeSegments(ps, rs, depth).answer.value <==> Matches(StrictAll(ps), rs)
    decreases |ps|, 0, 0
  {
    if ps != [] {
      if ps[0] == "**" {
        MatchesBare(ps, rs);
        if |ps| > 1 {
          BranchMeaning(ps[1..], rs, 0, depth + 1);
        }
      } else {
        MatchesPlain(ps, rs);
        if rs != [] {
          ScanMeaning(ps[0], rs[0]);
          if FreeScan(ps[0], rs[0]).answer == Success(true) {
            SegmentsMeaning(ps[1..], rs[1..], depth);
          }
        }
      }
    }
  }

  lemma {:induction false} BranchMeaning(ps: seq<string>, rs: seq<string>, i: nat, depth: nat)
    requires i <= |rs| + 1 && FreeBranch(ps, rs, i, depth).answer.Success?
    ensures FreeBranch(ps, rs, i, depth).answer.value <==> MatchesFrom(ps, rs, i)
    decreases |ps|, 1, |rs| + 1 - i
  {
    if i <= |rs| {
      SegmentsMeaning(ps, rs[i..], depth);
      if FreeSegments(ps, rs[i..], depth).answer == Success(false) {
        BranchMeaning(ps, rs, i + 1, depth);
      }
    }
  }

  /******* The depth cap *******/

  function DoubleStars(ps: seq<string>): nat {
    if ps == [] then 0 else (if ps[0] == "**" then 1 else 0) + DoubleStars(ps[1..])
  }

  lemma {:induction false} ScanNeverTooComplex(p: string, t: string)
    ensures FreeScan(p, t).answer != Failure(PatternTooComplex)
    decreases |p|, 0, 0
  {
    if p != "" {
      if p[0] == '*' {
        StarNeverTooComplex(p[1..], t);
      } else if t != "" {
        ScanNeverTooComplex(p[1..], t[1..]);
      }
    }
  }

  lemma {:induction false} StarNeverTooComplex(rest: string, t: string)
    ensures FreeStar(rest, t).answer != Failure(PatternTooComplex)
    decreases |rest|, 2, |t|
  {
    if t != "" {
      ScanNeverTooComplex(rest, t);
      StarNeverTooComplex(rest, t[1..]);
    }
  }

  /** With at most 48 bare `**` segments to come the depth cap is never hit: only the budget can stop the search. */
  lemma {:induction false} DepthCapUnreached(ps: seq<string>, rs: seq<string>, depth: nat)
    requires depth + DoubleStars(ps) <= MAX_DOUBLE_STAR_DEPTH
    ensures FreeSegments(ps, rs, depth).answer != Failure(PatternTooComplex)
    decreases |ps|, 0, 0
  {
    if ps != [] {
      if ps[0] == "**" {
        BranchCapUnreached(ps[1..], rs, 0, depth + 1);
      } else if rs != [] {
        ScanNeverTooComplex(ps[0], rs[0]);
        DepthCapUnreached(ps[1..], rs[1..], depth);
      }
    }
  }

  lemma {:induction false} BranchCapUnreached(ps: seq<string>, rs: seq<string>, i: nat, depth: nat)
    requires i <= |rs| + 1 && depth + DoubleStars(ps) <= MAX_DOUBLE_STAR_DEPTH
    ensures FreeBranch(ps, rs, i, depth).answer != Failure(PatternTooComplex)
    decreases |ps|, 1, |rs| + 1 - i
  {
    if i <= |rs| {
      DepthCapUnreached(ps, rs[i..], depth);
      BranchCapUnreached(ps, rs, i + 1, depth);
    }
  }

  function LeadingDoubleStars(ps: seq<string>): nat {
    if ps == [] || ps[0] != "**" then 0 else 1 + LeadingDoubleStars(ps[1..])
  }

  /** 48 is tight: a pattern that opens with 49 bare `**` segments hits the cap on every resource. */
  lemma {:induction false} DepthCapTight(ps: seq<string>, rs: seq<string>, depth: nat)
    requires depth + LeadingDoubleStars(ps) > MAX_DOUBLE_STAR_DEPTH && LeadingDoubleStars(ps) > 0
    ensures FreeSegments(ps, rs, depth).answer == Failure(PatternTooComplex)
    decreases |ps|
  {
    if depth < MAX_DOUBLE_STAR_DEPTH {
      DepthCapTight(ps[1..], rs[0..], depth + 1);
    }
  }

  /******* Splitting *******/

  /** `split('/')`. */
  function Split(s: string): (r: seq<string>)
    ensures r != []
  {
    if s == "" then [""]
    else if s[0] == '/' then [""] + Split(s[1..])
    else
      var rest := Split(s[1..]);
      [[s[0]] + rest[0]] + rest[1..]
  }

  /** Splitting cuts at every slash and only there. */
  lemma {:induction false} SplitJoins(s: string)
    ensures Join(Split(s), '/') == s
    ensures forall i :: 0 <= i < |Split(s)| ==> '/' !in Split(s)[i]
  {
    if s != "" {
      SplitJoins(s[1..]);
      var rest := Split(s[1..]);
      if s[0] == '/' {
        assert ([""] + rest)[1..] == rest;
      } else {
        assert |rest| > 1 ==> [s[0]] + (rest[0] + "/" + Join(rest[1..], '/')) == ([s[0]] + rest[0]) + "/" + Join(rest[1..], '/');
      }
    }
  }

  function ResourceSegments(resource: string): seq<string> {
    if resource == "" then [] else Split(resource)
  }

  lemma {:induction false} SplitJoined(parts: seq<string>)
    requires parts != [] && forall p :: p in parts ==> '/' !in p
    ensures Split(Join(parts, '/')) == parts
    decreases Total(parts) + |parts|
  {
    var p := parts[0];
    if p == "" {
      if |parts| > 1 {
        SplitJoined(parts[1..]);
        assert Join(parts, '/')[1..] == Join(parts[1..], '/');
      }
    } else {
      var shorter := [p[1..]] + parts[1..];
      assert shorter[1..] == parts[1..] && Total(shorter) == Total(parts) - 1;
      assert p == [p[0]] + p[1..];
      assert forall c :: c in p[1..] ==> c in p;
      SplitJoined(shorter);
      assert p[0] in p && Join(parts, '/')[0] == p[0] && Join(parts, '/')[1..] == Join(shorter, '/');
      assert parts == [[p[0]] + shorter[0]] + shorter[1..];
    }
  }

  /** Every list of segments but that of one empty segment is the split of a resource. */
  lemma SegmentsOfJoined(parts: seq<string>)
    requires parts != [] && parts != [""] && forall p :: p in parts ==> '/' !in p
    ensures ResourceSegments(Join(parts, '/')) == parts
  {
    SplitJoined(parts);
  }

  lemma NeverOneEmptySegment(resource: string)
    ensures ResourceSegments(resource) != [""]
  {
    SplitJoins(resource);
  }

  function GlobMatch(pattern: string, resource: string): Answer {
    if pattern == "" then Success(false)
    else Segments(Split(pattern), ResourceSegments(resource), 0, MAX_GLOB_WORK).answer
  }

  /******* Where the strict language is the ordinary one *******/

  /** The pattern matches nothing, has no segment but bare `**` that ends in two stars, or is a single run of stars. */
  ghost predicate Ordinary(ps: seq<string>) {
    || !BracketFree(ps)
    || (forall p :: p in ps ==> !Affected(p))
    || (|ps| == 1 && AllStars(ps[0]))
  }

  ghost predicate LanguagesAgree(ps: seq<string>, resource: string) {
    Matches(StrictAll(ps), ResourceSegments(resource)) <==> Matches(ps, ResourceSegments(resource))
  }

  lemma OneSegment(p: string, rs: seq<string>)
    requires p != "**"
    ensures Matches([p], rs) <==> |rs| == 1 && MatchesSegment(p, rs[0])
  {
    assert [p][1..] == [];
  }

  lemma OrdinaryAgrees(ps: seq<string>, resource: string)
    requires ps != [] && Ordinary(ps)
    ensures LanguagesAgree(ps, resource)
  {
    var rs := ResourceSegments(resource);
    if Matches(StrictAll(ps), rs) {
      StrictAllOnlyRejects(ps, rs);
    }
    if !BracketFree(ps) {
      BracketPatternMatchesNothing(ps, rs);
    } else if forall p :: p in ps ==> !Affected(p) {
      StrictAllSame(ps);
    } else if Matches(ps, rs) {
      NeverOneEmptySegment(resource);
      var p :| p in ps && Affected(p);
      assert ps == [p] && StrictAll(ps[1..]) == [] && StrictAll(ps) == ["?*"];
      OneSegment(p, rs);
      OneSegment("?*", rs);
      assert rs == [rs[0]] && "?*"[1..] == "*";
      StarsMatchAll("*", rs[0][1..]);
    }
  }

  lemma {:induction false} ShortestHasNoSlash(p: string)
    requires '/' !in p
    ensures '/' !in Shortest(p)
  {
    if p != "" {
      ShortestHasNoSlash(p[1..]);
    }
  }

  lemma {:induction false} TextsHaveNoSlash(ps: seq<string>)
    requires forall p :: p in ps ==> '/' !in p
    ensures forall t :: t in Texts(ps) ==> '/' !in t
  {
    if ps != [] {
      TextsHaveNoSlash(ps[1..]);
      ShortestHasNoSlash(ps[0]);
    }
  }

  lemma {:induction false} AffectedHasText(ps: seq<string>, p: string)
    requires p in ps && Affected(p)
    ensures Texts(ps) != []
  {
    if p != ps[0] {
      AffectedHasText(ps[1..], p);
    }
  }

  lemma {:induction false} NoTextIsStars(p: string)
    requires Shortest(p) == ""
    ensures AllStars(p)
  {
    if p != "" {
      NoTextIsStars(p[1..]);
    }
  }

  /** Segments that the pattern matches in the ordinary and not in the strict reading. */
  lemma ExtraSegments(ps: seq<string>) returns (rs: seq<string>)
    requires !Ordinary(ps) && forall p :: p in ps ==> '/' !in p
    ensures Matches(ps, rs) && !Matches(StrictAll(ps), rs)
    ensures rs != [] && rs != [""] && forall t :: t in rs ==> '/' !in t
  {
    var p :| p in ps && Affected(p);
    rs := Texts(ps);
    AffectedHasText(ps, p);
    TextsMatch(ps);
    TextsHaveNoSlash(ps);
    if rs == [""] {
      if |ps| == 1 {
        NoTextIsStars(ps[0]);
      }
      TwoEmptySegments(ps);
      assert [""][1..] == [] && ["", ""][1..] == [""];
      assert Total([""]) == 0 && Total(["", ""]) == 0;
      rs := ["", ""];
    }
    StrictTotal(ps);
    if Matches(StrictAll(ps), rs) {
      MatchTotal(StrictAll(ps), rs);
    }
  }

  lemma ExtraResource(pattern: string) returns (resource: string)
    requires !Ordinary(Split(pattern))
    ensures var ps, rs := Split(pattern), ResourceSegments(resource);
      Matches(ps, rs) && !Matches(StrictAll(ps), rs)
  {
    SplitJoins(pattern);
    var rs := ExtraSegments(Split(pattern));
    SegmentsOfJoined(rs);
    resource := Join(rs, '/');
  }

  /** The two readings of a pattern agree on every resource exactly if the pattern is ordinary. */
  lemma LanguagesAgreeExactly(pattern: string)
    ensures (forall resource :: LanguagesAgree(Split(pattern), resource)) <==> Ordinary(Split(pattern))
  {
    if Ordinary(Split(pattern)) {
      forall resource
        ensures LanguagesAgree(Split(pattern), resource)
      {
        OrdinaryAgrees(Split(pattern), resource);
      }
    } else {
      var resource := ExtraResource(pattern);
      assert !LanguagesAgree(Split(pattern), resource);
    }
  }

  /******* Bracket-free patterns are never invalid *******/

  lemma {:induction false} ScanNeverInvalid(p: string, t: string)
    requires !HasBracket(p)
    ensures FreeScan(p, t).answer != Failure(InvalidPattern)
    decreases |p|, 0, 0
  {
    if p != "" {
      assert !HasBracket(p[1..]);
      if p[0] == '*' {
        StarNeverInvalid(p[1..], t);
      } else if t != "" {
        ScanNeverInvalid(p[1..], t[1..]);
      }
    }
  }

  lemma {:induction false} StarNeverInvalid(rest: string, t: string)
    requires !HasBracket(rest)
    ensures FreeStar(rest, t).answer != Failure(InvalidPattern)
    decreases |rest|, 2, |t|
  {
    if t != "" {
      ScanNeverInvalid(rest, t);
      StarNeverInvalid(rest, t[1..]);
    }
  }

  lemma {:induction false} SegmentsNeverInvalid(ps: seq<string>, rs: seq<string>, depth: nat)
    requires BracketFree(ps)
    ensures FreeSegments(ps, rs, depth).answer != Failure(InvalidPattern)
    decreases |ps|, 0, 0
  {
    if ps != [] {
      if ps[0] == "**" {
        BranchNeverInvalid(ps[1..], rs, 0, depth + 1);
      } else if rs != [] {
        ScanNeverInvalid(ps[0], rs[0]);
        SegmentsNeverInvalid(ps[1..], rs[1..], depth);
      }
    }
  }

  lemma {:induction false} BranchNeverInvalid(ps: seq<string>, rs: seq<string>, i: nat, depth: nat)
    requires i <= |rs| + 1 && BracketFree(ps)
    ensures FreeBranch(ps, rs, i, depth).answer != Failure(InvalidPattern)
    decreases |ps|, 1, |rs| + 1 - i
  {
    if i <= |rs| {
      SegmentsNeverInvalid(ps, rs[i..], depth);
      BranchNeverInvalid(ps, rs, i + 1, depth);
    }
  }

  /******* glob_match *******/

  /**
   For every non-empty pattern: an answer is membership in the strict language; `Ok(true)` implies an ordinary match;
   `Ok(false)` excludes one if the pattern is ordinary; with at most 48 bare `**` segments `PatternTooComplex` means
   that the search takes more than the budget; and only a bracket makes a pattern invalid.
   */
  lemma GlobMatchExact(pattern: string, resource: string)
    requires pattern != ""
    ensures var ps, rs, r := Split(pattern), ResourceSegments(resource), GlobMatch(pattern, resource);
      && (r.Success? ==> (r.value <==> Matches(StrictAll(ps), rs)))
      && (r == Success(true) ==> Matches(ps, rs))
      && (r == Success(false) && Ordinary(ps) ==> !Matches(ps, rs))
      && (r == Failure(PatternTooComplex) && DoubleStars(ps) <= 48 ==> FreeSegments(ps, rs, 0).work > 65_536)
      && (FreeSegments(ps, rs, 0).work <= 65_536 ==> r == FreeSegments(ps, rs, 0).answer)
      && (r == Failure(InvalidPattern) ==> !BracketFree(ps))
  {
    var ps, rs, r := Split(pattern), ResourceSegments(resource), GlobMatch(pattern, resource);
    SegmentsCharged(ps, rs, 0, MAX_GLOB_WORK);
    if r.Success? {
      SegmentsMeaning(ps, rs, 0);
      if r.value {
        StrictAllOnlyRejects(ps, rs);
      } else if Ordinary(ps) {
        OrdinaryAgrees(ps, resource);
      }
    }
    if BracketFree(ps) {
      SegmentsNeverInvalid(ps, rs, 0);
    }
    if DoubleStars(ps) <= MAX_DOUBLE_STAR_DEPTH {
      DepthCapUnreached(ps, rs, 0);
    }
  }

  /** A pattern that opens with one of the four bracket characters is invalid on every resource but the empty one. */
  lemma BracketInvalid(c: char, rest: string, resource: string)
    requires c in {'[', ']', '{', '}'} && resource != ""
    ensures GlobMatch([c] + rest, resource) == Failure(InvalidPattern)
  {
    var pattern, rs := [c] + rest, ResourceSegments(resource);
    var ps := Split(pattern);
    assert pattern[0] == c && ps[0][0] == c && Bracket(c) && ps[0] != "**" && rs != [];
    var first := Segment(ps[0], rs[0], MAX_GLOB_WORK - 1);
    assert first.answer == Scan(ps[0], rs[0], MAX_GLOB_WORK - 2).answer == Failure(InvalidPattern);
    assert Segments(ps, rs, 0, MAX_GLOB_WORK).answer == first.answer;
  }

  lemma {:induction false} InJoin(parts: seq<string>, i: nat, c: char)
    requires i < |parts| && c in parts[i]
    ensures c in Join(parts, '/')
  {
    if i > 0 {
      InJoin(parts[1..], i - 1, c);
    }
  }

  lemma BracketCharacters(c: char)
    ensures Bracket(c) <==> c in {'[', ']', '{', '}'}
  {}

  lemma BracketInPattern(pattern: string) returns (c: char)
    requires !BracketFree(Split(pattern))
    ensures c in pattern && Bracket(c)
  {
    SplitJoins(pattern);
    var i :| 0 <= i < |Split(pattern)| && HasBracket(Split(pattern)[i]);
    var j :| 0 <= j < |Split(pattern)[i]| && Bracket(Split(pattern)[i][j]);
    c := Split(pattern)[i][j];
    InJoin(Split(pattern), i, c);
  }

  /** No pattern without one of them is. */
  lemma InvalidMeansBracket(pattern: string, resource: string)
    requires GlobMatch(pattern, resource) == Failure(InvalidPattern)
    ensures exists c :: c in pattern && c in {'[', ']', '{', '}'}
  {
    GlobMatchExact(pattern, resource);
    var c := BracketInPattern(pattern);
    BracketCharacters(c);
  }

  /** The empty pattern matches nothing, not even the empty resource. */
  lemma EmptyPatternRejected(resource: string)
    ensures GlobMatch("", resource) == Success(false)
  {}

  /** Every pattern that is not ordinary has a resource it ordinarily matches and `glob_match` never accepts. */
  lemma WronglyRejected(pattern: string) returns (resource: string)
    requires pattern != "" && !Ordinary(Split(pattern))
    ensures Matches(Split(pattern), ResourceSegments(resource))
    ensures GlobMatch(pattern, resource) == Success(false) || GlobMatch(pattern, resource) == Failure(PatternTooComplex)
  {
    resource := ExtraResource(pattern);
    GlobMatchExact(pattern, resource);
    var r := GlobMatch(pattern, resource);
    assert BracketFree(Split(pattern));
    assert r.Success? ==> !r.value;
    assert r.Failure? ==> r.error != InvalidPattern;
  }

  /** Ordinary characters only. */
  predicate Literal(s: string) {
    forall c :: c in s ==> c != '*' && c != '?' && c != '/' && !Bracket(c)
  }

  lemma {:induction false} LiteralStarsScan(s: string, work: nat)
    requires Literal(s)
    ensures Scan(s + "**", s, work) == Outcome(Success(false), work, 0)
    ensures MatchesSegment(s + "**", s)
  {
    var p := s + "**";
    if s == "" {
      assert p == "**" && p[1..] == "*";
      StarsMatchAll(p, s);
    } else {
      assert p[1..] == s[1..] + "**" && p[0] == s[0] && s[0] in s;
      assert forall c :: c in s[1..] ==> c in s;
      LiteralStarsScan(s[1..], work);
    }
  }

  lemma {:induction false} SplitPlain(s: string)
    requires '/' !in s
    ensures Split(s) == [s]
  {
    if s != "" {
      SplitPlain(s[1..]);
      assert s[0] in s && [s[0]] + s[1..] == s;
    }
  }

  /** Such inputs at the entry point: `foo**` does not match `foo`, nor does any other literal text and two stars. */
  lemma TrailingStarsRejected(s: string)
    requires s != "" && Literal(s)
    ensures GlobMatch(s + "**", s) == Success(false)
    ensures Matches(Split(s + "**"), ResourceSegments(s))
  {
    SplitPlain(s);
    SplitPlain(s + "**");
    LiteralStarsScan(s, MAX_GLOB_WORK - 2);
    assert (s + "**")[0] == s[0] && s[0] in s;
    assert [s + "**"][1..] == [] && [s][1..] == [];
  }

  /******* The matcher with its loops *******/

  /** Same answer with the same work left; the matcher itself does not count its calls. */
  ghost predicate SameEnd(o: Outcome, o': Outcome) {
    o.answer == o'.answer && o.work == o'.work
  }

  method MatchSegment(pattern: string, text: string, work: nat) returns (answer: Answer, left: nat)
    ensures answer == Segment(pattern, text, work).answer && left == Segment(pattern, text, work).work
    decreases |pattern|, 0
  {
    if work == 0 {
      return Failure(PatternTooComplex), 0;
    }
    left := work - 1;
    var p, ti := 0, 0;
    assert pattern[0..] == pattern && text[0..] == text;
    while p < |pattern|
      invariant 0 <= p <= |pattern| && 0 <= ti <= |text| && left == work - 1
      invariant SameEnd(Scan(pattern, text, left), Scan(pattern[p..], text[ti..], left))
    {
      var ch := pattern[p];
      p := p + 1;
      assert pattern[p - 1..][0] == ch && pattern[p - 1..][1..] == pattern[p..];
      if ch == '*' {
        answer, left := MatchStar(pattern[p..], text, ti, left);
        return;
      } else if ch == '?' {
        if ti >= |text| {
          return Success(false), left;
        }
        assert text[ti..][1..] == text[ti + 1..];
        ti := ti + 1;
      } else if Bracket(ch) {
        return Failure(InvalidPattern), left;
      } else {
        if ti >= |text| || text[ti] != ch {
          return Success(false), left;
        }
        assert text[ti..][1..] == text[ti + 1..];
        ti := ti + 1;
      }
    }
    answer := Success(ti == |text|);
  }

  /** The inner loop of `*`: try the rest of the pattern at every later position before the end of the text. */
  method MatchStar(rest: string, text: string, start: nat, work: nat) returns (answer: Answer, left: nat)
    requires start <= |text|
    ensures answer == Star(rest, text[start..], work).answer && left == Star(rest, text[start..], work).work
    decreases |rest|, 1
  {
    var ti := start;
    left := work;
    while ti < |text|
      invariant start <= ti <= |text|
      invariant SameEnd(Star(rest, text[start..], work), Star(rest, text[ti..], left))
    {
      if left == 0 {
        return Failure(PatternTooComplex), 0;
      }
      answer, left := MatchSegment(rest, text[ti..], left - 1);
      if answer != Success(false) {
        return;
      }
      assert text[ti..][1..] == text[ti + 1..];
      ti := ti + 1;
    }
    answer := Success(rest == "");
  }

  method MatchSegments(pattern: seq<string>, resource: seq<string>, depth: nat, work: nat) returns (answer: Answer, left: nat)
    ensures answer == Segments(pattern, resource, depth, work).answer && left == Segments(pattern, resource, depth, work).work
    decreases |pattern|
  {
    if work == 0 {
      return Failure(PatternTooComplex), 0;
    }
    left := work - 1;
    if pattern == [] {
      return Success(resource == []), left;
    }
    if pattern[0] == "**" {
      if depth >= MAX_DOUBLE_STAR_DEPTH {
        return Failure(PatternTooComplex), left;
      }
      if |pattern| == 1 {
        return Success(true), left;
      }
      var i := 0;
      while i <= |resource|
        invariant 0 <= i <= |resource| + 1
        invariant SameEnd(Branch(pattern[1..], resource, 0, depth + 1, work - 1), Branch(pattern[1..], resource, i, depth + 1, left))
      {
        if left == 0 {
          return Failure(PatternTooComplex), 0;
        }
        answer, left := MatchSegments(pattern[1..], resource[i..], depth + 1, left - 1);
        if answer != Success(false) {
          return;
        }
        i := i + 1;
      }
      return Success(false), left;
    }
    if resource == [] {
      return Success(false), left;
    }
    answer, left := MatchSegment(pattern[0], resource[0], left);
    if answer == Success(true) {
      answer, left := MatchSegments(pattern[1..], resource[1..], depth, left);
    }
  }

  method MatchGlob(pattern: string, resource: string) returns (answer: Answer)
    ensures answer == GlobMatch(pattern, resource)
  {
    if pattern == "" {
      return Success(false);
    }
    var left;
    answer, left := MatchSegments(Split(pattern), ResourceSegments(resource), 0, MAX_GLOB_WORK);
  }
}
