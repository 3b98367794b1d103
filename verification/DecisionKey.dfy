/**
 Cache keys of policy decisions (s1/opa-integration-layer/src/service.ts, `flattenMetadata`, `buildCacheKey` and the
 sorted `name:version` list). The digest over the key's preimage is a parameter elsewhere; here is the preimage.
 */
module DecisionKey {
  import opened Sorting
  import opened Strings
  import opened Wrappers
  import opened PolicyEvaluator

  /******* Joining and cutting *******/

  /** What comes before the first separator. */
  function Head(s: string, sep: char): string {
    if s == "" || s[0] == sep then "" else [s[0]] + Head(s[1..], sep)
  }

  lemma {:induction false} HeadOfCut(x: string, u: string, sep: char)
    requires sep !in x
    ensures Head(x + [sep] + u, sep) == x
  {
    if x != "" {
      HeadOfCut(x[1..], u, sep);
      assert (x + [sep] + u)[1..] == x[1..] + [sep] + u;
    }
  }

  lemma CutUnique(x: string, u: string, y: string, v: string, sep: char)
    requires sep !in x && sep !in y && x + [sep] + u == y + [sep] + v
    ensures x == y && u == v
  {
    HeadOfCut(x, u, sep);
    HeadOfCut(y, v, sep);
    assert u == (x + [sep] + u)[|x| + 1..] && v == (y + [sep] + v)[|y| + 1..];
  }

  /** Equally many fields, all but the last free of the separator, are determined by their join. */
  lemma {:induction false} FieldsDetermined(a: seq<string>, b: seq<string>, sep: char)
    requires |a| == |b| && Join(a, sep) == Join(b, sep)
    requires forall i :: 0 <= i < |a| - 1 ==> sep !in a[i] && sep !in b[i]
    ensures a == b
  {
    if |a| > 1 {
      CutUnique(a[0], Join(a[1..], sep), b[0], Join(b[1..], sep), sep);
      FieldsDetermined(a[1..], b[1..], sep);
      assert a == [a[0]] + a[1..] && b == [b[0]] + b[1..];
    }
  }

  lemma {:induction false} JoinHasSeparator(a: seq<string>, sep: char)
    requires |a| > 1
    ensures sep in Join(a, sep) && Join(a, sep) != ""
  {
    assert Join(a, sep)[|a[0]|] == sep;
  }

  /** A list of non-empty items free of the separator is determined by its join. */
  lemma {:induction false} ListDetermined(a: seq<string>, b: seq<string>, sep: char)
    requires Join(a, sep) == Join(b, sep)
    requires forall x :: x in a ==> x != "" && sep !in x
    requires forall x :: x in b ==> x != "" && sep !in x
    ensures a == b
  {
    if |a| > 1 {
      JoinHasSeparator(a, sep);
    }
    if |b| > 1 {
      JoinHasSeparator(b, sep);
    }
    if |a| >= 1 {
      assert a[0] in a;
    }
    if |b| >= 1 {
      assert b[0] in b;
    }
    if |a| > 1 && |b| > 1 {
      CutUnique(a[0], Join(a[1..], sep), b[0], Join(b[1..], sep), sep);
      assert (forall x :: x in a[1..] ==> x in a) && (forall x :: x in b[1..] ==> x in b);
      ListDetermined(a[1..], b[1..], sep);
      assert a == [a[0]] + a[1..] && b == [b[0]] + b[1..];
    }
  }

  /******* Sorting strings *******/

  predicate LexLe(a: string, b: string) {
    a == "" || (b != "" && (a[0] < b[0] || (a[0] == b[0] && LexLe(a[1..], b[1..]))))
  }

  lemma {:induction false} LexTotal(a: string, b: string)
    ensures LexLe(a, b) || LexLe(b, a)
  {
    if a != "" && b != "" && a[0] == b[0] {
      LexTotal(a[1..], b[1..]);
    }
  }

  lemma {:induction false} LexAntisymmetric(a: string, b: string)
    requires LexLe(a, b) && LexLe(b, a)
    ensures a == b
  {
    if a != "" && b != "" {
      LexAntisymmetric(a[1..], b[1..]);
      assert a == [a[0]] + a[1..] && b == [b[0]] + b[1..];
    }
  }

  lemma {:induction false} LexTransitive(a: string, b: string, c: string)
    requires LexLe(a, b) && LexLe(b, c)
    ensures LexLe(a, c)
  {
    if a != "" && a[0] == b[0] && b[0] == c[0] {
      LexTransitive(a[1..], b[1..], c[1..]);
    }
  }

  lemma LexPreorder()
    ensures TotalPreorder(LexLe)
  {
    forall a, b
      ensures Comparable(LexLe, a, b)
    {
      LexTotal(a, b);
    }
    forall a, b, c
      ensures Composes(LexLe, a, b, c)
    {
      if LexLe(a, b) && LexLe(b, c) {
        LexTransitive(a, b, c);
      }
    }
  }

  /** `Array.sort` on strings. */
  function SortStrings(xs: seq<string>): seq<string> {
    SortBy(LexLe, xs)
  }

  lemma SortStringsSorts(xs: seq<string>)
    ensures multiset(SortStrings(xs)) == multiset(xs) && SortedBy(LexLe, SortStrings(xs))
  {
    LexPreorder();
    SortBySorts(LexLe, xs);
  }

  /** The first of a sorted list is below whatever the list holds. */
  lemma FirstIsLeast(a: seq<string>, x: string)
    requires SortedBy(LexLe, a) && x in a
    ensures LexLe(a[0], x)
  {
    LexTotal(x, x);
  }

  /** There is one way to sort. */
  lemma {:induction false} SortedUnique(a: seq<string>, b: seq<string>)
    requires SortedBy(LexLe, a) && SortedBy(LexLe, b) && multiset(a) == multiset(b)
    ensures a == b
  {
    if a != [] {
      assert a[0] in multiset(b);
      assert b[0] in multiset(a);
      FirstIsLeast(a, b[0]);
      FirstIsLeast(b, a[0]);
      LexAntisymmetric(a[0], b[0]);
      SameTails(a, b);
      SortedUnique(a[1..], b[1..]);
    } else {
      assert |b| == |multiset(b)|;
    }
  }

  lemma SameTails(a: seq<string>, b: seq<string>)
    requires a != [] && b != [] && a[0] == b[0] && multiset(a) == multiset(b)
    ensures multiset(a[1..]) == multiset(b[1..])
  {
    assert a == [a[0]] + a[1..];
    assert b == [b[0]] + b[1..];
    assert multiset(a[1..]) == multiset(a) - multiset{a[0]};
    assert multiset(b[1..]) == multiset(b) - multiset{b[0]};
  }

  /******* Metadata *******/

  lemma {:induction false} LeastExists(s: set<string>) returns (k: string)
    requires s != {}
    ensures k in s && forall x :: x in s ==> LexLe(k, x)
  {
    var c :| c in s;
    k := c;
    LexTotal(c, c);
    var rest := s - {c};
    assert forall x :: x in s ==> x == c || x in rest;
    if rest != {} {
      var m := LeastExists(rest);
      LexTotal(c, m);
      if LexLe(c, m) {
        forall x | x in s
          ensures LexLe(c, x)
        {
          if x != c {
            LexTransitive(c, m, x);
          }
        }
      } else {
        k := m;
      }
    }
  }

  predicate Least(s: set<string>, k: string) {
    k in s && forall x :: x in s ==> LexLe(k, x)
  }

  function LeastOf(s: set<string>): (k: string)
    requires s != {}
    ensures Least(s, k)
  {
    assert exists k :: Least(s, k) by {
      var k := LeastExists(s);
      assert Least(s, k);
    }
    assert forall a, b :: Least(s, a) && Least(s, b) ==> a == b by {
      forall a, b | Least(s, a) && Least(s, b)
        ensures a == b
      {
        LexAntisymmetric(a, b);
      }
    }
    var k :| k in s && Least(s, k);
    k
  }

  /** `Object.keys(meta).sort()`. */
  function SortedKeys(s: set<string>): (r: seq<string>)
    ensures forall k :: k in r <==> k in s
  {
    if s == {} then [] else
      var k := LeastOf(s);
      assert forall x :: x in s <==> x == k || x in s - {k};
      [k] + SortedKeys(s - {k})
  }

  lemma {:induction false} SortedKeysSorted(s: set<string>)
    ensures SortedBy(LexLe, SortedKeys(s)) && |SortedKeys(s)| == |s|
  {
    if s != {} {
      var k := LeastOf(s);
      SortedKeysSorted(s - {k});
      SortedPrepend(LexLe, k, SortedKeys(s - {k}));
    }
  }

  function Pairs(meta: map<string, string>, keys: seq<string>): (r: seq<string>)
    requires forall k :: k in keys ==> k in meta
    ensures |r| == |keys|
    ensures forall i :: 0 <= i < |r| ==> r[i] == keys[i] + "=" + meta[keys[i]]
  {
    if keys == [] then [] else [keys[0] + "=" + meta[keys[0]]] + Pairs(meta, keys[1..])
  }

  function FlattenMetadata(meta: map<string, string>): string {
    Join(Pairs(meta, SortedKeys(meta.Keys)), '&')
  }

  /** Keys avoid `=` and `&`, values avoid `&`. */
  ghost predicate CleanMetadata(meta: map<string, string>) {
    forall k :: k in meta ==> '=' !in k && '&' !in k && '&' !in meta[k]
  }

  lemma PairsClean(meta: map<string, string>, keys: seq<string>)
    requires CleanMetadata(meta) && forall k :: k in keys ==> k in meta
    ensures forall x :: x in Pairs(meta, keys) ==> x != "" && '&' !in x
  {
    forall x | x in Pairs(meta, keys)
      ensures x != "" && '&' !in x
    {
      var i :| 0 <= i < |keys| && x == Pairs(meta, keys)[i];
      assert keys[i] in meta;
    }
  }

  lemma PairAt(m: map<string, string>, m': map<string, string>, ks: seq<string>, ks': seq<string>, i: nat)
    requires CleanMetadata(m) && CleanMetadata(m') && i < |ks|
    requires (forall k :: k in ks ==> k in m) && (forall k :: k in ks' ==> k in m')
    requires Pairs(m, ks) == Pairs(m', ks')
    ensures |ks| == |ks'| && ks[i] == ks'[i] && m[ks[i]] == m'[ks[i]]
  {
    assert |Pairs(m, ks)| == |Pairs(m', ks')|;
    assert ks[i] in ks && ks'[i] in ks' && Pairs(m, ks)[i] == Pairs(m', ks')[i];
    CutUnique(ks[i], m[ks[i]], ks'[i], m'[ks'[i]], '=');
  }

  lemma SameKeys(m: map<string, string>, m': map<string, string>, ks: seq<string>)
    requires (forall k :: k in ks <==> k in m) && (forall k :: k in ks <==> k in m')
    requires forall i :: 0 <= i < |ks| ==> m[ks[i]] == m'[ks[i]]
    ensures m == m'
  {}

  lemma PairsDetermined(m: map<string, string>, m': map<string, string>, ks: seq<string>, ks': seq<string>)
    requires CleanMetadata(m) && CleanMetadata(m')
    requires (forall k :: k in ks <==> k in m) && (forall k :: k in ks' <==> k in m')
    requires Pairs(m, ks) == Pairs(m', ks')
    ensures m == m'
  {
    assert |Pairs(m, ks)| == |Pairs(m', ks')|;
    forall i | 0 <= i < |ks|
      ensures ks[i] == ks'[i] && ks[i] in m && ks[i] in m' && m[ks[i]] == m'[ks[i]]
    {
      PairAt(m, m', ks, ks', i);
    }
    assert ks == ks';
    SameKeys(m, m', ks);
  }

  /** Clean metadata is determined by its flattened form. */
  lemma MetadataDetermined(m: map<string, string>, m': map<string, string>)
    requires CleanMetadata(m) && CleanMetadata(m') && FlattenMetadata(m) == FlattenMetadata(m')
    ensures m == m'
  {
    var ks, ks' := SortedKeys(m.Keys), SortedKeys(m'.Keys);
    PairsClean(m, ks);
    PairsClean(m', ks');
    ListDetermined(Pairs(m, ks), Pairs(m', ks'), '&');
    PairsDetermined(m, m', ks, ks');
  }

  /******* Bundle versions *******/

  function Versioned(b: Bundle): string {
    b.name + ":" + b.version
  }

  function VersionList(bundles: seq<Bundle>): (r: seq<string>)
    ensures |r| == |bundles| && forall i :: 0 <= i < |r| ==> r[i] == Versioned(bundles[i])
  {
    if bundles == [] then [] else [Versioned(bundles[0])] + VersionList(bundles[1..])
  }

  function VersionsKey(bundles: seq<Bundle>): string {
    Join(SortStrings(VersionList(bundles)), ',')
  }

  /** The order in which bundles are listed does not show in the key. */
  lemma VersionsOrderFree(bundles: seq<Bundle>, bundles': seq<Bundle>)
    requires multiset(VersionList(bundles)) == multiset(VersionList(bundles'))
    ensures VersionsKey(bundles) == VersionsKey(bundles')
  {
    SortStringsSorts(VersionList(bundles));
    SortStringsSorts(VersionList(bundles'));
    SortedUnique(SortStrings(VersionList(bundles)), SortStrings(VersionList(bundles')));
  }

  /** Names avoid `:`, `,` and `|`; versions avoid `,` and `|`. */
  ghost predicate CleanBundle(b: Bundle) {
    ':' !in b.name && ',' !in b.name && '|' !in b.name && ',' !in b.version && '|' !in b.version
  }

  ghost predicate CleanBundles(bundles: seq<Bundle>) {
    forall b :: b in bundles ==> CleanBundle(b)
  }

  lemma VersionedClean(b: Bundle)
    requires CleanBundle(b)
    ensures Versioned(b) != "" && ',' !in Versioned(b) && '|' !in Versioned(b)
  {
    assert |Versioned(b)| > 0;
  }

  lemma VersionsClean(bundles: seq<Bundle>)
    requires CleanBundles(bundles)
    ensures forall x :: x in SortStrings(VersionList(bundles)) ==> x != "" && ',' !in x && '|' !in x
  {
    SortStringsSorts(VersionList(bundles));
    forall x | x in SortStrings(VersionList(bundles))
      ensures x != "" && ',' !in x && '|' !in x
    {
      assert x in multiset(VersionList(bundles));
      var i :| 0 <= i < |bundles| && x == VersionList(bundles)[i];
      assert bundles[i] in bundles;
      VersionedClean(bundles[i]);
    }
  }

  ghost predicate SameVersions(a: seq<Bundle>, b: seq<Bundle>) {
    forall x :: x in a ==> exists y :: y in b && y.name == x.name && y.version == x.version
  }

  /** The key text determines which bundle names are present, and in which version. */
  lemma VersionsDetermined(a: seq<Bundle>, b: seq<Bundle>)
    requires CleanBundles(a) && CleanBundles(b) && VersionsKey(a) == VersionsKey(b)
    ensures SameVersions(a, b) && SameVersions(b, a)
  {
    VersionsClean(a);
    VersionsClean(b);
    ListDetermined(SortStrings(VersionList(a)), SortStrings(VersionList(b)), ',');
    SortStringsSorts(VersionList(a));
    SortStringsSorts(VersionList(b));
    assert multiset(VersionList(a)) == multiset(VersionList(b));
    VersionsIncluded(a, b);
    VersionsIncluded(b, a);
  }

  lemma VersionsIncluded(a: seq<Bundle>, b: seq<Bundle>)
    requires CleanBundles(a) && CleanBundles(b) && multiset(VersionList(a)) == multiset(VersionList(b))
    ensures SameVersions(a, b)
  {
    forall x | x in a
      ensures exists y :: y in b && y.name == x.name && y.version == x.version
    {
      var i :| 0 <= i < |a| && a[i] == x;
      assert VersionList(a)[i] in multiset(VersionList(b));
      var j :| 0 <= j < |b| && VersionList(b)[j] == Versioned(x);
      assert CleanBundle(b[j]) && CleanBundle(x);
      CutUnique(x.name, x.version, b[j].name, b[j].version, ':');
      assert b[j] in b;
    }
  }

  lemma {:induction false} JoinAvoids(parts: seq<string>, sep: char, c: char)
    requires c != sep && forall x :: x in parts ==> c !in x
    ensures c !in Join(parts, sep)
  {
    if parts != [] {
      assert parts[0] in parts;
      if |parts| > 1 {
        assert forall x :: x in parts[1..] ==> x in parts;
        JoinAvoids(parts[1..], sep, c);
      }
    }
  }

  /******* The whole key *******/

  function EnvelopeKey(r: Request): string {
    if r.envelope.Some? then r.envelope.value.id else "none"
  }

  function KeyFields(r: Request, bundles: seq<Bundle>): seq<string> {
    [r.agentId, r.actionClass, r.resource, r.passportId, VersionsKey(bundles), EnvelopeKey(r), FlattenMetadata(r.metadata)]
  }

  /** The text that is hashed into the cache key. */
  function Preimage(r: Request, bundles: seq<Bundle>): string {
    Join(KeyFields(r, bundles), '|')
  }

  /** The request's own fields avoid the bar, and its metadata is clean. */
  ghost predicate CleanRequest(r: Request) {
    && '|' !in r.agentId && '|' !in r.actionClass && '|' !in r.resource && '|' !in r.passportId && '|' !in EnvelopeKey(r)
    && CleanMetadata(r.metadata)
  }

  lemma KeyFieldsClean(r: Request, bundles: seq<Bundle>)
    requires CleanRequest(r) && CleanBundles(bundles)
    ensures forall i :: 0 <= i < 6 ==> '|' !in KeyFields(r, bundles)[i]
  {
    VersionsClean(bundles);
    JoinAvoids(SortStrings(VersionList(bundles)), ',', '|');
  }

  /** The preimage determines every request field it is built from, and the bundles with their versions. */
  lemma PreimageDetermined(r: Request, a: seq<Bundle>, r': Request, b: seq<Bundle>)
    requires CleanRequest(r) && CleanRequest(r') && CleanBundles(a) && CleanBundles(b)
    requires Preimage(r, a) == Preimage(r', b)
    ensures r.agentId == r'.agentId && r.actionClass == r'.actionClass && r.resource == r'.resource
    ensures r.passportId == r'.passportId && r.metadata == r'.metadata && EnvelopeKey(r) == EnvelopeKey(r')
    ensures SameVersions(a, b) && SameVersions(b, a)
  {
    var f, f' := KeyFields(r, a), KeyFields(r', b);
    KeyFieldsClean(r, a);
    KeyFieldsClean(r', b);
    FieldsDetermined(f, f', '|');
    assert f[0] == f'[0] && f[1] == f'[1] && f[2] == f'[2] && f[3] == f'[3];
    assert f[4] == f'[4] && f[5] == f'[5] && f[6] == f'[6];
    VersionsDetermined(a, b);
    MetadataDetermined(r.metadata, r'.metadata);
  }

  /** The hashed text, written out. */
  lemma PreimageSpelled(r: Request, bundles: seq<Bundle>)
    ensures Preimage(r, bundles)
         == r.agentId + "|" + (r.actionClass + "|" + (r.resource + "|" + (r.passportId + "|" + (VersionsKey(bundles) + "|"
            + ((if r.envelope.Some? then r.envelope.value.id else "none") + "|" + FlattenMetadata(r.metadata))))))
  {
    var f := KeyFields(r, bundles);
    assert f[1..][1..] == f[2..] && f[2..][1..] == f[3..] && f[3..][1..] == f[4..] && f[4..][1..] == f[5..] && f[5..][1..] == f[6..];
    assert Join(f[6..], '|') == f[6];
    assert Join(f[5..], '|') == f[5] + "|" + Join(f[6..], '|');
    assert Join(f[4..], '|') == f[4] + "|" + Join(f[5..], '|');
    assert Join(f[3..], '|') == f[3] + "|" + Join(f[4..], '|');
    assert Join(f[2..], '|') == f[2] + "|" + Join(f[3..], '|');
    assert Join(f[1..], '|') == f[1] + "|" + Join(f[2..], '|');
  }

  /** Metadata of one or two keys, written out. */
  lemma FlattenSpelled(k: string, v: string, k': string, v': string)
    requires LexLe(k, k') && k != k'
    ensures FlattenMetadata(map[k := v]) == k + "=" + v
    ensures FlattenMetadata(map[k := v, k' := v']) == k + "=" + v + "&" + (k' + "=" + v')
  {
    OneKey(k);
    OneKey(k');
    var two := {k, k'};
    assert LeastOf(two) == k by {
      if LeastOf(two) == k' {
        LexAntisymmetric(k, k');
      }
    }
    assert two - {k} == {k'};
    assert SortedKeys(two) == [k, k'];
    var m, one := map[k := v, k' := v'], map[k := v];
    assert m.Keys == two && one.Keys == {k};
    assert Pairs(one, [k]) == [k + "=" + v];
    assert Pairs(m, [k, k']) == [k + "=" + v, k' + "=" + v'];
    var x, y := k + "=" + v, k' + "=" + v';
    assert [x, y][1..] == [y] && Join([y], '&') == y && Join([x], '&') == x && Join([x, y], '&') == x + "&" + y;
  }

  lemma OneKey(k: string)
    ensures SortedKeys({k}) == [k]
  {
    assert LeastOf({k}) == k && {k} - {k} == {};
  }

  /** Without the delimiter condition it fails: a bar that belongs to one field or to the next leaves one preimage. */
  lemma BarIsAmbiguous(r: Request, bundles: seq<Bundle>, x: string, y: string, z: string)
    ensures Preimage(r.(agentId := x + "|" + y, actionClass := z), bundles)
         == Preimage(r.(agentId := x, actionClass := y + "|" + z), bundles)
  {
    var f := KeyFields(r.(agentId := x + "|" + y, actionClass := z), bundles);
    var g := KeyFields(r.(agentId := x, actionClass := y + "|" + z), bundles);
    var rest := Join(f[2..], '|');
    assert f[1..][1..] == f[2..] && g[1..][1..] == f[2..];
    assert Join(f, '|') == (x + "|" + y) + "|" + (z + "|" + rest);
    assert Join(g, '|') == x + "|" + ((y + "|" + z) + "|" + rest);
    assert (x + "|" + y) + "|" + (z + "|" + rest) == x + "|" + ((y + "|" + z) + "|" + rest);
  }

  /** Nor does the preimage tell a request without an envelope from one whose envelope is called `none`. */
  lemma NoneIsAmbiguous(r: Request, e: Envelope, bundles: seq<Bundle>)
    requires e.id == "none"
    ensures Preimage(r.(envelope := None), bundles) == Preimage(r.(envelope := Some(e)), bundles)
  {}
}
