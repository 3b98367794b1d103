/**
 Canonical hashing of ledger entries (s0/immutable-ledger/src/crypto/mod.rs).

 A Rust string is its UTF-8 bytes, so texts are byte sequences here. SHA-256 in hexadecimal
 (section 6.2 of FIPS 180-4) is a parameter `H` of type `Digest`: any function on texts. Where it
 matters its results are assumed to be 64 bytes long (`HexDigest`). Nothing else is assumed of it, in
 particular not that it is injective.
 */
module LedgerCrypto {
  import opened Wrappers

  type Byte = b: int | 0 <= b < 256

  type Text = seq<Byte>

  type Digest = Text -> Text

  /** Digests are 64 hexadecimal characters long. */
  ghost predicate HexDigest(H: Digest) {
    forall x: Text :: |H(x)| == 64
  }

  /** Two different inputs with the same hash: what every tamper result falls back on. */
  ghost predicate Collision(H: Digest, a: Text, b: Text) {
    a != b && H(a) == H(b)
  }

  /** A ledger record; `timestamp` is `written_ts` in milliseconds. */
  datatype Entry = Entry(
    id: nat,
    entryType: Text,
    agentId: Text,
    content: Text,
    contentType: Text,
    sourceId: Text,
    correlationId: Option<Text>,
    idempotencyKey: Option<Text>,
    entryHash: Text,
    previousHash: Text,
    position: int,
    timestamp: int)

  /** Decimal digits of a natural number, as `to_string` writes them. */
  function Digits(n: nat): (r: Text)
    ensures |r| > 0
    ensures forall i :: 0 <= i < |r| ==> 48 <= r[i] < 58
  {
    if n < 10 then [48 + n] else Digits(n / 10) + [48 + n % 10]
  }

  /** `i64::to_string`: digits with a leading minus sign when negative. */
  function Decimal(i: int): (r: Text)
    ensures |r| > 0 && (r[0] == 45 <==> i < 0)
  {
    if i < 0 then [45] + Digits(-i) else Digits(i)
  }

  predicate AllDigits(t: Text) {
    forall i :: 0 <= i < |t| ==> 48 <= t[i] < 58
  }

  /** The number a text of digits denotes. */
  function Number(t: Text): nat
    requires AllDigits(t)
  {
    if t == [] then 0 else 10 * Number(t[..|t| - 1]) + (t[|t| - 1] - 48)
  }

  lemma {:induction false} NumberOfDigits(n: nat)
    ensures Number(Digits(n)) == n
  {
    if n >= 10 {
      NumberOfDigits(n / 10);
      assert Digits(n)[..|Digits(n)| - 1] == Digits(n / 10);
    }
  }

  lemma {:induction false} NoLeadingZero(n: nat)
    requires n > 0
    ensures Digits(n)[0] != 48
  {
    if n >= 10 {
      NoLeadingZero(n / 10);
    }
  }

  /** A timestamp is written in decimal, without leading zeros, after a minus sign exactly if it is negative. */
  lemma DecimalExact(i: int)
    ensures var digits := if i < 0 then Decimal(i)[1..] else Decimal(i);
      && AllDigits(digits) && Number(digits) == (if i < 0 then -i else i)
      && (digits[..1] == [48] ==> i == 0)
      && Decimal(i) == (if i < 0 then [45] else []) + digits
  {
    var n := if i < 0 then -i else i;
    NumberOfDigits(n);
    if n > 0 {
      NoLeadingZero(n);
    }
    var digits := if i < 0 then Decimal(i)[1..] else Decimal(i);
    assert digits == Digits(n);
  }

  lemma {:induction false} DigitsInjective(m: nat, n: nat)
    requires Digits(m) == Digits(n)
    ensures m == n
  {
    var a, b := Digits(m), Digits(n);
    assert a[|a| - 1] - 48 == m % 10 && b[|b| - 1] - 48 == n % 10;
    if m >= 10 && n >= 10 {
      assert a[..|a| - 1] == Digits(m / 10) && b[..|b| - 1] == Digits(n / 10);
      DigitsInjective(m / 10, n / 10);
    }
  }

  lemma DecimalInjective(i: int, j: int)
    requires Decimal(i) == Decimal(j)
    ensures i == j
  {
    if i < 0 && j < 0 {
      assert Decimal(i)[1..] == Digits(-i) && Decimal(j)[1..] == Digits(-j);
      DigitsInjective(-i, -j);
    } else if i >= 0 && j >= 0 {
      DigitsInjective(i, j);
    }
  }

  /** The seven fields an entry hash covers. */
  datatype Body = Body(
    entryType: Text,
    agentId: Text,
    content: Text,
    contentType: Text,
    sourceId: Text,
    timestamp: int,
    previousHash: Text)

  function BodyOf(e: Entry): Body {
    Body(e.entryType, e.agentId, e.content, e.contentType, e.sourceId, e.timestamp, e.previousHash)
  }

  /** The bytes hashed for an entry: six fields, then the previous hash. */
  function CanonicalBytes(b: Body): Text {
    b.entryType + (b.agentId + (b.content + (b.contentType + (b.sourceId + (Decimal(b.timestamp) + b.previousHash)))))
  }

  lemma CanonicalSuffix(b: Body)
    ensures var r := CanonicalBytes(b);
            |b.previousHash| <= |r| && r[|r| - |b.previousHash|..] == b.previousHash
  {}

  /**
   A way of hashing entries: the hash a chain starts from, and the hash of an entry's body.
   Chains are reasoned about for every scheme; `Canonical` is the one the ledger uses.
   */
  datatype Scheme = Scheme(genesis: Text, hash: Body -> Text)

  function Canonical(H: Digest, genesisInput: Text): Scheme {
    Scheme(H(genesisInput), (b: Body) => H(CanonicalBytes(b)))
  }

  /** The hashed fields in the order the buffer is extended with them. */
  function Fields(b: Body): seq<Text> {
    [b.entryType, b.agentId, b.content, b.contentType, b.sourceId, Decimal(b.timestamp), b.previousHash]
  }

  function Concat(parts: seq<Text>): Text {
    if parts == [] then [] else parts[0] + Concat(parts[1..])
  }

  lemma BytesAreConcat(b: Body)
    ensures CanonicalBytes(b) == Concat(Fields(b))
  {
    var f := Fields(b);
    assert f[1..][1..] == f[2..] && f[2..][1..] == f[3..] && f[3..][1..] == f[4..];
    assert f[4..][1..] == f[5..] && f[5..][1..] == f[6..] && |f[6..]| == 1;
    assert Concat(f[6..]) == b.previousHash;
    assert Concat(f[5..]) == Decimal(b.timestamp) + Concat(f[6..]);
    assert Concat(f[4..]) == b.sourceId + Concat(f[5..]);
    assert Concat(f[3..]) == b.contentType + Concat(f[4..]);
    assert Concat(f[2..]) == b.content + Concat(f[3..]);
    assert Concat(f[1..]) == b.agentId + Concat(f[2..]);
  }

  /** `b'` is `b` with exactly one of the hashed fields changed. */
  ghost predicate OneHashedFieldChanged(b: Body, b': Body) {
    && b != b'
    && (|| b' == b.(entryType := b'.entryType)
        || b' == b.(agentId := b'.agentId)
        || b' == b.(content := b'.content)
        || b' == b.(contentType := b'.contentType)
        || b' == b.(sourceId := b'.sourceId)
        || b' == b.(timestamp := b'.timestamp)
        || b' == b.(previousHash := b'.previousHash))
  }

  /** Changing one part of a concatenation changes the whole. */
  lemma {:induction false} ConcatDiffers(ps: seq<Text>, qs: seq<Text>, k: nat)
    requires |ps| == |qs| && k < |ps| && qs == ps[k := qs[k]] && ps[k] != qs[k]
    ensures Concat(ps) != Concat(qs)
  {
    var a, b := Concat(ps), Concat(qs);
    if k == 0 {
      assert ps[1..] == qs[1..];
      assert a[..|ps[0]|] == ps[0] && b[..|qs[0]|] == qs[0];
    } else {
      ConcatDiffers(ps[1..], qs[1..], k - 1);
      assert a[|ps[0]|..] == Concat(ps[1..]) && b[|qs[0]|..] == Concat(qs[1..]);
    }
  }

  /** The layout tells apart any two bodies that differ in a single hashed field. */
  lemma OneFieldChangesBytes(b: Body, b': Body)
    requires OneHashedFieldChanged(b, b')
    ensures CanonicalBytes(b) != CanonicalBytes(b')
  {
    var k := if b.entryType != b'.entryType then 0 else if b.agentId != b'.agentId then 1
             else if b.content != b'.content then 2 else if b.contentType != b'.contentType then 3
             else if b.sourceId != b'.sourceId then 4 else if b.timestamp != b'.timestamp then 5 else 6;
    if k == 5 && Decimal(b.timestamp) == Decimal(b'.timestamp) {
      DecimalInjective(b.timestamp, b'.timestamp);
    }
    ConcatDiffers(Fields(b), Fields(b'), k);
    BytesAreConcat(b);
    BytesAreConcat(b');
  }

  /** The hashed texts have the same lengths in both bodies. */
  predicate SameLengths(b: Body, b': Body) {
    && |b.entryType| == |b'.entryType| && |b.agentId| == |b'.agentId| && |b.content| == |b'.content|
    && |b.contentType| == |b'.contentType| && |b.sourceId| == |b'.sourceId| && |b.previousHash| == |b'.previousHash|
  }

  lemma CutSame(a: Text, rest: Text, a': Text, rest': Text)
    requires a + rest == a' + rest' && |a| == |a'|
    ensures a == a' && rest == rest'
  {
    assert (a + rest)[..|a|] == a && (a' + rest')[..|a'|] == a';
    assert (a + rest)[|a|..] == rest && (a' + rest')[|a'|..] == rest';
  }

  /** The layout loses exactly the lengths: a body is determined by its bytes and the lengths of its texts. */
  lemma BytesAndLengthsDetermine(b: Body, b': Body)
    ensures b == b' <==> CanonicalBytes(b) == CanonicalBytes(b') && SameLengths(b, b')
  {
    if CanonicalBytes(b) == CanonicalBytes(b') && SameLengths(b, b') {
      var last, last' := Decimal(b.timestamp) + b.previousHash, Decimal(b'.timestamp) + b'.previousHash;
      var source, source' := b.sourceId + last, b'.sourceId + last';
      var kind, kind' := b.contentType + source, b'.contentType + source';
      var content, content' := b.content + kind, b'.content + kind';
      CutSame(b.entryType, b.agentId + content, b'.entryType, b'.agentId + content');
      CutSame(b.agentId, content, b'.agentId, content');
      CutSame(b.content, kind, b'.content, kind');
      CutSame(b.contentType, source, b'.contentType, source');
      CutSame(b.sourceId, last, b'.sourceId, last');
      CutSame(Decimal(b.timestamp), b.previousHash, Decimal(b'.timestamp), b'.previousHash);
      DecimalInjective(b.timestamp, b'.timestamp);
    }
  }

  /**
   Changing two fields at once can leave the hashed bytes as they were: the fields carry no
   lengths, so a byte moved across a boundary goes unseen.
   */
  lemma BytesDoNotDetermineFields(b: Body, c: Byte)
    ensures CanonicalBytes(b.(entryType := b.entryType + [c]))
         == CanonicalBytes(b.(agentId := [c] + b.agentId))
  {
    var rest := b.content + (b.contentType + (b.sourceId + (Decimal(b.timestamp) + b.previousHash)));
    assert (b.entryType + [c]) + (b.agentId + rest) == b.entryType + (([c] + b.agentId) + rest);
  }
}
