/** The request tag of desktop_bridge.rs: a digest of NUL-separated fields.

    SHA-256 is a function into 32 bytes about which nothing else is assumed, so
    binding statements read "the fields agree, or these two inputs collide". */
module RequestTags {
  import opened Bytes
  import opened Encoders
  import opened CanonicalJson
  import opened JsonText

  type Sha256 = sha: Text -> seq<byte> | forall m :: |sha(m)| == 32
    witness (m: Text) => seq(32, _ => 0)

  function Digest(sha: Sha256, m: Text): (d: Utf8)
    ensures |d| == 64
  {
    LowerHexIsUtf8(sha(m));
    LowerHex(sha(m))
  }

  ghost predicate Collides(sha: Sha256, a: Text, b: Text) {
    a != b && sha(a) == sha(b)
  }

  lemma {:induction false} DigestBinds(sha: Sha256, a: Text, b: Text)
    requires Digest(sha, a) == Digest(sha, b)
    ensures a == b || Collides(sha, a, b)
  {
    LowerHexRoundTrip(sha(a));
    LowerHexRoundTrip(sha(b));
  }

  function ParamsDigest(sha: Sha256, params: Json): (d: Utf8)
    ensures |d| == 64
  {
    Digest(sha, CanonicalText(params))
  }

  // --- The preimage -------------------------------------------------------

  function TagDomain(): Text { Ascii("unpin.desktop.bridge.request.v1") }

  datatype TagFields = TagFields(
    secret: Text, sequence: nat, id: Text, methodName: Text,
    operationId: Text, fingerprint: Text, paramsDigest: Text)

  function JoinNul(parts: seq<Text>): Text
    requires parts != []
  {
    if |parts| == 1 then parts[0] else parts[0] + ([NUL] + JoinNul(parts[1..]))
  }

  function Preimage(f: TagFields): Text {
    JoinNul([TagDomain(), f.secret, Decimal(f.sequence), f.id, f.methodName, f.operationId, f.fingerprint, f.paramsDigest])
  }

  predicate NulFree(t: Text) {
    forall i | 0 <= i < |t| :: t[i] != NUL
  }

  /** What the handshake and request checks guarantee about the fields. */
  predicate PassesChecks(f: TagFields) {
    NulFree(f.secret) && NulFree(f.id) && |f.fingerprint| == 64 && |f.paramsDigest| == 64
  }

  /** Fields without a NUL are read off from the left. */
  lemma NulSplit(a: Text, x: Text, b: Text, y: Text)
    requires NulFree(a) && NulFree(b) && a + ([NUL] + x) == b + ([NUL] + y)
    ensures a == b && x == y
  {
    var s := a + ([NUL] + x);
    assert s[|a|] == NUL && s[|b|] == NUL;
    assert forall i | 0 <= i < |a| :: s[i] == a[i];
    assert forall i | 0 <= i < |b| :: s[i] == b[i];
    assert |a| == |b|;
    SplitEqual(a, [NUL] + x, b, [NUL] + y);
    SplitEqual([NUL], x, [NUL], y);
  }

  /** Fields of a known width are read off from the right. */
  lemma SplitEqualRight(x: Text, a: Text, y: Text, b: Text)
    requires |a| == |b| && x + a == y + b
    ensures x == y && a == b
  {
    assert |x + a| == |y + b|;
    SplitEqual(x, a, y, b);
  }

  /** Method and operation id, the only two fields whose border can blur. */
  function Named(f: TagFields): Text {
    f.methodName + ([NUL] + f.operationId)
  }

  function Trailer(f: TagFields): Text {
    [NUL] + (f.fingerprint + ([NUL] + f.paramsDigest))
  }

  lemma JoinStep(head: Text, rest: seq<Text>)
    requires rest != []
    ensures JoinNul([head] + rest) == head + ([NUL] + JoinNul(rest))
  {
    assert ([head] + rest)[1..] == rest;
  }

  function Body(f: TagFields): Text {
    JoinNul([f.methodName, f.operationId, f.fingerprint, f.paramsDigest])
  }

  lemma PreimageText(f: TagFields)
    ensures Preimage(f) ==
            TagDomain() + ([NUL] + (f.secret + ([NUL] + (Decimal(f.sequence) + ([NUL] + (f.id + ([NUL] + Body(f))))))))
  {
    var parts := [f.methodName, f.operationId, f.fingerprint, f.paramsDigest];
    var p3 := [f.id] + parts;
    var p2 := [Decimal(f.sequence)] + p3;
    var p1 := [f.secret] + p2;
    JoinStep(f.id, parts);
    JoinStep(Decimal(f.sequence), p3);
    JoinStep(f.secret, p2);
    JoinStep(TagDomain(), p1);
    assert [TagDomain()] + p1 ==
           [TagDomain(), f.secret, Decimal(f.sequence), f.id, f.methodName, f.operationId, f.fingerprint, f.paramsDigest];
  }

  lemma BodyText(f: TagFields)
    ensures Body(f) == Named(f) + Trailer(f)
  {
    JoinStep(f.fingerprint, [f.paramsDigest]);
    JoinStep(f.operationId, [f.fingerprint, f.paramsDigest]);
    JoinStep(f.methodName, [f.operationId, f.fingerprint, f.paramsDigest]);
    assert [f.fingerprint] + [f.paramsDigest] == [f.fingerprint, f.paramsDigest];
    assert [f.operationId] + [f.fingerprint, f.paramsDigest] == [f.operationId, f.fingerprint, f.paramsDigest];
    assert [f.methodName] + [f.operationId, f.fingerprint, f.paramsDigest]
        == [f.methodName, f.operationId, f.fingerprint, f.paramsDigest];
    Regroup([NUL], f.operationId, Trailer(f));
    Regroup(f.methodName, [NUL] + f.operationId, Trailer(f));
  }

  /** Without any condition on the method: equal preimages mean equal fields,
      except that a NUL may sit on either side of the method's border. */
  lemma PreimagesAgree(f: TagFields, g: TagFields)
    requires PassesChecks(f) && PassesChecks(g)
    ensures Preimage(f) == Preimage(g) <==>
            && f.secret == g.secret && f.sequence == g.sequence && f.id == g.id
            && Named(f) == Named(g)
            && f.fingerprint == g.fingerprint && f.paramsDigest == g.paramsDigest
  {
    PreimageText(f); PreimageText(g);
    BodyText(f); BodyText(g);
    if Preimage(f) == Preimage(g) {
      FieldsAgree(f, g);
    }
  }

  lemma FieldsAgree(f: TagFields, g: TagFields)
    requires PassesChecks(f) && PassesChecks(g)
    requires Preimage(f) == Preimage(g)
    ensures f.secret == g.secret && f.sequence == g.sequence && f.id == g.id
    ensures Named(f) == Named(g) && f.fingerprint == g.fingerprint && f.paramsDigest == g.paramsDigest
  {
    PreimageText(f); PreimageText(g);
    var f3, g3 := f.id + ([NUL] + Body(f)), g.id + ([NUL] + Body(g));
    var f2, g2 := Decimal(f.sequence) + ([NUL] + f3), Decimal(g.sequence) + ([NUL] + g3);
    var f1, g1 := f.secret + ([NUL] + f2), g.secret + ([NUL] + g2);
    SplitEqual(TagDomain(), [NUL] + f1, TagDomain(), [NUL] + g1);
    SplitEqual([NUL], f1, [NUL], g1);
    NulSplit(f.secret, f2, g.secret, g2);
    NulSplit(Decimal(f.sequence), f3, Decimal(g.sequence), g3);
    DecimalRoundTrip(f.sequence); DecimalRoundTrip(g.sequence);
    NulSplit(f.id, Body(f), g.id, Body(g));
    BodyText(f); BodyText(g);
    SplitEqualRight(Named(f), Trailer(f), Named(g), Trailer(g));
    SplitEqual([NUL], f.fingerprint + ([NUL] + f.paramsDigest), [NUL], g.fingerprint + ([NUL] + g.paramsDigest));
    SplitEqual(f.fingerprint, [NUL] + f.paramsDigest, g.fingerprint, [NUL] + g.paramsDigest);
    SplitEqual([NUL], f.paramsDigest, [NUL], g.paramsDigest);
  }

  /** With methods that hold no NUL, as every dispatched method, the preimage is
      uniquely decodable. */
  lemma PreimageUnique(f: TagFields, g: TagFields)
    requires PassesChecks(f) && PassesChecks(g) && NulFree(f.methodName) && NulFree(g.methodName)
    requires Preimage(f) == Preimage(g)
    ensures f == g
  {
    FieldsAgree(f, g);
    NulSplit(f.methodName, f.operationId, g.methodName, g.operationId);
  }

  /** A method holding a NUL does share its preimage with another request. */
  lemma NulInMethodBlurs(f: TagFields, head: Text, tail: Text)
    requires PassesChecks(f) && f.methodName == head + ([NUL] + tail)
    ensures var g := f.(methodName := head, operationId := tail + ([NUL] + f.operationId));
            Preimage(f) == Preimage(g) && f != g
  {
    var g := f.(methodName := head, operationId := tail + ([NUL] + f.operationId));
    Regroup(head, [NUL] + tail, [NUL] + f.operationId);
    Regroup([NUL], tail, [NUL] + f.operationId);
    PreimagesAgree(f, g);
    assert |f.methodName| > |head|;
  }

  /** Equal tags over fields whose digest covers the params: everything agrees,
      the params up to key order, unless SHA-256 collides on the named inputs. */
  lemma {:induction false} TagBindsRequest(sha: Sha256, f: TagFields, g: TagFields, p: Json, q: Json)
    requires PassesChecks(f) && PassesChecks(g) && NulFree(f.methodName) && NulFree(g.methodName)
    requires f.paramsDigest == ParamsDigest(sha, p) && g.paramsDigest == ParamsDigest(sha, q)
    requires DistinctKeys(p) && DistinctKeys(q) && Encodable(p) && Encodable(q)
    requires Digest(sha, Preimage(f)) == Digest(sha, Preimage(g))
    ensures || (f == g && SameUpToKeyOrder(p, q))
            || Collides(sha, Preimage(f), Preimage(g))
            || Collides(sha, CanonicalText(p), CanonicalText(q))
  {
    DigestBinds(sha, Preimage(f), Preimage(g));
    if Preimage(f) == Preimage(g) {
      PreimageUnique(f, g);
      DigestBinds(sha, CanonicalText(p), CanonicalText(q));
      CanonicalTextsAgree(p, q);
    }
  }
}
