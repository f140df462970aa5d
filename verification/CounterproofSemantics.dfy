/** Semantic binding of counterproof statements through length-prefixed digests. */
module CounterproofSemantics {
  import opened ByteStrings
  import opened Signatures

  /** A hasher that absorbs its input piece by piece. */
  class Hasher {
    var absorbed: Bytes

    constructor (domain: Bytes)
      ensures absorbed == domain
    {
      absorbed := domain;
    }

    method Update(piece: Bytes)
      modifies this
      ensures absorbed == old(absorbed) + piece
    {
      absorbed := absorbed + piece;
    }

    function Digest(h: Hash): Digest
      reads this
    {
      h(absorbed)
    }
  }

  /** A byte string behind its eight-byte length. */
  function LengthPrefixed(v: Bytes): Bytes {
    BigEndian(|v|, 8) + v
  }

  ghost predicate Short(v: Bytes) {
    |v| < Pow256(8)
  }

  lemma LengthPrefixedSplits(a: Bytes, b: Bytes, c: Bytes, d: Bytes)
    requires Short(a) && Short(c)
    requires LengthPrefixed(a) + b == LengthPrefixed(c) + d
    ensures a == c && b == d
  {
    var l, m := BigEndian(|a|, 8), BigEndian(|c|, 8);
    Regroup(l, a, b);
    Regroup(m, c, d);
    SplitEqual(l, a + b, m, c + d);
    BigEndianInjective(|a|, |c|, 8);
    SplitEqual(a, b, c, d);
  }

  // ---------------------------------------------------------------- the game context

  function ContextDomain(): Bytes {
    Ascii("ranklock/counterproof-context/v1") + [0]
  }

  datatype Context = Context(
    programId: Bytes, verifierKeyDigest: Bytes, depositId: Bytes, gameIndex: nat, operatorIndex: nat,
    bridgeProofTxid: Bytes) {
    /** What construction checks; lengths that eight bytes cannot hold do not exist in memory. */
    ghost predicate Valid() {
      && programId != [] && verifierKeyDigest != [] && depositId != [] && bridgeProofTxid != []
      && Short(programId) && Short(verifierKeyDigest) && Short(depositId) && Short(bridgeProofTxid)
      && 0 < gameIndex < Pow256(4) && operatorIndex < Pow256(4)
    }

    function Preimage(): Bytes {
      ContextDomain() + (LengthPrefixed(programId) + (LengthPrefixed(verifierKeyDigest) + (LengthPrefixed(depositId)
      + (LengthPrefixed(bridgeProofTxid) + (BigEndian(gameIndex, 4) + BigEndian(operatorIndex, 4))))))
    }

    function ContextDigest(h: Hash): Digest {
      h(Preimage())
    }
  }

  method ComputeContextDigest(h: Hash, c: Context) returns (d: Digest)
    ensures d == c.ContextDigest(h)
  {
    var domain := ContextDomain();
    var hasher := new Hasher(domain);
    var values := [c.programId, c.verifierKeyDigest, c.depositId, c.bridgeProofTxid];
    for i := 0 to |values|
      invariant hasher.absorbed == domain + Concat(Prefixed(values[..i]))
    {
      PrefixedSnoc(values, i);
      Regroup(domain, Concat(Prefixed(values[..i])), LengthPrefixed(values[i]));
      hasher.Update(LengthPrefixed(values[i]));
    }
    assert values[..|values|] == values;
    var game, operator := BigEndian(c.gameIndex, 4), BigEndian(c.operatorIndex, 4);
    hasher.Update(game);
    hasher.Update(operator);
    FourPrefixed(values, game + operator);
    Regroup4(domain, Concat(Prefixed(values)), game, operator);
    d := hasher.Digest(h);
  }

  ghost function Prefixed(values: seq<Bytes>): (p: seq<Bytes>)
    ensures |p| == |values|
  {
    seq(|values|, i requires 0 <= i < |values| => LengthPrefixed(values[i]))
  }

  lemma PrefixedSnoc(values: seq<Bytes>, i: nat)
    requires i < |values|
    ensures Concat(Prefixed(values[..i + 1])) == Concat(Prefixed(values[..i])) + LengthPrefixed(values[i])
  {
    ConcatSnoc(Prefixed(values[..i]), LengthPrefixed(values[i]));
    assert Prefixed(values[..i + 1]) == Prefixed(values[..i]) + [LengthPrefixed(values[i])];
  }

  lemma FourPrefixed(v: seq<Bytes>, tail: Bytes)
    requires |v| == 4
    ensures Concat(Prefixed(v)) + tail
      == LengthPrefixed(v[0]) + (LengthPrefixed(v[1]) + (LengthPrefixed(v[2]) + (LengthPrefixed(v[3]) + tail)))
  {
    var p := Prefixed(v);
    var none: seq<Bytes> := [];
    assert p[1..][1..] == p[2..] && p[2..][1..] == p[3..] && p[3..][1..] == none;
    assert Concat(p[3..]) == p[3] + Concat(none) == p[3];
    assert Concat(p[2..]) == p[2] + p[3];
    assert Concat(p[1..]) == p[1] + (p[2] + p[3]);
    Regroup(p[0], p[1] + (p[2] + p[3]), tail);
    Regroup(p[1], p[2] + p[3], tail);
    Regroup(p[2], p[3], tail);
  }

  lemma ContextPreimageInjective(c: Context, d: Context)
    requires c.Valid() && d.Valid() && c.Preimage() == d.Preimage()
    ensures c == d
  {
    var dom := ContextDomain();
    var c5 := BigEndian(c.gameIndex, 4) + BigEndian(c.operatorIndex, 4);
    var d5 := BigEndian(d.gameIndex, 4) + BigEndian(d.operatorIndex, 4);
    var c4, d4 := LengthPrefixed(c.bridgeProofTxid) + c5, LengthPrefixed(d.bridgeProofTxid) + d5;
    var c3, d3 := LengthPrefixed(c.depositId) + c4, LengthPrefixed(d.depositId) + d4;
    var c2, d2 := LengthPrefixed(c.verifierKeyDigest) + c3, LengthPrefixed(d.verifierKeyDigest) + d3;
    var c1, d1 := LengthPrefixed(c.programId) + c2, LengthPrefixed(d.programId) + d2;
    assert c.Preimage() == dom + c1 && d.Preimage() == dom + d1;
    SplitEqual(dom, c1, dom, d1);
    LengthPrefixedSplits(c.programId, c2, d.programId, d2);
    LengthPrefixedSplits(c.verifierKeyDigest, c3, d.verifierKeyDigest, d3);
    LengthPrefixedSplits(c.depositId, c4, d.depositId, d4);
    LengthPrefixedSplits(c.bridgeProofTxid, c5, d.bridgeProofTxid, d5);
    SplitEqual(BigEndian(c.gameIndex, 4), BigEndian(c.operatorIndex, 4), BigEndian(d.gameIndex, 4),
               BigEndian(d.operatorIndex, 4));
    BigEndianInjective(c.gameIndex, d.gameIndex, 4);
    BigEndianInjective(c.operatorIndex, d.operatorIndex, 4);
  }

  // ---------------------------------------------------------------- the authenticated bridge proof

  function TransactionPreimage(transaction: Bytes): Bytes {
    Ascii("ranklock/bridge-proof-tx/v1") + [0] + transaction
  }

  lemma TransactionPreimageInjective(a: Bytes, b: Bytes)
    requires TransactionPreimage(a) == TransactionPreimage(b)
    ensures a == b
  {
    var d := Ascii("ranklock/bridge-proof-tx/v1") + [0];
    SplitEqual(d, a, d, b);
  }

  datatype BridgeProof = BridgeProof(
    transaction: Bytes, operatorKey: Bytes, operatorSignature: Bytes, context: Context) {
    function TransactionDigest(h: Hash): Digest {
      h(TransactionPreimage(transaction))
    }

    function SigningPreimage(h: Hash): Bytes {
      Ascii("ranklock/bridge-proof-operator-signature/v1") + [0] + context.ContextDigest(h) + TransactionDigest(h)
    }

    function SigningMessage(h: Hash): Digest {
      h(SigningPreimage(h))
    }

    ghost function Queries(h: Hash): set<Bytes> {
      {SigningPreimage(h), context.Preimage(), TransactionPreimage(transaction)}
    }

    predicate Verifies(h: Hash, scheme: Scheme) {
      && |operatorKey| == 32 && |operatorSignature| == 64
      && context.bridgeProofTxid == TransactionDigest(h)
      && scheme.verify(SigningMessage(h), operatorKey, operatorSignature)
    }
  }

  function AuthenticateBridgeProof(
    h: Hash, scheme: Scheme, transaction: Bytes, secret: int, base: Context): Result<BridgeProof>
  {
    var context := base.(bridgeProofTxid := h(TransactionPreimage(transaction)));
    var key :- scheme.publicKey(secret);
    var placeholder := BridgeProof(transaction, key, Zeros(64), context);
    var signature :- scheme.sign(placeholder.SigningMessage(h), secret);
    Ok(BridgeProof(transaction, key, signature, context))
  }

  // ---------------------------------------------------------------- the positive statement

  function StatementDomain(): Bytes {
    Ascii("ranklock/positive-counterproof-statement/v1") + [0]
  }

  datatype Statement = Statement(proof: BridgeProof, publicValues: Bytes, relationTag: Bytes) {
    ghost predicate Valid() {
      && proof.context.Valid() && publicValues != [] && relationTag != []
      && Short(publicValues) && Short(relationTag)
    }

    function Preimage(h: Hash): Bytes {
      StatementDomain() + (proof.context.ContextDigest(h) + (proof.TransactionDigest(h)
      + (LengthPrefixed(publicValues) + LengthPrefixed(relationTag))))
    }

    function StatementDigest(h: Hash): Digest {
      h(Preimage(h))
    }

    predicate Accepts(h: Hash, scheme: Scheme, proofVerifies: bool, provenFor: Bytes) {
      proof.Verifies(h, scheme) && proofVerifies && provenFor == StatementDigest(h)
    }

    ghost function Queries(h: Hash): set<Bytes> {
      {Preimage(h), proof.context.Preimage(), TransactionPreimage(proof.transaction)}
    }
  }

  method ComputeStatementDigest(h: Hash, s: Statement) returns (d: Digest)
    ensures d == s.StatementDigest(h)
  {
    var domain := StatementDomain();
    var hasher := new Hasher(domain);
    var contextDigest := ComputeContextDigest(h, s.proof.context);
    var transactionDigest := s.proof.TransactionDigest(h);
    hasher.Update(contextDigest);
    hasher.Update(transactionDigest);
    hasher.Update(LengthPrefixed(s.publicValues));
    hasher.Update(LengthPrefixed(s.relationTag));
    Regroup4(domain + contextDigest, transactionDigest, LengthPrefixed(s.publicValues), LengthPrefixed(s.relationTag));
    Regroup(domain, contextDigest,
            transactionDigest + (LengthPrefixed(s.publicValues) + LengthPrefixed(s.relationTag)));
    d := hasher.Digest(h);
  }

  /** Equal statement preimages have equal digests inside and equal variable-length fields. */
  lemma StatementPreimageSplits(h: Hash, s: Statement, t: Statement)
    requires s.Valid() && t.Valid() && s.Preimage(h) == t.Preimage(h)
    ensures s.proof.context.ContextDigest(h) == t.proof.context.ContextDigest(h)
    ensures s.proof.TransactionDigest(h) == t.proof.TransactionDigest(h)
    ensures s.publicValues == t.publicValues && s.relationTag == t.relationTag
  {
    var dom := StatementDomain();
    var sc: Bytes, tc: Bytes := s.proof.context.ContextDigest(h), t.proof.context.ContextDigest(h);
    var st: Bytes, tt: Bytes := s.proof.TransactionDigest(h), t.proof.TransactionDigest(h);
    var s2, t2 := LengthPrefixed(s.relationTag), LengthPrefixed(t.relationTag);
    var s1, t1 := LengthPrefixed(s.publicValues) + s2, LengthPrefixed(t.publicValues) + t2;
    SplitEqual(dom, sc + (st + s1), dom, tc + (tt + t1));
    SplitEqual(sc, st + s1, tc, tt + t1);
    SplitEqual(st, s1, tt, t1);
    LengthPrefixedSplits(s.publicValues, s2, t.publicValues, t2);
    assert s2 + [] == s2 && t2 + [] == t2;
    LengthPrefixedSplits(s.relationTag, [], t.relationTag, []);
  }

  /** Without collisions one statement digest names one context, transaction, value string and relation tag. */
  lemma StatementDigestBinds(h: Hash, s: Statement, t: Statement)
    requires s.Valid() && t.Valid() && CollisionFree(h, s.Queries(h) + t.Queries(h))
    requires s.StatementDigest(h) == t.StatementDigest(h)
    ensures s.proof.context == t.proof.context && s.proof.transaction == t.proof.transaction
    ensures s.publicValues == t.publicValues && s.relationTag == t.relationTag
  {
    StatementPreimageSplits(h, s, t);
    ContextPreimageInjective(s.proof.context, t.proof.context);
    TransactionPreimageInjective(s.proof.transaction, t.proof.transaction);
  }

  /** A digest that a proof was made for is accepted by at most one semantic statement, whoever signed it. */
  lemma AcceptedStatementUnique(h: Hash, scheme: Scheme, s: Statement, t: Statement, provenFor: Bytes)
    requires s.Valid() && t.Valid() && CollisionFree(h, s.Queries(h) + t.Queries(h))
    requires s.Accepts(h, scheme, true, provenFor) && t.Accepts(h, scheme, true, provenFor)
    ensures s.proof.context == t.proof.context && s.proof.transaction == t.proof.transaction
    ensures s.publicValues == t.publicValues && s.relationTag == t.relationTag
    ensures s.proof.SigningMessage(h) == t.proof.SigningMessage(h)
  {
    StatementDigestBinds(h, s, t);
  }

  /** A signed transaction verifies, under its own transaction digest and otherwise unchanged context. */
  lemma AuthenticatedProofVerifies(h: Hash, scheme: Scheme, transaction: Bytes, secret: int, base: Context)
    requires scheme.Correct() && AuthenticateBridgeProof(h, scheme, transaction, secret, base).Ok?
    ensures var p := AuthenticateBridgeProof(h, scheme, transaction, secret, base).value;
      && p.Verifies(h, scheme) && p.transaction == transaction
      && p.context == base.(bridgeProofTxid := p.TransactionDigest(h))
  {
    var p := AuthenticateBridgeProof(h, scheme, transaction, secret, base).value;
    assert p.SigningMessage(h) == BridgeProof(transaction, p.operatorKey, Zeros(64), p.context).SigningMessage(h);
    assert scheme.publicKey(secret).Ok? && scheme.sign(p.SigningMessage(h), secret).Ok?;
  }

  // ---------------------------------------------------------------- what is rejected, and what was signed

  /** A statement is accepted exactly when none of these checks fails. */
  lemma AcceptsExactly(h: Hash, scheme: Scheme, s: Statement, proofVerifies: bool, provenFor: Bytes)
    ensures var p := s.proof;
      !s.Accepts(h, scheme, proofVerifies, provenFor)
      <==> || |p.operatorKey| != 32 || |p.operatorSignature| != 64
           || p.context.bridgeProofTxid != h(TransactionPreimage(p.transaction))
           || !scheme.verify(h(p.SigningPreimage(h)), p.operatorKey, p.operatorSignature)
           || !proofVerifies || provenFor != h(s.Preimage(h))
  {
  }

  /** A signed message names one context and one transaction. */
  lemma SigningMessageBinds(h: Hash, p: BridgeProof, r: BridgeProof)
    requires p.context.Valid() && r.context.Valid() && CollisionFree(h, p.Queries(h) + r.Queries(h))
    requires p.SigningMessage(h) == r.SigningMessage(h)
    ensures p.context == r.context && p.transaction == r.transaction
  {
    var dom := Ascii("ranklock/bridge-proof-operator-signature/v1") + [0];
    var c: Bytes, c': Bytes := p.context.ContextDigest(h), r.context.ContextDigest(h);
    var t: Bytes, t': Bytes := p.TransactionDigest(h), r.TransactionDigest(h);
    SplitEqual(dom + c, t, dom + c', t');
    SplitEqual(dom, c, dom, c');
    ContextPreimageInjective(p.context, r.context);
    TransactionPreimageInjective(p.transaction, r.transaction);
  }

  /** The operator's signature, if it verifies under its key, was made over the message of a proof it signed. */
  ghost predicate Unforged(h: Hash, scheme: Scheme, p: BridgeProof, signed: set<BridgeProof>) {
    scheme.verify(p.SigningMessage(h), p.operatorKey, p.operatorSignature) ==>
      exists r :: r in signed && r.SigningMessage(h) == p.SigningMessage(h)
  }

  ghost function SignedQueries(h: Hash, signed: set<BridgeProof>): set<Bytes> {
    set r, q | r in signed && q in r.Queries(h) :: q
  }

  /** So every accepted statement is about a context and a transaction that the operator signed together. */
  lemma AcceptedWasSigned(
    h: Hash, scheme: Scheme, s: Statement, provenFor: Bytes, signed: set<BridgeProof>)
    requires s.Valid() && s.Accepts(h, scheme, true, provenFor) && Unforged(h, scheme, s.proof, signed)
    requires forall r :: r in signed ==> r.context.Valid()
    requires CollisionFree(h, s.proof.Queries(h) + SignedQueries(h, signed))
    ensures exists r :: r in signed && r.context == s.proof.context && r.transaction == s.proof.transaction
  {
    var r :| r in signed && r.SigningMessage(h) == s.proof.SigningMessage(h);
    assert r.Queries(h) <= SignedQueries(h, signed);
    SigningMessageBinds(h, s.proof, r);
  }
}
