/** Positive Groth16 locks: session algebra, masking, both lock versions and the v2 codec. */
module PositiveLock {
  import opened ByteStrings
  import opened PrimeField
  import opened Groups

  /** The group order and the point encodings; decG2 rejects what does not decompress. */
  datatype Curve = Curve(q: nat, encG1: nat -> Bytes, encG2: nat -> Bytes, decG2: Bytes -> Wire, encGt: nat -> Bytes) {
    ghost predicate Lawful() {
      && Prime(q)
      && forall e: nat :: 0 < e < q ==> |encG2(e)| == 64 && decG2(encG2(e)) == Point(e)
    }

    /** Encodings of G1 and GT have one width each and tell elements apart. */
    ghost predicate Distinguishes() {
      && (forall e: nat :: 0 < e < q ==> |encG1(e)| == 32)
      && (forall e: nat, f: nat :: 0 < e < q && 0 < f < q && encG1(e) == encG1(f) ==> e == f)
      && (forall e: nat :: e < q ==> |encGt(e)| == 384)
      && (forall e: nat, f: nat :: e < q && f < q && encGt(e) == encGt(f) ==> e == f)
    }
  }

  datatype VerifyingKey = VerifyingKey(alpha: nat, beta: nat, gamma: nat, delta: nat, ic: seq<nat>, context: Bytes) {
    predicate Valid(q: nat) {
      && 0 < alpha < q && 0 < beta < q && 0 < gamma < q && 0 < delta < q
      && ic != [] && (forall i :: 0 <= i < |ic| ==> 0 < ic[i] < q)
      && context != []
    }
  }

  datatype Proof = Proof(a: nat, b: nat, c: nat) {
    predicate Valid(q: nat) {
      0 < a < q && 0 < b < q && 0 < c < q
    }
  }

  datatype LockV1 = LockV1(vkDigest: Digest, statementDigest: Digest, rDelta: Bytes, masked: Bytes, payloadHash: Digest)

  datatype LockV2 = LockV2(vkDigest: Digest, statementDigest: Digest, rDelta: Bytes, masked: Bytes) {
    /** What construction of a lock checks. */
    predicate Valid(curve: Curve) {
      |rDelta| == 64 && Decodes(curve.decG2(rDelta), curve.q) && masked != []
    }
  }

  // ---------------------------------------------------------------- the mask stream

  function BlockPreimage(domain: Bytes, session: Bytes, counter: nat): Bytes {
    domain + session + BigEndian(counter, 4)
  }

  function Block(h: Hash, domain: Bytes, session: Bytes, counter: nat): Digest {
    h(BlockPreimage(domain, session, counter))
  }

  function Blocks(h: Hash, domain: Bytes, session: Bytes, n: nat): (s: Bytes)
    ensures |s| == 32 * n
  {
    if n == 0 then [] else Blocks(h, domain, session, n - 1) + Block(h, domain, session, n - 1)
  }

  function BlocksFor(length: nat): nat {
    (length + 31) / 32
  }

  /** The first bytes of the block stream; a counter beyond four bytes raises. */
  function Mask(h: Hash, domain: Bytes, session: Bytes, length: nat): (r: Result<Bytes>)
    ensures r.Ok? <==> BlocksFor(length) <= Pow256(4)
    ensures r.Ok? ==> |r.value| == length
  {
    if BlocksFor(length) <= Pow256(4) then Ok(Blocks(h, domain, session, BlocksFor(length))[..length]) else Err
  }

  method HashStream(h: Hash, domain: Bytes, session: Bytes, length: nat) returns (r: Result<Bytes>)
    ensures r == Mask(h, domain, session, length)
  {
    var output: Bytes := [];
    var counter := 0;
    while |output| < length
      invariant counter <= BlocksFor(length) && counter <= Pow256(4)
      invariant output == Blocks(h, domain, session, counter)
    {
      var encoded := Fixed(counter, 4);
      if encoded.Err? {
        return Err;
      }
      output := output + h(domain + session + encoded.value);
      counter := counter + 1;
    }
    assert counter == BlocksFor(length);
    return Ok(output[..length]);
  }

  /** A shorter mask is a prefix of a longer one. */
  lemma MaskPrefix(h: Hash, domain: Bytes, session: Bytes, short: nat, long: nat)
    requires short <= long && BlocksFor(long) <= Pow256(4)
    ensures Mask(h, domain, session, short).Ok? && Mask(h, domain, session, long).Ok?
    ensures Mask(h, domain, session, short).value <= Mask(h, domain, session, long).value
  {
    BlocksPrefix(h, domain, session, BlocksFor(short), BlocksFor(long));
  }

  /** Bytes 32i to 32i + 32 of a mask are block i. */
  lemma MaskBlock(h: Hash, domain: Bytes, session: Bytes, length: nat, i: nat)
    requires 32 * (i + 1) <= length && BlocksFor(length) <= Pow256(4)
    ensures Mask(h, domain, session, length).value[32 * i..32 * (i + 1)] == Block(h, domain, session, i)
  {
    var stream := Blocks(h, domain, session, BlocksFor(length));
    BlocksPrefix(h, domain, session, i + 1, BlocksFor(length));
    assert stream[..32 * (i + 1)] == Blocks(h, domain, session, i) + Block(h, domain, session, i);
    assert stream[..length][32 * i..32 * (i + 1)] == stream[..32 * (i + 1)][32 * i..];
  }

  lemma {:induction false} BlocksPrefix(h: Hash, domain: Bytes, session: Bytes, m: nat, n: nat)
    requires m <= n
    ensures Blocks(h, domain, session, m) <= Blocks(h, domain, session, n)
    decreases n - m
  {
    if m == n {
    } else {
      BlocksPrefix(h, domain, session, m + 1, n);
    }
  }

  // ---------------------------------------------------------------- the statement

  predicate Canonical(values: seq<int>, q: nat) {
    forall i :: 0 <= i < |values| ==> 0 <= values[i] < q
  }

  /** sum of ic[i+1] * values[i] for i < n. */
  function InputTerms(ic: seq<nat>, values: seq<int>, n: nat, q: nat): nat
    requires q > 0 && n <= |values| && |values| < |ic|
  {
    if n == 0 then 0 else InputTerms(ic, values, n - 1, q) + Multiply(ic[n], values[n - 1], q)
  }

  /** vk_x as an exponent. */
  function Accumulated(vk: VerifyingKey, values: seq<int>, q: nat): Result<nat>
    requires q > 0
  {
    if |values| + 1 == |vk.ic| && Canonical(values, q)
    then Ok((vk.ic[0] + InputTerms(vk.ic, values, |values|, q)) % q)
    else Err
  }

  method SumG1(points: seq<nat>, q: nat) returns (result: nat)
    requires q > 0
    ensures result == Sum(points) % q
  {
    result := Multiply(1, 0, q);
    SmallMod(0, q);
    for i := 0 to |points|
      invariant result == Sum(points[..i]) % q
    {
      SumPrefix(points, i);
      AddMod(Sum(points[..i]), points[i], q);
      result := Add(result, points[i], q);
    }
    assert points[..|points|] == points;
  }

  lemma InputTermsStep(ic: seq<nat>, values: seq<int>, n: nat, q: nat)
    requires q > 0 && n < |values| < |ic|
    ensures InputTerms(ic, values, n + 1, q) == InputTerms(ic, values, n, q) + Multiply(ic[n + 1], values[n], q)
  {
  }

  method Accumulator(vk: VerifyingKey, values: seq<int>, q: nat) returns (r: Result<nat>)
    requires q > 0 && vk.Valid(q)
    ensures r == Accumulated(vk, values, q)
  {
    if |values| + 1 != |vk.ic| {
      return Err;
    }
    var points := [vk.ic[0]];
    for i := 0 to |values|
      invariant forall j :: 0 <= j < i ==> 0 <= values[j] < q
      invariant Sum(points) == vk.ic[0] + InputTerms(vk.ic, values, i, q)
    {
      if !(0 <= values[i] < q) {
        return Err;
      }
      var term := Multiply(vk.ic[i + 1], values[i], q);
      SumSnoc(points, term);
      InputTermsStep(vk.ic, values, i, q);
      points := points + [term];
    }
    var sum := SumG1(points, q);
    return Ok(sum);
  }

  function EncodedIc(curve: Curve, ic: seq<nat>): (e: seq<Bytes>)
    ensures |e| == |ic| && forall i :: 0 <= i < |ic| ==> e[i] == curve.encG1(ic[i])
  {
    seq(|ic|, i requires 0 <= i < |ic| => curve.encG1(ic[i]))
  }

  function VkPreimage(curve: Curve, vk: VerifyingKey): Result<Bytes> {
    var contextLength :- Fixed(|vk.context|, 4);
    var icLength :- Fixed(|vk.ic|, 4);
    Ok(Ascii("ranklock/positive-groth16-vk/v1") + [0] + (contextLength + (vk.context
      + (curve.encG1(vk.alpha) + (curve.encG2(vk.beta) + (curve.encG2(vk.gamma) + (curve.encG2(vk.delta)
      + (icLength + Concat(EncodedIc(curve, vk.ic))))))))))
  }

  function VkDigest(h: Hash, curve: Curve, vk: VerifyingKey): Result<Digest> {
    var preimage :- VkPreimage(curve, vk);
    Ok(h(preimage))
  }

  /** A key digest names one verifying key: its context, its four points and its input points. */
  lemma VkPreimageBinds(curve: Curve, vk: VerifyingKey, vk': VerifyingKey)
    requires curve.Lawful() && curve.Distinguishes() && vk.Valid(curve.q) && vk'.Valid(curve.q)
    requires VkPreimage(curve, vk).Ok? && VkPreimage(curve, vk) == VkPreimage(curve, vk')
    ensures vk == vk'
  {
    var dom := Ascii("ranklock/positive-groth16-vk/v1") + [0];
    var l, l' := BigEndian(|vk.context|, 4), BigEndian(|vk'.context|, 4);
    var n, n' := BigEndian(|vk.ic|, 4), BigEndian(|vk'.ic|, 4);
    var a, a', b, b' := curve.encG1(vk.alpha), curve.encG1(vk'.alpha), curve.encG2(vk.beta), curve.encG2(vk'.beta);
    var g, g', d, d' := curve.encG2(vk.gamma), curve.encG2(vk'.gamma), curve.encG2(vk.delta), curve.encG2(vk'.delta);
    var t, t' := Concat(EncodedIc(curve, vk.ic)), Concat(EncodedIc(curve, vk'.ic));
    var points, points' := a + (b + (g + (d + (n + t)))), a' + (b' + (g' + (d' + (n' + t'))));
    SplitEqual(dom, l + (vk.context + points), dom, l' + (vk'.context + points'));
    SplitEqual(l, vk.context + points, l', vk'.context + points');
    BigEndianInjective(|vk.context|, |vk'.context|, 4);
    SplitEqual(vk.context, points, vk'.context, points');
    SplitEqual(a, b + (g + (d + (n + t))), a', b' + (g' + (d' + (n' + t'))));
    SplitEqual(b, g + (d + (n + t)), b', g' + (d' + (n' + t')));
    SplitEqual(g, d + (n + t), g', d' + (n' + t'));
    SplitEqual(d, n + t, d', n' + t');
    SplitEqual(n, t, n', t');
    G2Binds(curve, vk.beta, vk'.beta);
    G2Binds(curve, vk.gamma, vk'.gamma);
    G2Binds(curve, vk.delta, vk'.delta);
    IcBinds(curve, vk.ic, vk'.ic);
  }

  lemma G2Binds(curve: Curve, e: nat, f: nat)
    requires curve.Lawful() && 0 < e < curve.q && 0 < f < curve.q && curve.encG2(e) == curve.encG2(f)
    ensures e == f
  {
    assert curve.decG2(curve.encG2(e)) == Point(e) && curve.decG2(curve.encG2(f)) == Point(f);
  }

  lemma IcBinds(curve: Curve, ic: seq<nat>, ic': seq<nat>)
    requires curve.Distinguishes()
    requires (forall i :: 0 <= i < |ic| ==> 0 < ic[i] < curve.q) && forall i :: 0 <= i < |ic'| ==> 0 < ic'[i] < curve.q
    requires Concat(EncodedIc(curve, ic)) == Concat(EncodedIc(curve, ic'))
    ensures ic == ic'
  {
    var e, e' := EncodedIc(curve, ic), EncodedIc(curve, ic');
    ConcatInjective(e, e', 32);
    forall i | 0 <= i < |ic|
      ensures ic[i] == ic'[i]
    {
      assert e[i] == e'[i];
    }
  }

  function ValueBytes(values: seq<int>, q: nat): Result<Bytes> {
    if Canonical(values, q)
    then Ok(Concat(seq(|values|, i requires 0 <= i < |values| => BigEndian(values[i], 32))))
    else Err
  }

  function StatementPreimage(vkDigest: Digest, values: seq<int>, sessionContext: Bytes, q: nat): Result<Bytes> {
    var contextLength :- Fixed(|sessionContext|, 4);
    var count :- Fixed(|values|, 4);
    var encoded :- ValueBytes(values, q);
    Ok(Ascii("ranklock/babe-positive-statement/v1") + [0] + vkDigest + contextLength + sessionContext + count + encoded)
  }

  function StatementDigest(
    h: Hash, curve: Curve, vk: VerifyingKey, values: seq<int>, sessionContext: Bytes): Result<Digest>
  {
    var vkDigest :- VkDigest(h, curve, vk);
    var preimage :- StatementPreimage(vkDigest, values, sessionContext, curve.q);
    Ok(h(preimage))
  }

  lemma Nested(a: Bytes, b: Bytes, c: Bytes, d: Bytes, e: Bytes, f: Bytes)
    ensures a + b + c + d + e + f == a + (b + (c + (d + (e + f))))
  {
    Regroup(a + b + c + d, e, f);
    Regroup4(a, b, c, d + (e + f));
    Regroup(a + b + c, d, e + f);
  }

  /** One statement digest names one key digest, one session context and one input vector. */
  lemma StatementBinding(
    h: Hash, q: nat, d: Digest, values: seq<int>, context: Bytes, d': Digest, values': seq<int>, context': Bytes)
    requires 0 < q <= Pow256(32)
    requires StatementPreimage(d, values, context, q).Ok? && StatementPreimage(d', values', context', q).Ok?
    requires CollisionFree(h, {StatementPreimage(d, values, context, q).value,
                               StatementPreimage(d', values', context', q).value})
    requires h(StatementPreimage(d, values, context, q).value) == h(StatementPreimage(d', values', context', q).value)
    ensures d == d' && context == context' && values == values'
  {
    var dom := Ascii("ranklock/babe-positive-statement/v1") + [0];
    var l, l' := BigEndian(|context|, 4), BigEndian(|context'|, 4);
    var n, n' := BigEndian(|values|, 4), BigEndian(|values'|, 4);
    var e, e' := ValueBytes(values, q).value, ValueBytes(values', q).value;
    Nested(dom, d, l, context, n, e);
    Nested(dom, d', l', context', n', e');
    SplitEqual(dom, d + (l + (context + (n + e))), dom, d' + (l' + (context' + (n' + e'))));
    SplitEqual(d, l + (context + (n + e)), d', l' + (context' + (n' + e')));
    SplitEqual(l, context + (n + e), l', context' + (n' + e'));
    BigEndianInjective(|context|, |context'|, 4);
    SplitEqual(context, n + e, context', n' + e');
    SplitEqual(n, e, n', e');
    ValueBytesInjective(values, values', q);
  }

  /** The statement of a lock: key, inputs and session context. */
  datatype Statement = Statement(vk: VerifyingKey, values: seq<int>, session: Bytes) {
    function StatementDigestOf(h: Hash, curve: Curve): Result<Digest> {
      StatementDigest(h, curve, vk, values, session)
    }

    /** The two strings that are hashed for it. */
    ghost function Queries(h: Hash, curve: Curve): set<Bytes> {
      match VkPreimage(curve, vk)
      case Err => {}
      case Ok(key) =>
        var statement := StatementPreimage(h(key), values, session, curve.q);
        {key} + if statement.Ok? then {statement.value} else {}
    }
  }

  lemma StatementParts(h: Hash, curve: Curve, s: Statement)
    requires s.StatementDigestOf(h, curve).Ok?
    ensures VkPreimage(curve, s.vk).Ok?
    ensures var key := VkPreimage(curve, s.vk).value;
      var own := StatementPreimage(h(key), s.values, s.session, curve.q);
      && own.Ok? && s.StatementDigestOf(h, curve) == Ok(h(own.value))
      && key in s.Queries(h, curve) && own.value in s.Queries(h, curve)
  {
  }

  /** Without collisions a statement digest names one key with all its points, one input vector and one session. */
  lemma StatementDigestNames(h: Hash, curve: Curve, s: Statement, t: Statement)
    requires curve.Lawful() && curve.Distinguishes() && curve.q <= Pow256(32)
    requires s.vk.Valid(curve.q) && t.vk.Valid(curve.q)
    requires s.StatementDigestOf(h, curve).Ok? && s.StatementDigestOf(h, curve) == t.StatementDigestOf(h, curve)
    requires CollisionFree(h, s.Queries(h, curve) + t.Queries(h, curve))
    ensures s == t
  {
    StatementParts(h, curve, s);
    StatementParts(h, curve, t);
    var key, key' := VkPreimage(curve, s.vk).value, VkPreimage(curve, t.vk).value;
    var own := StatementPreimage(h(key), s.values, s.session, curve.q).value;
    var own' := StatementPreimage(h(key'), t.values, t.session, curve.q).value;
    StatementBinding(h, curve.q, h(key), s.values, s.session, h(key'), t.values, t.session);
    VkPreimageBinds(curve, s.vk, t.vk);
  }

  lemma ValueBytesInjective(values: seq<int>, values': seq<int>, q: nat)
    requires 0 < q <= Pow256(32) && Canonical(values, q) && Canonical(values', q)
    requires ValueBytes(values, q) == ValueBytes(values', q)
    ensures values == values'
  {
    var p := seq(|values|, i requires 0 <= i < |values| => BigEndian(values[i], 32));
    var p' := seq(|values'|, i requires 0 <= i < |values'| => BigEndian(values'[i], 32));
    ConcatInjective(p, p', 32);
    forall i | 0 <= i < |values|
      ensures values[i] == values'[i]
    {
      assert p[i] == p'[i];
      BigEndianInjective(values[i], values'[i], 32);
    }
  }

  /** e(alpha, beta) * e(vk_x, gamma) as an exponent of GT. */
  function StatementSession(vk: VerifyingKey, values: seq<int>, q: nat): Result<nat>
    requires q > 0
  {
    var x :- Accumulated(vk, values, q);
    Ok(PairingProduct2(vk.alpha, vk.beta, x, vk.gamma, q))
  }

  /** e(A, B) == Y * e(C, delta); a bad input vector raises instead. */
  function VerifyProof(vk: VerifyingKey, values: seq<int>, proof: Proof, q: nat): Result<bool>
    requires q > 0
  {
    var y :- StatementSession(vk, values, q);
    Ok((proof.a * proof.b) % q == (y + (proof.c * vk.delta) % q) % q)
  }

  // ---------------------------------------------------------------- what the accumulator distinguishes

  /** The inner product of points and scalars, from the front. */
  ghost function InnerProduct(points: seq<nat>, scalars: seq<int>): int
    requires |points| == |scalars|
  {
    if points == [] then 0 else points[0] * scalars[0] + InnerProduct(points[1..], scalars[1..])
  }

  lemma {:induction false} InnerProductSnoc(points: seq<nat>, scalars: seq<int>)
    requires |points| == |scalars| > 0
    ensures var last := |points| - 1;
      InnerProduct(points, scalars) == InnerProduct(points[..last], scalars[..last]) + points[last] * scalars[last]
  {
    var last := |points| - 1;
    if last == 0 {
      assert points[1..] == [] && points[..0] == [];
    } else {
      InnerProductSnoc(points[1..], scalars[1..]);
      assert points[1..][..last - 1] == points[..last][1..] && scalars[1..][..last - 1] == scalars[..last][1..];
    }
  }

  lemma {:induction false} InputTermsExactly(ic: seq<nat>, values: seq<int>, n: nat, q: nat)
    requires q > 0 && n <= |values| < |ic|
    ensures InputTerms(ic, values, n, q) % q == InnerProduct(ic[1..n + 1], values[..n]) % q
  {
    if n == 0 {
    } else {
      var points, scalars := ic[1..n + 1], values[..n];
      InputTermsExactly(ic, values, n - 1, q);
      assert points[..n - 1] == ic[1..n] && scalars[..n - 1] == values[..n - 1];
      InnerProductSnoc(points, scalars);
      ModMod(ic[n] * values[n - 1], q);
      CongruentSum(InputTerms(ic, values, n - 1, q), InnerProduct(ic[1..n], values[..n - 1]),
                   Multiply(ic[n], values[n - 1], q), ic[n] * values[n - 1], q);
    }
  }

  /** The accumulated point is ic_0 plus the inner product of the other points with the inputs. */
  lemma AccumulatedExactly(vk: VerifyingKey, values: seq<int>, q: nat)
    requires q > 0 && Accumulated(vk, values, q).Ok?
    ensures Accumulated(vk, values, q) == Ok((vk.ic[0] + InnerProduct(vk.ic[1..], values)) % q)
  {
    var n := |values|;
    InputTermsExactly(vk.ic, values, n, q);
    assert vk.ic[1..n + 1] == vk.ic[1..] && values[..n] == values;
    CongruentSum(vk.ic[0], vk.ic[0], InputTerms(vk.ic, values, n, q), InnerProduct(vk.ic[1..], values), q);
  }

  /** A proof verifies exactly when a*b is alpha*beta plus the accumulated point times gamma plus c*delta. */
  lemma VerifiesExactly(vk: VerifyingKey, values: seq<int>, proof: Proof, q: nat)
    requires q > 0 && |values| + 1 == |vk.ic| && Canonical(values, q)
    ensures var x := vk.ic[0] + InnerProduct(vk.ic[1..], values);
      VerifyProof(vk, values, proof, q) == Ok(true)
      <==> (proof.a * proof.b) % q == (vk.alpha * vk.beta + x * vk.gamma + proof.c * vk.delta) % q
  {
    var x, ab, cd := vk.ic[0] + InnerProduct(vk.ic[1..], values), vk.alpha * vk.beta, proof.c * vk.delta;
    AccumulatedExactly(vk, values, q);
    ModMod(x, q);
    CongruentProduct(x % q, x, vk.gamma, q);
    CongruentSum(ab, ab, (x % q) * vk.gamma, x * vk.gamma, q);
    SumOfResidues(ab + (x % q) * vk.gamma, cd, q);
    CongruentSum(ab + (x % q) * vk.gamma, ab + x * vk.gamma, cd, cd, q);
  }

  lemma {:induction false} InnerProductChange(points: seq<nat>, scalars: seq<int>, i: nat, v: int)
    requires |points| == |scalars| && i < |scalars|
    ensures InnerProduct(points, scalars[i := v]) == InnerProduct(points, scalars) + points[i] * (v - scalars[i])
  {
    if i == 0 {
      assert scalars[0 := v][1..] == scalars[1..];
      Distribute(v, -1 * scalars[0], points[0]);
    } else {
      InnerProductChange(points[1..], scalars[1..], i - 1, v);
      assert scalars[i := v][1..] == scalars[1..][i - 1 := v];
    }
  }

  /** A proof that verifies for one input vector verifies for no vector that differs from it in one input. */
  lemma ProofFixesEachInput(vk: VerifyingKey, values: seq<int>, proof: Proof, i: nat, v: int, q: nat)
    requires Prime(q) && vk.Valid(q) && i < |values| && 0 <= v < q && v != values[i]
    requires VerifyProof(vk, values, proof, q) == Ok(true)
    ensures VerifyProof(vk, values[i := v], proof, q) == Ok(false)
  {
    var other := values[i := v];
    assert Canonical(other, q);
    AccumulatedExactly(vk, values, q);
    AccumulatedExactly(vk, other, q);
    InnerProductChange(vk.ic[1..], values, i, v);
    var base, step := vk.ic[0] + InnerProduct(vk.ic[1..], values), vk.ic[i + 1] * (v - values[i]);
    var x, x' := Accumulated(vk, values, q).value, Accumulated(vk, other, q).value;
    assert x == base % q && x' == (base + step) % q;
    StepNonzero(vk.ic[i + 1], v, values[i], q);
    AccumulatorsDiffer(base, step, q);
    SessionsDiffer(vk.alpha * vk.beta, x, x', vk.gamma, proof.c * vk.delta, q);
  }

  lemma StepNonzero(p: nat, v: int, u: int, q: nat)
    requires Prime(q) && 0 < p < q && 0 <= v < q && 0 <= u < q && v != u
    ensures (p * (v - u)) % q != 0
  {
    SmallMod(p, q);
    CongruentIff(v, u, q);
    SmallMod(v, q);
    SmallMod(u, q);
    PrimeDividesProduct(q, p, v - u);
  }

  lemma AccumulatorsDiffer(base: int, step: int, q: nat)
    requires q > 0 && step % q != 0
    ensures base % q != (base + step) % q
  {
    CongruentIff(base + step, base, q);
  }

  /** Different accumulators give different right-hand sides of the verification equation. */
  lemma SessionsDiffer(ab: int, x: nat, x': nat, gamma: nat, cd: int, q: nat)
    requires Prime(q) && x < q && x' < q && x != x' && 0 < gamma < q
    ensures ((ab + x * gamma) % q + cd % q) % q != ((ab + x' * gamma) % q + cd % q) % q
  {
    var s, s' := ab + x * gamma, ab + x' * gamma;
    ModMod(s, q);
    ModMod(s', q);
    ModMod(cd, q);
    CongruentSum(s % q, s, cd % q, cd, q);
    CongruentSum(s' % q, s', cd % q, cd, q);
    CongruentIff(s + cd, s' + cd, q);
    SmallMod(x, q);
    SmallMod(x', q);
    CongruentIff(x, x', q);
    SmallMod(gamma, q);
    PrimeDividesProduct(q, gamma, x - x');
    Distribute(x, -1 * x', gamma);
    Commute(gamma, x);
    Commute(gamma, x');
    assert (s + cd) - (s' + cd) == gamma * (x - x');
  }

  // ---------------------------------------------------------------- setup, certificate, unlock

  function MaskDomainV1(): Bytes { Ascii("ranklock/babe-positive-lock/mask/v1") + [0] }

  function MaskDomainV2(): Bytes { Ascii("ranklock/babe-positive-lock/mask/v2") + [0] }

  /** A hashed block string spells its version, statement digest, session and counter. */
  lemma BlockPreimageBinds(
    curve: Curve, dom: Bytes, digest: Digest, session: nat, i: nat, dom': Bytes, digest': Digest, session': nat, j: nat)
    requires curve.Distinguishes() && session < curve.q && session' < curve.q && i < Pow256(4) && j < Pow256(4)
    requires dom in {MaskDomainV1(), MaskDomainV2()} && dom' in {MaskDomainV1(), MaskDomainV2()}
    requires BlockPreimage(dom + digest, curve.encGt(session), i)
      == BlockPreimage(dom' + digest', curve.encGt(session'), j)
    ensures dom == dom' && digest == digest' && session == session' && i == j
  {
    var e, e' := curve.encGt(session), curve.encGt(session');
    SplitEqual(dom + digest + e, BigEndian(i, 4), dom' + digest' + e', BigEndian(j, 4));
    SplitEqual(dom + digest, e, dom' + digest', e');
    SplitEqual(dom, digest, dom', digest');
    BigEndianInjective(i, j, 4);
  }

  ghost function BlockPair(
    curve: Curve, dom: Bytes, digest: Digest, session: nat, i: nat, dom': Bytes, digest': Digest, session': nat, j: nat)
    : set<Bytes>
  {
    {BlockPreimage(dom + digest, curve.encGt(session), i), BlockPreimage(dom' + digest', curve.encGt(session'), j)}
  }

  /**
   * A whole block of a mask, wherever it stands, names the lock version, the statement digest, the session and its
   * own position: no block repeats within one mask, and none occurs in the mask of another lock.
   */
  lemma MaskBlocksName(
    h: Hash, curve: Curve, dom: Bytes, digest: Digest, session: nat, length: nat, i: nat,
    dom': Bytes, digest': Digest, session': nat, length': nat, j: nat)
    requires curve.Distinguishes() && session < curve.q && session' < curve.q
    requires dom in {MaskDomainV1(), MaskDomainV2()} && dom' in {MaskDomainV1(), MaskDomainV2()}
    requires BlocksFor(length) <= Pow256(4) && BlocksFor(length') <= Pow256(4)
    requires 32 * (i + 1) <= length && 32 * (j + 1) <= length'
    requires CollisionFree(h, BlockPair(curve, dom, digest, session, i, dom', digest', session', j))
    requires Mask(h, dom + digest, curve.encGt(session), length).value[32 * i..32 * (i + 1)]
      == Mask(h, dom' + digest', curve.encGt(session'), length').value[32 * j..32 * (j + 1)]
    ensures dom == dom' && digest == digest' && session == session' && i == j
  {
    MaskBlock(h, dom + digest, curve.encGt(session), length, i);
    MaskBlock(h, dom' + digest', curve.encGt(session'), length', j);
    BlockPreimageBinds(curve, dom, digest, session, i, dom', digest', session', j);
  }

  function PayloadPreimage(statement: Digest, payload: Bytes): Bytes {
    Ascii("ranklock/babe-positive-lock/payload/v1") + [0] + statement + payload
  }

  function SetupV1(
    h: Hash, curve: Curve, vk: VerifyingKey, values: seq<int>, payload: Bytes, scale: int, sessionContext: Bytes)
    : Result<LockV1>
    requires curve.Lawful()
  {
    var r := scale % curve.q;
    if r == 0 then Err else
    var digest :- StatementDigest(h, curve, vk, values, sessionContext);
    var y :- StatementSession(vk, values, curve.q);
    var mask :- Mask(h, MaskDomainV1() + digest, curve.encGt((y * r) % curve.q), |payload|);
    var vkDigest :- VkDigest(h, curve, vk);
    if payload == [] then Err else
    Ok(LockV1(vkDigest, digest, curve.encG2(Multiply(vk.delta, r, curve.q)), Xor(payload, mask),
              h(PayloadPreimage(digest, payload))))
  }

  function SetupV2(
    h: Hash, curve: Curve, vk: VerifyingKey, values: seq<int>, payload: Bytes, scale: int, sessionContext: Bytes)
    : Result<LockV2>
    requires curve.Lawful()
  {
    var r := scale % curve.q;
    if payload == [] || r == 0 then Err else
    var digest :- StatementDigest(h, curve, vk, values, sessionContext);
    var y :- StatementSession(vk, values, curve.q);
    var mask :- Mask(h, MaskDomainV2() + digest, curve.encGt((y * r) % curve.q), |payload|);
    var vkDigest :- VkDigest(h, curve, vk);
    Ok(LockV2(vkDigest, digest, curve.encG2(Multiply(vk.delta, r, curve.q)), Xor(payload, mask)))
  }

  /** e(rA, delta) == e(A, r_delta), false when the output does not decode. */
  predicate CertifyOutput(curve: Curve, vk: VerifyingKey, proof: Proof, rDelta: Bytes, rA: Wire)
    requires curve.q > 0
  {
    && Decodes(rA, curve.q) && Decodes(curve.decG2(rDelta), curve.q)
    && PairingProduct2(rA.exponent, vk.delta, Neg(proof.a, curve.q), curve.decG2(rDelta).exponent, curve.q) == 0
  }

  /** e(rA, B) * e(-C, r_delta) as an exponent of GT. */
  function UnlockSession(curve: Curve, proof: Proof, rDelta: Bytes, rA: Wire): nat
    requires curve.q > 0 && rA.Point? && curve.decG2(rDelta).Point?
  {
    PairingProduct2(rA.exponent, proof.b, Neg(proof.c, curve.q), curve.decG2(rDelta).exponent, curve.q)
  }

  function UnlockV1(
    h: Hash, curve: Curve, vk: VerifyingKey, values: seq<int>, proof: Proof, lock: LockV1, rA: Wire,
    sessionContext: Bytes): Result<Bytes>
    requires curve.Lawful()
  {
    var expected :- StatementDigest(h, curve, vk, values, sessionContext);
    var vkDigest :- VkDigest(h, curve, vk);
    if lock.vkDigest != vkDigest || lock.statementDigest != expected then Err
    else if !CertifyOutput(curve, vk, proof, lock.rDelta, rA) then Err
    else
      var session := UnlockSession(curve, proof, lock.rDelta, rA);
      var mask :- Mask(h, MaskDomainV1() + expected, curve.encGt(session), |lock.masked|);
      var payload := Xor(lock.masked, mask);
      if h(PayloadPreimage(expected, payload)) != lock.payloadHash then Err else Ok(payload)
  }

  function UnlockV2(
    h: Hash, curve: Curve, vk: VerifyingKey, values: seq<int>, proof: Proof, lock: LockV2, rA: Wire,
    sessionContext: Bytes): Result<Bytes>
    requires curve.Lawful()
  {
    var expected :- StatementDigest(h, curve, vk, values, sessionContext);
    var vkDigest :- VkDigest(h, curve, vk);
    if lock.vkDigest != vkDigest || lock.statementDigest != expected then Err else
    var valid :- VerifyProof(vk, values, proof, curve.q);
    if !valid || !CertifyOutput(curve, vk, proof, lock.rDelta, rA) then Err
    else
      var mask :- Mask(h, MaskDomainV2() + expected, curve.encGt(UnlockSession(curve, proof, lock.rDelta, rA)),
                       |lock.masked|);
      Ok(Xor(lock.masked, mask))
  }

  // ---------------------------------------------------------------- the session theorem

  /** r*(a*b) - c*(r*d) and y*r agree exactly when a*b and y + c*d do. */
  lemma ScaledEquation(q: nat, a: nat, b: nat, c: nat, d: nat, y: nat, r: nat)
    requires Prime(q) && r % q != 0
    ensures (Multiply(a, r, q) * b - c * Multiply(d, r, q)) % q == (y * r) % q
      <==> (a * b) % q == (y + (c * d) % q) % q
  {
    var ra, rd := Multiply(a, r, q), Multiply(d, r, q);
    var s := a * b - c * d;
    ScaledDifference(q, a, b, c, d, r);
    Commute(y, r);
    Cancel(q, r, s, y);
    MoveAcross(q, a * b, c * d, y);
  }

  lemma ScaledDifference(q: nat, a: nat, b: nat, c: nat, d: nat, r: nat)
    requires q > 0
    ensures (Multiply(a, r, q) * b - c * Multiply(d, r, q)) % q == (r * (a * b - c * d)) % q
  {
    var ra, rd := Multiply(a, r, q), Multiply(d, r, q);
    ModMod(a * r, q);
    ModMod(d * r, q);
    CongruentProduct(ra, a * r, b, q);
    CongruentProduct(rd, d * r, c, q);
    CongruentDifference(ra * b, (a * r) * b, c * rd, c * (d * r), q);
    assert (a * r) * b - c * (d * r) == r * (a * b - c * d) by {
      Associate(a, r, b);
      Commute(a * b, r);
      Associate(c, d, r);
      Commute(c * d, r);
      Distribute(a * b, -1 * (c * d), r);
    }
  }

  lemma CongruentDifference(x: int, x': int, y: int, y': int, q: nat)
    requires q > 0 && x % q == x' % q && y % q == y' % q
    ensures (x - y) % q == (x' - y') % q
  {
    SubMod(x, y, q);
    SubMod(x, y', q);
    AddMod(x, -1 * y', q);
    AddMod(x', -1 * y', q);
  }

  lemma MoveAcross(q: nat, x: int, z: int, y: int)
    requires q > 0
    ensures (x - z) % q == y % q <==> x % q == (y + z % q) % q
  {
    CongruentIff(x - z, y, q);
    AddMod(z, y, q);
    CongruentIff(x, y + z, q);
  }

  /**
   * With a certified output, the session a holder derives is the session the lock was set up with
   * exactly when the proof verifies.
   */
  lemma SessionIffValid(curve: Curve, vk: VerifyingKey, values: seq<int>, proof: Proof, scale: int, rA: Wire)
    requires curve.Lawful() && vk.Valid(curve.q) && proof.Valid(curve.q) && scale % curve.q != 0
    requires StatementSession(vk, values, curve.q).Ok?
    ensures
      var r := scale % curve.q;
      var rDelta := curve.encG2(Multiply(vk.delta, r, curve.q));
      && Decodes(curve.decG2(rDelta), curve.q)
      && (CertifyOutput(curve, vk, proof, rDelta, rA) <==> rA == Point(Multiply(proof.a, r, curve.q)))
      && (CertifyOutput(curve, vk, proof, rDelta, rA) ==>
          ((UnlockSession(curve, proof, rDelta, rA) == (StatementSession(vk, values, curve.q).value * r) % curve.q)
           <==> VerifyProof(vk, values, proof, curve.q) == Ok(true)))
  {
    var q, r := curve.q, scale % curve.q;
    var rd := Multiply(vk.delta, r, q);
    var rDelta := curve.encG2(rd);
    ModMod(scale, q);
    ScaledPointNonzero(vk.delta, r, q);
    ScaledPointNonzero(proof.a, r, q);
    assert curve.decG2(rDelta) == Point(rd);
    if Decodes(rA, q) {
      CertificateExact(rA.exponent, vk.delta, proof.a, r, q);
    }
    if CertifyOutput(curve, vk, proof, rDelta, rA) {
      PairingQuotient(rA.exponent, proof.b, proof.c, rd, q);
      ScaledEquation(q, proof.a, proof.b, proof.c, vk.delta, StatementSession(vk, values, q).value, r);
    }
  }

  /** Version 2 opens for a valid proof with the output [r]A, to the payload of setup, and for nothing else. */
  lemma UnlockV2Exactly(
    h: Hash, curve: Curve, vk: VerifyingKey, values: seq<int>, payload: Bytes, scale: int, sessionContext: Bytes,
    proof: Proof, rA: Wire)
    requires curve.Lawful() && vk.Valid(curve.q) && proof.Valid(curve.q)
    requires SetupV2(h, curve, vk, values, payload, scale, sessionContext).Ok?
    ensures UnlockV2(h, curve, vk, values, proof, SetupV2(h, curve, vk, values, payload, scale, sessionContext).value,
                     rA, sessionContext)
      == if VerifyProof(vk, values, proof,
                        curve.q) == Ok(true) && rA == Point(Multiply(proof.a, scale % curve.q, curve.q))
         then Ok(payload) else Err
  {
    SessionIffValid(curve, vk, values, proof, scale, rA);
    var digest := StatementDigest(h, curve, vk, values, sessionContext).value;
    var session := (StatementSession(vk, values, curve.q).value * (scale % curve.q)) % curve.q;
    XorTwice(payload, Mask(h, MaskDomainV2() + digest, curve.encGt(session), |payload|).value);
  }

  /**
   * Version 1 rejects every output but [r]A, opens to the payload of setup for a valid proof, and never
   * opens to anything else unless two payload commitments collide.
   */
  lemma UnlockV1Sound(
    h: Hash, curve: Curve, vk: VerifyingKey, values: seq<int>, payload: Bytes, scale: int, sessionContext: Bytes,
    proof: Proof, rA: Wire)
    requires curve.Lawful() && vk.Valid(curve.q) && proof.Valid(curve.q)
    requires SetupV1(h, curve, vk, values, payload, scale, sessionContext).Ok?
    ensures
      var lock := SetupV1(h, curve, vk, values, payload, scale, sessionContext).value;
      var released := UnlockV1(h, curve, vk, values, proof, lock, rA, sessionContext);
      var output := Point(Multiply(proof.a, scale % curve.q, curve.q));
      && (rA != output ==> released == Err)
      && (rA == output && VerifyProof(vk, values, proof, curve.q) == Ok(true) ==> released == Ok(payload))
      && (released.Ok? && CollisionFree(h, PayloadQueries(lock.statementDigest, payload, released.value)) ==>
            released == Ok(payload))
  {
    SessionIffValid(curve, vk, values, proof, scale, rA);
    var lock := SetupV1(h, curve, vk, values, payload, scale, sessionContext).value;
    var session := (StatementSession(vk, values, curve.q).value * (scale % curve.q)) % curve.q;
    XorTwice(payload, Mask(h, MaskDomainV1() + lock.statementDigest, curve.encGt(session), |payload|).value);
    var released := UnlockV1(h, curve, vk, values, proof, lock, rA, sessionContext);
    if released.Ok? && CollisionFree(h, PayloadQueries(lock.statementDigest, payload, released.value)) {
      assert PayloadPreimage(lock.statementDigest, payload) == PayloadPreimage(lock.statementDigest, released.value);
      var prefix := Ascii("ranklock/babe-positive-lock/payload/v1") + [0] + lock.statementDigest;
      SplitEqual(prefix, payload, prefix, released.value);
    }
  }

  // ---------------------------------------------------------------- an invalid proof in version 1

  /** The session that a holder of the certified output [r]A derives from a proof. */
  function HolderSession(curve: Curve, vk: VerifyingKey, proof: Proof, scale: int): (s: nat)
    requires curve.q > 0
    ensures s < curve.q
  {
    var r := scale % curve.q;
    PairingProduct2(Multiply(proof.a, r, curve.q), proof.b, Neg(proof.c, curve.q), Multiply(vk.delta, r, curve.q),
                    curve.q)
  }

  /** The session of setup. */
  function SetupSession(vk: VerifyingKey, values: seq<int>, scale: int, q: nat): (s: nat)
    requires q > 0 && StatementSession(vk, values, q).Ok?
    ensures s < q
  {
    (StatementSession(vk, values, q).value * (scale % q)) % q
  }

  function MaskV1(h: Hash, curve: Curve, digest: Digest, session: nat, length: nat): Result<Bytes> {
    Mask(h, MaskDomainV1() + digest, curve.encGt(session), length)
  }

  /** What unmasking with one session leaves of a payload masked with another. */
  function Remasked(h: Hash, curve: Curve, digest: Digest, session: nat, other: nat, payload: Bytes): Bytes
    requires BlocksFor(|payload|) <= Pow256(4)
  {
    Xor(Xor(payload, MaskV1(h, curve, digest, session, |payload|).value),
        MaskV1(h, curve, digest, other, |payload|).value)
  }

  lemma UnlockV1Shape(
    h: Hash, curve: Curve, vk: VerifyingKey, values: seq<int>, payload: Bytes, scale: int, sessionContext: Bytes,
    proof: Proof)
    requires curve.Lawful() && vk.Valid(curve.q) && proof.Valid(curve.q)
    requires SetupV1(h, curve, vk, values, payload, scale, sessionContext).Ok?
    ensures StatementSession(vk, values, curve.q).Ok? && BlocksFor(|payload|) <= Pow256(4)
    ensures var lock := SetupV1(h, curve, vk, values, payload, scale, sessionContext).value;
      var rA := Point(Multiply(proof.a, scale % curve.q, curve.q));
      var remasked := Remasked(h, curve, lock.statementDigest, SetupSession(vk, values, scale, curve.q),
                             HolderSession(curve, vk, proof, scale), payload);
      UnlockV1(h, curve, vk, values, proof, lock, rA, sessionContext)
      == if h(PayloadPreimage(lock.statementDigest, remasked)) == h(PayloadPreimage(lock.statementDigest, payload))
         then Ok(remasked) else Err
  {
    var q, r := curve.q, scale % curve.q;
    var rA := Point(Multiply(proof.a, r, q));
    SessionIffValid(curve, vk, values, proof, scale, rA);
    ModMod(scale, q);
    ScaledPointNonzero(vk.delta, r, q);
    assert curve.decG2(curve.encG2(Multiply(vk.delta, r, q))) == Point(Multiply(vk.delta, r, q));
  }

  /** Unmasking gives the payload back exactly when the two masks agree. */
  lemma RemaskedExactly(h: Hash, curve: Curve, digest: Digest, session: nat, other: nat, payload: Bytes)
    requires BlocksFor(|payload|) <= Pow256(4)
    ensures Remasked(h, curve, digest, session, other, payload) == payload
      <==> MaskV1(h, curve, digest, session, |payload|) == MaskV1(h, curve, digest, other, |payload|)
  {
    Unmasks(payload, MaskV1(h, curve, digest, session, |payload|).value,
            MaskV1(h, curve, digest, other, |payload|).value);
  }

  ghost function PayloadQueries(digest: Digest, payload: Bytes, remasked: Bytes): set<Bytes> {
    {PayloadPreimage(digest, payload), PayloadPreimage(digest, remasked)}
  }

  lemma PayloadPreimageBinds(digest: Digest, payload: Bytes, remasked: Bytes)
    requires PayloadPreimage(digest, payload) == PayloadPreimage(digest, remasked)
    ensures payload == remasked
  {
    var prefix := Ascii("ranklock/babe-positive-lock/payload/v1") + [0] + digest;
    SplitEqual(prefix, payload, prefix, remasked);
  }

  /**
   * Version 1 never looks at the proof: with the certified output it opens exactly when the session derived from
   * the proof has the mask of setup, and then to the payload of setup.
   */
  lemma UnlockV1ByMask(
    h: Hash, curve: Curve, vk: VerifyingKey, values: seq<int>, payload: Bytes, scale: int, sessionContext: Bytes,
    proof: Proof)
    requires curve.Lawful() && vk.Valid(curve.q) && proof.Valid(curve.q)
    requires SetupV1(h, curve, vk, values, payload, scale, sessionContext).Ok?
    requires StatementSession(vk, values, curve.q).Ok? && BlocksFor(|payload|) <= Pow256(4)
    requires var digest := SetupV1(h, curve, vk, values, payload, scale, sessionContext).value.statementDigest;
      CollisionFree(h, PayloadQueries(digest, payload, Remasked(
        h, curve, digest, SetupSession(vk, values, scale, curve.q), HolderSession(curve, vk, proof, scale), payload)))
    ensures var lock := SetupV1(h, curve, vk, values, payload, scale, sessionContext).value;
      var rA := Point(Multiply(proof.a, scale % curve.q, curve.q));
      UnlockV1(h, curve, vk, values, proof, lock, rA, sessionContext)
      == if MaskV1(h, curve, lock.statementDigest, SetupSession(vk, values, scale, curve.q), |payload|)
            == MaskV1(h, curve, lock.statementDigest, HolderSession(curve, vk, proof, scale), |payload|)
         then Ok(payload) else Err
  {
    UnlockV1Shape(h, curve, vk, values, payload, scale, sessionContext, proof);
    var digest := SetupV1(h, curve, vk, values, payload, scale, sessionContext).value.statementDigest;
    var own, other := SetupSession(vk, values, scale, curve.q), HolderSession(curve, vk, proof, scale);
    var remasked := Remasked(h, curve, digest, own, other, payload);
    RemaskedExactly(h, curve, digest, own, other, payload);
    if h(PayloadPreimage(digest, remasked)) == h(PayloadPreimage(digest, payload)) {
      assert PayloadPreimage(digest, payload) in PayloadQueries(digest, payload, remasked);
      assert PayloadPreimage(digest, remasked) in PayloadQueries(digest, payload, remasked);
      PayloadPreimageBinds(digest, payload, remasked);
    }
  }

  ghost function FirstBlocks(curve: Curve, digest: Digest, session: nat, other: nat): set<Bytes> {
    {BlockPreimage(MaskDomainV1() + digest, curve.encGt(session), 0),
     BlockPreimage(MaskDomainV1() + digest, curve.encGt(other), 0)}
  }

  /** A mask of at least one block names its session. */
  lemma MaskNamesSession(h: Hash, curve: Curve, digest: Digest, session: nat, other: nat, length: nat)
    requires curve.Distinguishes() && session < curve.q && other < curve.q && length >= 32
    requires MaskV1(h, curve, digest, session, length).Ok?
    requires MaskV1(h, curve, digest, session, length) == MaskV1(h, curve, digest, other, length)
    requires CollisionFree(h, FirstBlocks(curve, digest, session, other))
    ensures session == other
  {
    MaskBlocksName(h, curve, MaskDomainV1(), digest, session, length, 0, MaskDomainV1(), digest, other, length, 0);
  }

  /**
   * So with payloads of a block or more, version 1 opens exactly when version 2 does: for a valid proof with the
   * certified output. Shorter payloads also open for an invalid proof whose mask happens to start alike.
   */
  lemma UnlockV1Exactly(
    h: Hash, curve: Curve, vk: VerifyingKey, values: seq<int>, payload: Bytes, scale: int, sessionContext: Bytes,
    proof: Proof, rA: Wire)
    requires curve.Lawful() && curve.Distinguishes() && vk.Valid(curve.q) && proof.Valid(curve.q) && |payload| >= 32
    requires SetupV1(h, curve, vk, values, payload, scale, sessionContext).Ok?
    requires StatementSession(vk, values, curve.q).Ok? && BlocksFor(|payload|) <= Pow256(4)
    requires var digest := SetupV1(h, curve, vk, values, payload, scale, sessionContext).value.statementDigest;
      var own, other := SetupSession(vk, values, scale, curve.q), HolderSession(curve, vk, proof, scale);
      && CollisionFree(h, PayloadQueries(digest, payload, Remasked(h, curve, digest, own, other, payload)))
      && CollisionFree(h, FirstBlocks(curve, digest, own, other))
    ensures var lock := SetupV1(h, curve, vk, values, payload, scale, sessionContext).value;
      UnlockV1(h, curve, vk, values, proof, lock, rA, sessionContext)
      == if VerifyProof(vk, values, proof,
                        curve.q) == Ok(true) && rA == Point(Multiply(proof.a, scale % curve.q, curve.q))
         then Ok(payload) else Err
  {
    UnlockV1Sound(h, curve, vk, values, payload, scale, sessionContext, proof, rA);
    if rA == Point(Multiply(proof.a, scale % curve.q, curve.q)) {
      UnlockV1ByMask(h, curve, vk, values, payload, scale, sessionContext, proof);
      HolderSessionIffValid(curve, vk, values, proof, scale);
      var digest := SetupV1(h, curve, vk, values, payload, scale, sessionContext).value.statementDigest;
      var own, other := SetupSession(vk, values, scale, curve.q), HolderSession(curve, vk, proof, scale);
      if MaskV1(h, curve, digest, own, |payload|) == MaskV1(h, curve, digest, other, |payload|) {
        MaskNamesSession(h, curve, digest, own, other, |payload|);
      }
    }
  }

  lemma HolderSessionIffValid(curve: Curve, vk: VerifyingKey, values: seq<int>, proof: Proof, scale: int)
    requires curve.Lawful() && vk.Valid(curve.q) && proof.Valid(curve.q) && scale % curve.q != 0
    requires StatementSession(vk, values, curve.q).Ok?
    ensures HolderSession(curve, vk, proof, scale) == SetupSession(vk, values, scale, curve.q)
      <==> VerifyProof(vk, values, proof, curve.q) == Ok(true)
  {
    var q, r := curve.q, scale % curve.q;
    SessionIffValid(curve, vk, values, proof, scale, Point(Multiply(proof.a, r, q)));
    ModMod(scale, q);
    ScaledPointNonzero(vk.delta, r, q);
    assert curve.decG2(curve.encG2(Multiply(vk.delta, r, q))) == Point(Multiply(vk.delta, r, q));
  }

  // ---------------------------------------------------------------- what a masked payload names

  /** The payload under the mask of one version, statement digest and session. */
  function Masked(h: Hash, curve: Curve, dom: Bytes, digest: Digest, session: nat, payload: Bytes): (m: Bytes)
    requires BlocksFor(|payload|) <= Pow256(4)
    ensures |m| == |payload|
  {
    Xor(payload, Mask(h, dom + digest, curve.encGt(session), |payload|).value)
  }

  /** Both versions store the payload of setup under their own domain, their statement and the session of setup. */
  lemma SetupMasks(h: Hash, curve: Curve, s: Statement, payload: Bytes, scale: int)
    requires curve.Lawful()
    ensures var v1 := SetupV1(h, curve, s.vk, s.values, payload, scale, s.session);
      v1.Ok? ==>
        && StatementSession(s.vk, s.values, curve.q).Ok? && BlocksFor(|payload|) <= Pow256(4)
        && v1.value.masked == Masked(h, curve, MaskDomainV1(), v1.value.statementDigest,
                                     SetupSession(s.vk, s.values, scale, curve.q), payload)
    ensures var v2 := SetupV2(h, curve, s.vk, s.values, payload, scale, s.session);
      v2.Ok? ==>
        && StatementSession(s.vk, s.values, curve.q).Ok? && BlocksFor(|payload|) <= Pow256(4)
        && v2.value.masked == Masked(h, curve, MaskDomainV2(), v2.value.statementDigest,
                                     SetupSession(s.vk, s.values, scale, curve.q), payload)
  {
  }

  /**
   * One payload of a block or more and one masked string name the lock version, the statement digest and the
   * session: so two locks of a payload have equal masked bytes only within one version, statement and session.
   */
  lemma MaskedNames(
    h: Hash, curve: Curve, dom: Bytes, digest: Digest, session: nat, dom': Bytes, digest': Digest, session': nat,
    payload: Bytes)
    requires curve.Distinguishes() && session < curve.q && session' < curve.q
    requires dom in {MaskDomainV1(), MaskDomainV2()} && dom' in {MaskDomainV1(), MaskDomainV2()}
    requires |payload| >= 32 && BlocksFor(|payload|) <= Pow256(4)
    requires CollisionFree(h, BlockPair(curve, dom, digest, session, 0, dom', digest', session', 0))
    ensures Masked(h, curve, dom, digest, session, payload) == Masked(h, curve, dom', digest', session', payload)
      <==> dom == dom' && digest == digest' && session == session'
  {
    var n := |payload|;
    if Masked(h, curve, dom, digest, session, payload) == Masked(h, curve, dom', digest', session', payload) {
      XorCancel(payload, Mask(h, dom + digest, curve.encGt(session), n).value,
                Mask(h, dom' + digest', curve.encGt(session'), n).value);
      MaskBlocksName(h, curve, dom, digest, session, n, 0, dom', digest', session', n, 0);
    }
  }

  // ---------------------------------------------------------------- locks of other statements

  /** Whatever the lock, version 2 raises for another key or statement digest, an invalid proof or a bad output. */
  lemma RefusedV2(h: Hash, curve: Curve, t: Statement, proof: Proof, lock: LockV2, rA: Wire)
    requires curve.Lawful()
    requires || VkDigest(h, curve, t.vk) != Ok(lock.vkDigest)
             || t.StatementDigestOf(h, curve) != Ok(lock.statementDigest)
             || VerifyProof(t.vk, t.values, proof, curve.q) != Ok(true)
             || !CertifyOutput(curve, t.vk, proof, lock.rDelta, rA)
    ensures UnlockV2(h, curve, t.vk, t.values, proof, lock, rA, t.session) == Err
  {
  }

  /** And so does version 1, but for the proof. */
  lemma RefusedV1(h: Hash, curve: Curve, t: Statement, proof: Proof, lock: LockV1, rA: Wire)
    requires curve.Lawful()
    requires || VkDigest(h, curve, t.vk) != Ok(lock.vkDigest)
             || t.StatementDigestOf(h, curve) != Ok(lock.statementDigest)
             || !CertifyOutput(curve, t.vk, proof, lock.rDelta, rA)
    ensures UnlockV1(h, curve, t.vk, t.values, proof, lock, rA, t.session) == Err
  {
  }

  /** Setup stores the digests of its own key and statement and the anchor [r]delta. */
  lemma SetupNamesStatement(h: Hash, curve: Curve, s: Statement, payload: Bytes, scale: int)
    requires curve.Lawful()
    ensures var v2 := SetupV2(h, curve, s.vk, s.values, payload, scale, s.session);
      v2.Ok? ==>
        && s.StatementDigestOf(h, curve) == Ok(v2.value.statementDigest)
        && VkDigest(h, curve, s.vk) == Ok(v2.value.vkDigest)
        && v2.value.rDelta == curve.encG2(Multiply(s.vk.delta, scale % curve.q, curve.q))
    ensures var v1 := SetupV1(h, curve, s.vk, s.values, payload, scale, s.session);
      v1.Ok? ==>
        && s.StatementDigestOf(h, curve) == Ok(v1.value.statementDigest)
        && VkDigest(h, curve, s.vk) == Ok(v1.value.vkDigest)
        && v1.value.rDelta == curve.encG2(Multiply(s.vk.delta, scale % curve.q, curve.q))
        && v1.value.payloadHash == h(PayloadPreimage(v1.value.statementDigest, payload))
  {
  }

  /** A lock never opens under another key, input vector or session context, whatever the proof and output. */
  lemma OtherStatementRejected(
    h: Hash, curve: Curve, s: Statement, t: Statement, payload: Bytes, scale: int, proof: Proof, rA: Wire)
    requires curve.Lawful() && curve.Distinguishes() && curve.q <= Pow256(32)
    requires s.vk.Valid(curve.q) && t.vk.Valid(curve.q) && s != t
    requires CollisionFree(h, s.Queries(h, curve) + t.Queries(h, curve))
    ensures var v2 := SetupV2(h, curve, s.vk, s.values, payload, scale, s.session);
      v2.Ok? ==> UnlockV2(h, curve, t.vk, t.values, proof, v2.value, rA, t.session) == Err
    ensures var v1 := SetupV1(h, curve, s.vk, s.values, payload, scale, s.session);
      v1.Ok? ==> UnlockV1(h, curve, t.vk, t.values, proof, v1.value, rA, t.session) == Err
  {
    if s.StatementDigestOf(h, curve).Ok? && s.StatementDigestOf(h, curve) == t.StatementDigestOf(h, curve) {
      StatementDigestNames(h, curve, s, t);
    }
    SetupNamesStatement(h, curve, s, payload, scale);
    var v2 := SetupV2(h, curve, s.vk, s.values, payload, scale, s.session);
    if v2.Ok? { RefusedV2(h, curve, t, proof, v2.value, rA); }
    var v1 := SetupV1(h, curve, s.vk, s.values, payload, scale, s.session);
    if v1.Ok? { RefusedV1(h, curve, t, proof, v1.value, rA); }
  }

  // ---------------------------------------------------------------- the v2 codec

  const LOCK_FIXED := 138

  function LockMagic(): (m: Bytes)
    ensures |m| == 4
  {
    Ascii("RLPL")
  }

  function EncodeLock(lock: LockV2): Result<Bytes> {
    var length :- Fixed(|lock.masked|, 4);
    Ok(LockMagic() + BigEndian(2, 2) + lock.vkDigest + lock.statementDigest + lock.rDelta + length + lock.masked)
  }

  function ParseLock(curve: Curve, raw: Bytes): Result<LockV2> {
    if |raw| < LOCK_FIXED + 1 || raw[..4] != LockMagic() || FromBigEndian(raw[4..6]) != 2 then Err
    else
      var payloadLength := FromBigEndian(raw[134..138]);
      if payloadLength == 0 || LOCK_FIXED + payloadLength != |raw| then Err
      else
        var lock := LockV2(raw[6..38], raw[38..70], raw[70..134], raw[138..138 + payloadLength]);
        if !lock.Valid(curve) then Err
        else if EncodeLock(lock) != Ok(raw) then Err
        else Ok(lock)
  }

  lemma LockFields(magic: Bytes, version: Bytes, d: Bytes, s: Bytes, rDelta: Bytes, length: Bytes, masked: Bytes)
    requires |magic| == 4 && |version| == 2 && |d| == 32 && |s| == 32 && |rDelta| == 64 && |length| == 4
    ensures var raw := magic + version + d + s + rDelta + length + masked;
      && |raw| == LOCK_FIXED + |masked| && raw[..4] == magic && raw[4..6] == version && raw[6..38] == d
      && raw[38..70] == s && raw[70..134] == rDelta && raw[134..138] == length && raw[138..|raw|] == masked
  {
  }

  lemma LockParsesBack(curve: Curve, lock: LockV2)
    requires lock.Valid(curve) && |lock.masked| < Pow256(4)
    ensures EncodeLock(lock).Ok? && ParseLock(curve, EncodeLock(lock).value) == Ok(lock)
  {
    BigEndianRoundTrip(|lock.masked|, 4);
    PowersOf256();
    BigEndianRoundTrip(2, 2);
    LockFields(LockMagic(), BigEndian(2, 2), lock.vkDigest, lock.statementDigest, lock.rDelta,
               BigEndian(|lock.masked|, 4), lock.masked);
  }

  /**
   * Bytes parse exactly when their framing is right and the point decompresses: the closing re-encoding
   * check rejects nothing further. What parses encodes back to the same bytes.
   */
  lemma LockParseExactly(curve: Curve, raw: Bytes)
    ensures ParseLock(curve, raw).Ok? <==>
      && |raw| > LOCK_FIXED && raw[..6] == LockMagic() + BigEndian(2, 2)
      && FromBigEndian(raw[134..138]) == |raw| - LOCK_FIXED
      && Decodes(curve.decG2(raw[70..134]), curve.q)
    ensures ParseLock(curve, raw).Ok? ==> EncodeLock(ParseLock(curve, raw).value) == Ok(raw)
  {
    if |raw| > LOCK_FIXED {
      PowersOf256();
      BigEndianRoundTrip(2, 2);
      BigEndianOfBytes(raw[4..6]);
      BigEndianOfBytes(raw[134..138]);
      assert raw[..6] == raw[..4] + raw[4..6];
      if raw[..6] == LockMagic() + BigEndian(2, 2) && FromBigEndian(raw[134..138]) == |raw| - LOCK_FIXED {
        SplitEqual(raw[..4], raw[4..6], LockMagic(), BigEndian(2, 2));
        assert raw[138..138 + (|raw| - LOCK_FIXED)] == raw[138..];
        var lock := LockV2(raw[6..38], raw[38..70], raw[70..134], raw[138..]);
        assert raw == raw[..4] + raw[4..6] + raw[6..38] + raw[38..70] + raw[70..134] + raw[134..138] + raw[138..];
        assert EncodeLock(lock) == Ok(raw);
      }
    }
  }

  // ---------------------------------------------------------------- the deterministic fixture

  function FixtureVk(context: Bytes): VerifyingKey {
    VerifyingKey(3, 5, 7, 11, [13, 19], context)
  }

  /** c solves 23 * 29 == 3 * 5 + vk_x * 7 + c * 11 modulo q. */
  function FixtureC(input: int, q: nat): nat
    requires Prime(q) && q > 29
  {
    var x := (13 + input * 19) % q;
    ((23 * 29 - 3 * 5 - x * 7) * Inverse(11, q)) % q
  }

  /** The fixture proof verifies for every canonical input; it exists unless its C point is the identity. */
  lemma FixtureVerifies(context: Bytes, input: int, q: nat)
    requires context != [] && Prime(q) && q > 29 && 0 <= input < q
    ensures FixtureVk(context).Valid(q)
    ensures VerifyProof(FixtureVk(context), [input], Proof(23, 29, FixtureC(input, q)), q) == Ok(true)
  {
    var x, inv, c := (13 + input * 19) % q, Inverse(11, q), FixtureC(input, q);
    var s := 23 * 29 - 3 * 5 - x * 7;
    var term := Multiply(19, input, q);
    assert InputTerms(FixtureVk(context).ic, [input], 1, q) == term by {
      assert InputTerms(FixtureVk(context).ic, [input], 0, q) == 0;
    }
    AddMod(19 * input, 13, q);
    Commute(19, input);
    assert Accumulated(FixtureVk(context), [input], q) == Ok(x);
    FixtureEquation(s, inv, c, q);
    AddMod(3 * 5 + x * 7, (c * 11) % q, q);
    CongruentSum(15 + x * 7, 15 + x * 7, (c * 11) % q, s, q);
  }

  lemma FixtureEquation(s: int, inv: nat, c: nat, q: nat)
    requires q > 11 && (11 * inv) % q == 1 && c == (s * inv) % q
    ensures ((c * 11) % q) % q == s % q
  {
    ModMod(s * inv, q);
    CongruentProduct(c, s * inv, 11, q);
    Associate(s, inv, 11);
    Commute(inv, 11);
    SmallMod(1, q);
    CongruentProduct(11 * inv, 1, s, q);
    ModMod(c * 11, q);
  }
}
