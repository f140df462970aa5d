/** Signed slot manifests: what their body, signing digest and checksum bind, and their verification. */
module Manifests {
  import opened ByteStrings
  import opened Signatures
  import PositiveLock

  const KEY_BYTES := 32
  const SIGNATURE_BYTES := 64
  const DESCRIPTOR_BYTES := 108

  // ---------------------------------------------------------------- descriptors and the embedded lock

  datatype Descriptor = Descriptor(
    slotId: nat, artifactLength: nat, artifactRoot: Digest, labelRoot: Digest, independence: Digest) {

    predicate Valid() {
      slotId < Pow256(4) && 0 < artifactLength < Pow256(8)
    }

    function Encoded(): (e: Bytes)
      ensures |e| == DESCRIPTOR_BYTES
    {
      BigEndian(slotId, 4) + (BigEndian(artifactLength, 8) + (artifactRoot + (labelRoot + independence)))
    }
  }

  lemma DescriptorBinds(a: Descriptor, b: Descriptor)
    requires a.Valid() && b.Valid() && a.Encoded() == b.Encoded()
    ensures a == b
  {
    var i, i' := BigEndian(a.slotId, 4), BigEndian(b.slotId, 4);
    var l, l' := BigEndian(a.artifactLength, 8), BigEndian(b.artifactLength, 8);
    SplitEqual(i, l + (a.artifactRoot + (a.labelRoot + a.independence)), i',
               l' + (b.artifactRoot + (b.labelRoot + b.independence)));
    SplitEqual(l, a.artifactRoot + (a.labelRoot + a.independence), l', b.artifactRoot + (b.labelRoot + b.independence));
    SplitEqual(a.artifactRoot, a.labelRoot + a.independence, b.artifactRoot, b.labelRoot + b.independence);
    SplitEqual(a.labelRoot, a.independence, b.labelRoot, b.independence);
    BigEndianInjective(a.slotId, b.slotId, 4);
    BigEndianInjective(a.artifactLength, b.artifactLength, 8);
  }

  function EncodedDescriptors(slots: seq<Descriptor>): (e: seq<Bytes>)
    ensures |e| == |slots| && AllOfWidth(e, DESCRIPTOR_BYTES)
    ensures forall i :: 0 <= i < |e| ==> e[i] == slots[i].Encoded()
  {
    seq(|slots|, i requires 0 <= i < |slots| => slots[i].Encoded())
  }

  /** The embedded lock: fixed-width fields around a payload behind its four-byte length. */
  function EncodedLock(lock: PositiveLock.LockV1): Bytes {
    lock.vkDigest + (lock.statementDigest + (lock.rDelta
    + (BigEndian(|lock.masked|, 4) + (lock.masked + lock.payloadHash))))
  }

  /** What construction of a lock checks, and that four bytes hold its payload length; encoding raises otherwise. */
  predicate LockFits(lock: PositiveLock.LockV1) {
    LockValid(lock) && |lock.masked| < Pow256(4)
  }

  predicate LockValid(lock: PositiveLock.LockV1) {
    |lock.rDelta| == 64 && lock.masked != []
  }

  lemma LockBinds(a: PositiveLock.LockV1, s: Bytes, b: PositiveLock.LockV1, t: Bytes)
    requires LockFits(a) && LockFits(b) && EncodedLock(a) + s == EncodedLock(b) + t
    ensures a == b && s == t
  {
    var l, l' := BigEndian(|a.masked|, 4), BigEndian(|b.masked|, 4);
    LockTail(a, s);
    LockTail(b, t);
    var u, u' := a.masked + (a.payloadHash + s), b.masked + (b.payloadHash + t);
    SplitEqual(a.vkDigest, a.statementDigest + (a.rDelta + (l + u)), b.vkDigest,
               b.statementDigest + (b.rDelta + (l' + u')));
    SplitEqual(a.statementDigest, a.rDelta + (l + u), b.statementDigest, b.rDelta + (l' + u'));
    SplitEqual(a.rDelta, l + u, b.rDelta, l' + u');
    SplitEqual(l, u, l', u');
    BigEndianInjective(|a.masked|, |b.masked|, 4);
    SplitEqual(a.masked, a.payloadHash + s, b.masked, b.payloadHash + t);
    SplitEqual(a.payloadHash, s, b.payloadHash, t);
  }

  lemma LockTail(a: PositiveLock.LockV1, s: Bytes)
    ensures EncodedLock(a) + s
      == a.vkDigest + (a.statementDigest + (a.rDelta + (BigEndian(|a.masked|, 4) + (a.masked + (a.payloadHash + s)))))
  {
    var l := BigEndian(|a.masked|, 4);
    Regroup(a.masked, a.payloadHash, s);
    Regroup(l, a.masked + a.payloadHash, s);
    Regroup(a.rDelta, l + (a.masked + a.payloadHash), s);
    Regroup(a.statementDigest, a.rDelta + (l + (a.masked + a.payloadHash)), s);
    Regroup(a.vkDigest, a.statementDigest + (a.rDelta + (l + (a.masked + a.payloadHash))), s);
  }

  // ---------------------------------------------------------------- the body

  /** Everything the contributors sign. */
  datatype Body = Body(
    context: Digest, generator: Digest, transcript: Digest, lock: PositiveLock.LockV1,
    slots: seq<Descriptor>, contributors: seq<Bytes>) {

    /** What construction checks. */
    ghost predicate Valid() {
      && 1 <= |slots| < Pow256(2) && 2 <= |contributors| < Pow256(2) && LockValid(lock)
      && (forall i :: 0 <= i < |slots| ==> slots[i].Valid() && slots[i].slotId == i)
      && (forall i, j :: 0 <= i < j < |slots| ==> Independent(slots[i], slots[j]))
      && AllOfWidth(contributors, KEY_BYTES)
      && forall i, j :: 0 <= i < j < |contributors| ==> contributors[i] != contributors[j]
    }

    function Header(): Bytes {
      (Ascii("RLBE21") + [0, 0])
      + (BigEndian(1, 2) + (BigEndian(0, 2) + (BigEndian(|slots|, 2) + BigEndian(|contributors|, 2))))
    }

    function Encoded(): Bytes {
      Header() + (context + (generator + (transcript
      + (EncodedLock(lock) + (Concat(EncodedDescriptors(slots)) + Concat(contributors))))))
    }

    function SigningPreimage(): Bytes {
      Ascii("ranklock/bounded-embryo-manifest-sign/v1") + [0] + Encoded()
    }

    function SigningDigest(h: Hash): Digest {
      h(SigningPreimage())
    }
  }

  ghost predicate Independent(a: Descriptor, b: Descriptor) {
    a.artifactRoot != b.artifactRoot && a.labelRoot != b.labelRoot && a.independence != b.independence
  }

  lemma HeaderBinds(a: Body, b: Body)
    requires a.Valid() && b.Valid() && a.Header() == b.Header()
    ensures |a.slots| == |b.slots| && |a.contributors| == |b.contributors|
  {
    var magic, version, flags := Ascii("RLBE21") + [0, 0], BigEndian(1, 2), BigEndian(0, 2);
    var n, n' := BigEndian(|a.slots|, 2), BigEndian(|b.slots|, 2);
    var c, c' := BigEndian(|a.contributors|, 2), BigEndian(|b.contributors|, 2);
    SplitEqual(magic, version + (flags + (n + c)), magic, version + (flags + (n' + c')));
    SplitEqual(version, flags + (n + c), version, flags + (n' + c'));
    SplitEqual(flags, n + c, flags, n' + c');
    SplitEqual(n, c, n', c');
    BigEndianInjective(|a.slots|, |b.slots|, 2);
    BigEndianInjective(|a.contributors|, |b.contributors|, 2);
  }

  lemma DescriptorsBind(a: seq<Descriptor>, b: seq<Descriptor>)
    requires |a| == |b| && Concat(EncodedDescriptors(a)) == Concat(EncodedDescriptors(b))
    requires forall i :: 0 <= i < |a| ==> a[i].Valid() && b[i].Valid()
    ensures a == b
  {
    ConcatInjective(EncodedDescriptors(a), EncodedDescriptors(b), DESCRIPTOR_BYTES);
    forall i | 0 <= i < |a|
      ensures a[i] == b[i]
    {
      assert EncodedDescriptors(a)[i] == EncodedDescriptors(b)[i];
      DescriptorBinds(a[i], b[i]);
    }
  }

  lemma BodyTail(a: Body, s: Bytes)
    ensures a.Encoded() + s == a.Header() + (a.context + (a.generator + (a.transcript
      + (EncodedLock(a.lock) + (Concat(EncodedDescriptors(a.slots)) + (Concat(a.contributors) + s))))))
  {
    var d, k, l := Concat(EncodedDescriptors(a.slots)), Concat(a.contributors), EncodedLock(a.lock);
    Regroup(d, k, s);
    Regroup(l, d + k, s);
    Regroup(a.transcript, l + (d + k), s);
    Regroup(a.generator, a.transcript + (l + (d + k)), s);
    Regroup(a.context, a.generator + (a.transcript + (l + (d + k))), s);
    Regroup(a.Header(), a.context + (a.generator + (a.transcript + (l + (d + k)))), s);
  }

  /** A body encoding is self-delimiting: it fixes every field, whatever follows it. */
  lemma BodyBinds(a: Body, s: Bytes, b: Body, t: Bytes)
    requires a.Valid() && b.Valid() && LockFits(a.lock) && LockFits(b.lock) && a.Encoded() + s == b.Encoded() + t
    ensures a == b && s == t
  {
    var d, d' := Concat(EncodedDescriptors(a.slots)), Concat(EncodedDescriptors(b.slots));
    var k, k' := Concat(a.contributors), Concat(b.contributors);
    var l, l' := EncodedLock(a.lock), EncodedLock(b.lock);
    var u, u' := d + (k + s), d' + (k' + t);
    BodyTail(a, s);
    BodyTail(b, t);
    SplitEqual(a.Header(), a.context + (a.generator + (a.transcript + (l + u))),
               b.Header(), b.context + (b.generator + (b.transcript + (l' + u'))));
    HeaderBinds(a, b);
    SplitEqual(a.context, a.generator + (a.transcript + (l + u)), b.context, b.generator + (b.transcript + (l' + u')));
    SplitEqual(a.generator, a.transcript + (l + u), b.generator, b.transcript + (l' + u'));
    SplitEqual(a.transcript, l + u, b.transcript, l' + u');
    LockBinds(a.lock, u, b.lock, u');
    ConcatLength(EncodedDescriptors(a.slots), DESCRIPTOR_BYTES);
    ConcatLength(EncodedDescriptors(b.slots), DESCRIPTOR_BYTES);
    SplitEqual(d, k + s, d', k' + t);
    DescriptorsBind(a.slots, b.slots);
    ConcatLength(a.contributors, KEY_BYTES);
    ConcatLength(b.contributors, KEY_BYTES);
    SplitEqual(k, s, k', t);
    ConcatInjective(a.contributors, b.contributors, KEY_BYTES);
  }

  /** A signed manifest digest names one body: context, lock, every descriptor and every contributor. */
  lemma SigningDigestBinds(h: Hash, a: Body, b: Body)
    requires a.Valid() && b.Valid() && LockFits(a.lock) && LockFits(b.lock) && a.SigningDigest(h) == b.SigningDigest(h)
    requires CollisionFree(h, {a.SigningPreimage(), b.SigningPreimage()})
    ensures a == b
  {
    var dom := Ascii("ranklock/bounded-embryo-manifest-sign/v1") + [0];
    var none: Bytes := [];
    assert a.SigningPreimage() == b.SigningPreimage();
    SplitEqual(dom, a.Encoded(), dom, b.Encoded());
    assert a.Encoded() + none == b.Encoded() + none;
    BodyBinds(a, none, b, none);
  }

  // ---------------------------------------------------------------- signed manifests

  datatype Manifest = Manifest(body: Body, signatures: seq<Bytes>, checksum: Bytes) {
    ghost predicate Valid() {
      && body.Valid() && |signatures| == |body.contributors| && AllOfWidth(signatures, SIGNATURE_BYTES)
      && |checksum| == 32
    }

    function ChecksumPreimage(): Bytes {
      Ascii("ranklock/bounded-embryo-manifest-checksum/v1") + [0] + (body.Encoded() + Concat(signatures))
    }

    /**
     * The required keys are the contributors, the context is the expected one, the checksum fits and every
     * contributor signed. Contributors are stored sorted, so comparing them with the sorted required keys is a
     * comparison of multisets.
     */
    predicate Verifies(h: Hash, scheme: Scheme, required: seq<Bytes>, context: Digest)
      requires |signatures| == |body.contributors|
    {
      && multiset(required) == multiset(body.contributors) && body.context == context
      && LockFits(body.lock) && checksum == h(ChecksumPreimage())
      && forall i :: 0 <= i < |signatures| ==> scheme.verify(body.SigningDigest(h), body.contributors[i], signatures[i])
    }
  }

  /** A checksum names the body and every signature. */
  lemma ChecksumBinds(h: Hash, a: Manifest, b: Manifest)
    requires a.Valid() && b.Valid() && LockFits(a.body.lock) && LockFits(b.body.lock)
    requires h(a.ChecksumPreimage()) == h(b.ChecksumPreimage())
    requires CollisionFree(h, {a.ChecksumPreimage(), b.ChecksumPreimage()})
    ensures a.body == b.body && a.signatures == b.signatures
  {
    var dom := Ascii("ranklock/bounded-embryo-manifest-checksum/v1") + [0];
    assert a.ChecksumPreimage() == b.ChecksumPreimage();
    SplitEqual(dom, a.body.Encoded() + Concat(a.signatures), dom, b.body.Encoded() + Concat(b.signatures));
    BodyBinds(a.body, Concat(a.signatures), b.body, Concat(b.signatures));
    ConcatInjective(a.signatures, b.signatures, SIGNATURE_BYTES);
  }

  /** So two verified manifests with one checksum are one manifest. */
  lemma VerifiedChecksumNames(
    h: Hash, scheme: Scheme, m: Manifest, required: seq<Bytes>, context: Digest,
    m': Manifest, required': seq<Bytes>, context': Digest)
    requires m.Valid() && m'.Valid() && m.checksum == m'.checksum
    requires m.Verifies(h, scheme, required, context) && m'.Verifies(h, scheme, required', context')
    requires CollisionFree(h, {m.ChecksumPreimage(), m'.ChecksumPreimage()})
    ensures m == m' && multiset(required) == multiset(required') && context == context'
  {
    ChecksumBinds(h, m, m');
  }

  /** A verified manifest carries the signature of every required key. */
  lemma ContributorSigned(h: Hash, scheme: Scheme, m: Manifest, required: seq<Bytes>, context: Digest, key: Bytes)
    requires |m.signatures| == |m.body.contributors| && m.Verifies(h, scheme, required, context) && key in required
    ensures exists i :: 0 <= i < |m.signatures| && m.body.contributors[i] == key
                     && scheme.verify(m.body.SigningDigest(h), key, m.signatures[i])
  {
    assert key in multiset(required);
    assert key in multiset(m.body.contributors);
    var i :| 0 <= i < |m.body.contributors| && m.body.contributors[i] == key;
    assert scheme.verify(m.body.SigningDigest(h), m.body.contributors[i], m.signatures[i]);
  }

  /** The check, signature by signature. */
  method Verify(h: Hash, scheme: Scheme, m: Manifest, required: seq<Bytes>, context: Digest) returns (ok: bool)
    requires m.Valid()
    ensures ok == m.Verifies(h, scheme, required, context)
  {
    if multiset(required) != multiset(m.body.contributors) {
      return false;
    }
    if m.body.context != context {
      return false;
    }
    if !LockFits(m.body.lock) || m.checksum != h(m.ChecksumPreimage()) {
      return false;
    }
    var digest := m.body.SigningDigest(h);
    for i := 0 to |m.signatures|
      invariant forall j :: 0 <= j < i ==> scheme.verify(digest, m.body.contributors[j], m.signatures[j])
    {
      if !scheme.verify(digest, m.body.contributors[i], m.signatures[i]) {
        return false;
      }
    }
    return true;
  }
}
