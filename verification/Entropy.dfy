/** The deterministic conformance entropy: a counter that separates every draw from every other. */
module Entropy {
  import opened ByteStrings
  import opened Sealing

  function Transcript(seed: Bytes, domain: Bytes, counter: nat): Bytes {
    Ascii("ranklock/v025/conformance-entropy/v1") + [0]
    + (seed + (BigEndian(|domain|, 4) + (domain + BigEndian(counter, 8))))
  }

  /** Under one seed a transcript names its domain and its counter, although domains have any length. */
  lemma TranscriptBinds(seed: Bytes, domain: Bytes, counter: nat, domain': Bytes, counter': nat)
    requires |domain| < Pow256(4) && |domain'| < Pow256(4) && counter < Pow256(8) && counter' < Pow256(8)
    requires Transcript(seed, domain, counter) == Transcript(seed, domain', counter')
    ensures domain == domain' && counter == counter'
  {
    var dom := Ascii("ranklock/v025/conformance-entropy/v1") + [0];
    var l, l', c, c' := BigEndian(|domain|, 4), BigEndian(|domain'|, 4), BigEndian(counter, 8), BigEndian(counter', 8);
    SplitEqual(dom, seed + (l + (domain + c)), dom, seed + (l' + (domain' + c')));
    SplitEqual(seed, l + (domain + c), seed, l' + (domain' + c'));
    SplitEqual(l, domain + c, l', domain' + c');
    BigEndianInjective(|domain|, |domain'|, 4);
    SplitEqual(domain, c, domain', c');
    BigEndianInjective(counter, counter', 8);
  }

  class Source {
    const seed: Bytes
    var counter: nat
    /** The transcripts expanded so far. */
    ghost var expanded: seq<Bytes>

    ghost predicate Valid()
      reads this
    {
      && (forall i :: 0 <= i < |expanded| ==> ExpandedUnder(expanded[i], counter))
      && forall i, j :: 0 <= i < j < |expanded| ==> expanded[i] != expanded[j]
    }

    /** A transcript of this seed whose counter is at most the bound. */
    ghost predicate ExpandedUnder(t: Bytes, bound: nat) {
      exists domain: Bytes, c: nat ::
        |domain| < Pow256(4) && c < Pow256(8) && c <= bound && t == Transcript(seed, domain, c)
    }

    constructor (seed: Bytes)
      ensures Valid() && this.seed == seed && counter == 0 && expanded == []
    {
      this.seed := seed;
      counter := 0;
      expanded := [];
    }

    /**
     * One draw: the counter advances even when the draw raises, and no transcript is ever expanded twice,
     * whatever domains and lengths are asked for.
     */
    method Draw(x: Expander, domain: Bytes, length: nat) returns (r: Result<Bytes>)
      requires Valid()
      modifies this
      ensures Valid() && counter == old(counter) + 1
      ensures r.Ok? <==> |domain| < Pow256(4) && counter < Pow256(8)
      ensures r.Ok? ==> r.value == x.expand(Transcript(seed, domain, counter), length)
      ensures expanded == if r.Ok? then old(expanded) + [Transcript(seed, domain, counter)] else old(expanded)
    {
      counter := counter + 1;
      var width := Fixed(|domain|, 4);
      var index := Fixed(counter, 8);
      if width.Err? || index.Err? {
        return Err;
      }
      forall i | 0 <= i < |expanded|
        ensures expanded[i] != Transcript(seed, domain, counter)
      {
        assert ExpandedUnder(expanded[i], counter - 1);
        var d: Bytes, c: nat :|
          |d| < Pow256(4) && c < Pow256(8) && c <= counter - 1 && expanded[i] == Transcript(seed, d, c);
        if expanded[i] == Transcript(seed, domain, counter) {
          TranscriptBinds(seed, d, c, domain, counter);
        }
      }
      assert ExpandedUnder(Transcript(seed, domain, counter), counter);
      expanded := expanded + [Transcript(seed, domain, counter)];
      return Ok(x.expand(Transcript(seed, domain, counter), length));
    }

    /** A nonzero scalar below the group order, from one draw of 64 bytes. */
    method Scalar(x: Expander, domain: Bytes, order: nat) returns (r: Result<nat>)
      requires Valid() && order > 1
      modifies this
      ensures Valid() && counter == old(counter) + 1
      ensures r.Ok? <==> |domain| < Pow256(4) && counter < Pow256(8)
      ensures r.Ok? ==> 0 < r.value < order
      ensures r.Ok? ==> r.value == FromBigEndian(x.expand(Transcript(seed, domain, counter), 64)) % (order - 1) + 1
    {
      var bytes := Draw(x, domain, 64);
      if bytes.Err? {
        return Err;
      }
      return Ok(FromBigEndian(bytes.value) % (order - 1) + 1);
    }
  }
}
