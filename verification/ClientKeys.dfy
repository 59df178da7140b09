/** The rate limiter over keys as clients send them: which of them share a counter, and
    that the others do not touch each other. */
module ClientKeys {
  import opened Wrappers
  import opened Numbers
  import opened RateLimiter
  import Scalars

  // ------------------------------------------------------------------------
  // Keys in octets
  // ------------------------------------------------------------------------

  function CodePoints(key: string): (us: seq<nat>)
    ensures |us| == |key| && Scalars.AllScalars(us)
  {
    seq(|key|, i requires 0 <= i < |key| => key[i] as int)
  }

  /** The octets of a key's UTF-8 form. */
  function OctetLen(key: string): (n: nat) {
    |Scalars.Encodings(CodePoints(key))|
  }

  /** The limiter's length is that of the UTF-8 form. */
  lemma {:induction false} ByteLenIsUtf8(key: string)
    ensures ByteLen(key) == OctetLen(key)
  {
    if |key| > 0 {
      ByteLenIsUtf8(key[1..]);
      assert CodePoints(key)[1..] == CodePoints(key[1..]);
    }
  }

  /** How a key is counted: as sent up to 45 octets, beyond them by its first 45
      characters. */
  predicate CountedAs(raw: string, key: string) {
    if OctetLen(raw) <= 45 then key == raw else key <= raw && |key| == Min(45, |raw|)
  }

  lemma TruncateCounts(raw: string, key: string)
    ensures Truncate(raw) == key <==> CountedAs(raw, key)
  {
    ByteLenIsUtf8(raw);
  }

  // ------------------------------------------------------------------------
  // Histories of keys as sent
  // ------------------------------------------------------------------------

  /** The limiter's table after these hits, from a new limiter. */
  function Served(raws: seq<Hit>, window: nat): (t: Table) {
    if |raws| == 0 then map[]
    else
      var h := raws[|raws| - 1];
      AfterHit(Served(raws[..|raws| - 1], window), Truncate(h.key), h.now, window)
  }

  /** What the limiter answers a hit after these. */
  function Answer(raws: seq<Hit>, h: Hit, window: nat, max: nat): (r: Option<nat>) {
    Verdict(Served(raws, window), Truncate(h.key), h.now, window, max)
  }

  predicate AllCountedAs(raws: seq<Hit>, hits: seq<Hit>) {
    |raws| == |hits|
    && forall i :: 0 <= i < |raws| ==> CountedAs(raws[i].key, hits[i].key) && hits[i].now == raws[i].now
  }

  lemma {:induction false} ServedTable(raws: seq<Hit>, hits: seq<Hit>, window: nat)
    requires AllCountedAs(raws, hits)
    ensures Served(raws, window) == TableAfter(hits, window)
  {
    if |raws| > 0 {
      var n := |raws| - 1;
      ServedTable(raws[..n], hits[..n], window);
      assert CountedAs(raws[n].key, hits[n].key) && hits[n].now == raws[n].now;
      ServedNext(raws, hits, window, raws[n], hits[n]);
    }
  }

  lemma ServedNext(raws: seq<Hit>, hits: seq<Hit>, window: nat, raw: Hit, h: Hit)
    requires |raws| == |hits| > 0 && raw == raws[|raws| - 1] && h == hits[|hits| - 1]
    requires Served(raws[..|raws| - 1], window) == TableAfter(hits[..|hits| - 1], window)
    requires CountedAs(raw.key, h.key) && h.now == raw.now
    ensures Served(raws, window) == TableAfter(hits, window)
  {
    TruncateCounts(raw.key, h.key);
  }

  /** Every result about histories holds of raw keys, each replaced by what it counts as. */
  lemma ServedAs(raws: seq<Hit>, hits: seq<Hit>, h: Hit, key: string, window: nat, max: nat)
    requires AllCountedAs(raws, hits) && CountedAs(h.key, key)
    ensures Served(raws, window) == TableAfter(hits, window)
    ensures Answer(raws, h, window, max) == None <==> AcceptsNext(hits, Hit(key, h.now), window, max)
  {
    TruncateCounts(h.key, key);
    ServedTable(raws, hits, window);
  }

  // ------------------------------------------------------------------------
  // Keys are independent
  // ------------------------------------------------------------------------

  lemma {:induction false} NoEntry(hits: seq<Hit>, key: string, window: nat)
    requires forall i :: 0 <= i < |hits| ==> hits[i].key != key
    ensures key !in TableAfter(hits, window)
  {
    if |hits| > 0 { NoEntry(hits[..|hits| - 1], key, window); }
  }

  /** A key that was not hit is accepted, whatever the others did: only hits that count as
      this key can spend its allowance. */
  lemma FreshKeyAccepted(raws: seq<Hit>, h: Hit, window: nat, max: nat)
    requires max >= 1 && OctetLen(h.key) <= 45
    requires forall i :: 0 <= i < |raws| ==> !CountedAs(raws[i].key, h.key)
    ensures Answer(raws, h, window, max) == None
  {
    var hits := seq(|raws|, i requires 0 <= i < |raws| => Hit(Truncate(raws[i].key), raws[i].now));
    forall i | 0 <= i < |raws| ensures CountedAs(raws[i].key, hits[i].key) {
      TruncateCounts(raws[i].key, hits[i].key);
    }
    ServedAs(raws, hits, h, h.key, window, max);
    forall i | 0 <= i < |hits| ensures hits[i].key != h.key {
      assert CountedAs(raws[i].key, hits[i].key);
    }
    NoEntry(hits, h.key, window);
  }

  /** So is one of at most 45 octets after any other keys of at most 45 octets. */
  lemma OthersDoNotCount(raws: seq<Hit>, h: Hit, window: nat, max: nat)
    requires max >= 1 && OctetLen(h.key) <= 45
    requires forall i :: 0 <= i < |raws| ==> OctetLen(raws[i].key) <= 45 && raws[i].key != h.key
    ensures Answer(raws, h, window, max) == None
  {
    FreshKeyAccepted(raws, h, window, max);
  }

  /** The hits of one key. */
  function Of(hits: seq<Hit>, key: string): (own: seq<Hit>) {
    if |hits| == 0 then []
    else
      var init, h := hits[..|hits| - 1], hits[|hits| - 1];
      Of(init, key) + (if h.key == key then [h] else [])
  }

  /** The key has the same entry, or none, in both tables. */
  predicate SameFor(t: Table, u: Table, key: string) {
    (key in t <==> key in u) && (key in t ==> t[key] == u[key])
  }

  lemma {:induction false} OwnEntry(hits: seq<Hit>, key: string, window: nat)
    requires ClearCount(hits, window, 0) == 0
    ensures SameFor(UnprunedAfter(hits, window), UnprunedAfter(Of(hits, key), window), key)
    ensures TableAfter(Of(hits, key), window).Keys <= {key}
  {
    if |hits| > 0 {
      var init, h := hits[..|hits| - 1], hits[|hits| - 1];
      LastUncleared(hits, window);
      OwnEntry(init, key, window);
      var t, u := UnprunedAfter(init, window), UnprunedAfter(Of(init, key), window);
      if h.key == key {
        OwnHit(Of(init, key), h, window);
        assert SameFor(Uncleared(t, h, window), Uncleared(u, h, window), key);
      } else {
        assert Of(hits, key) == Of(init, key);
        assert SameFor(Uncleared(t, h, window), u, key);
      }
    }
  }

  /** A table that is not pruned, after a hit that does not clear it. */
  function Uncleared(t: Table, h: Hit, window: nat): (u: Table) {
    t[h.key := Counted(t, h.key, h.now, window)]
  }

  lemma LastUncleared(hits: seq<Hit>, window: nat)
    requires |hits| > 0 && ClearCount(hits, window, 0) == 0
    ensures var init, h := hits[..|hits| - 1], hits[|hits| - 1];
            ClearCount(init, window, 0) == 0
            && UnprunedAfter(hits, window) == Uncleared(UnprunedAfter(init, window), h, window)
  {
  }

  /** A table of one key is never cleared. */
  lemma OneKeyNoClear(t: Table, key: string, now: nat, window: nat)
    requires t.Keys <= {key}
    ensures !Clears(t, now, window) && Shrink(t, now, window) == t
  {
    SmallKeys(t, key);
  }

  lemma SmallKeys(t: Table, key: string)
    requires t.Keys <= {key}
    ensures |t| <= 1
  {
    assert |t| == |t.Keys|;
    if key in t.Keys { assert t.Keys == {key}; } else { assert t.Keys == {}; }
  }

  lemma OwnHit(own: seq<Hit>, h: Hit, window: nat)
    requires TableAfter(own, window).Keys <= {h.key}
    ensures TableAfter(own + [h], window).Keys <= {h.key}
    ensures UnprunedAfter(own + [h], window) == Uncleared(UnprunedAfter(own, window), h, window)
  {
    OneKeyNoClear(TableAfter(own, window), h.key, h.now, window);
    assert (own + [h])[..|own|] == own;
  }

  lemma {:induction false} OwnOrdered(hits: seq<Hit>, key: string, now: nat)
    requires Ordered(hits) && forall i :: 0 <= i < |hits| ==> hits[i].now <= now
    ensures Ordered(Of(hits, key)) && forall i :: 0 <= i < |Of(hits, key)| ==> Of(hits, key)[i].now <= now
  {
    if |hits| > 0 {
      var init, h := hits[..|hits| - 1], hits[|hits| - 1];
      OwnOrdered(init, key, h.now);
    }
  }

  /** Keys are independent: unless the table is cleared, a hit is accepted after a history
      if and only if it is accepted after the hits of its own key alone. */
  lemma KeysAreIndependent(hits: seq<Hit>, h: Hit, window: nat, max: nat)
    requires Ordered(hits) && forall i :: 0 <= i < |hits| ==> hits[i].now <= h.now
    requires ClearCount(hits + [h], window, 0) == 0
    ensures AcceptsNext(hits, h, window, max) <==> AcceptsNext(Of(hits, h.key), h, window, max)
  {
    assert (hits + [h])[..|hits|] == hits;
    OwnEntry(hits, h.key, window);
    OneKeyNoClear(TableAfter(Of(hits, h.key), window), h.key, h.now, window);
    OwnOrdered(hits, h.key, h.now);
    PruningIsInvisible(hits, h, window, max);
    PruningIsInvisible(Of(hits, h.key), h, window, max);
  }
}
