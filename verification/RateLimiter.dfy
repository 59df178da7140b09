/** The fixed-window rate limiter: pruning, clearing, counting, and what a caller may
    rely on over a whole history of hits. Instants and windows are nanoseconds. */
module RateLimiter {
  import opened Wrappers
  import opened Numbers
  import Octets

  /** The map is pruned, then cleared, once it holds more keys than this. */
  const CAPACITY: nat := 10_000
  const KEY_CHARS: nat := 45
  const NANOS: nat := 1_000_000_000

  datatype Entry = Entry(start: nat, count: nat)

  type Table = map<string, Entry>

  /** Octets of a character's UTF-8 form. */
  function CharLen(c: char): (n: nat)
    ensures 1 <= n <= 4
  {
    if c as int < 0x80 then 1 else if c as int < 0x800 then 2 else if c as int < 0x1_0000 then 3 else 4
  }

  function ByteLen(key: string): (n: nat)
    ensures n >= |key|
  {
    if |key| == 0 then 0 else CharLen(key[0]) + ByteLen(key[1..])
  }

  /** Keys longer than 45 octets are cut to 45 characters. */
  function Truncate(key: string): (t: string)
    ensures |t| <= KEY_CHARS
  {
    if ByteLen(key) > KEY_CHARS then (if |key| < KEY_CHARS then key else key[..KEY_CHARS]) else key
  }

  /** Time since an instant, never negative. */
  function Since(now: nat, t0: nat): (d: nat) {
    if now < t0 then 0 else now - t0
  }

  function Prune(t: Table, now: nat, window: nat): (r: Table) {
    map k | k in t && Since(now, t[k].start) < window :: t[k]
  }

  /** Pruning and clearing, when the map has grown too large. */
  function Shrink(t: Table, now: nat, window: nat): (r: Table) {
    var pruned := if |t| > CAPACITY then Prune(t, now, window) else t;
    if |pruned| > CAPACITY then map[] else pruned
  }

  predicate Clears(t: Table, now: nat, window: nat) {
    |t| > CAPACITY && |Prune(t, now, window)| > CAPACITY
  }

  /** The entry a hit leaves for its key. */
  function Counted(t: Table, key: string, now: nat, window: nat): (e: Entry)
    ensures e.count >= 1
  {
    if key in t && Since(now, t[key].start) < window then Entry(t[key].start, t[key].count + 1)
    else Entry(now, 1)
  }

  function AfterHit(t: Table, key: string, now: nat, window: nat): (r: Table) {
    var s := Shrink(t, now, window);
    s[key := Counted(s, key, now, window)]
  }

  /** What is left of an entry's window. */
  function Remaining(e: Entry, now: nat, window: nat): (d: nat) {
    if window < Since(now, e.start) then 0 else window - Since(now, e.start)
  }

  /** Whole seconds, at least one. */
  function RetrySeconds(remaining: nat): (s: nat)
    ensures s >= 1
    ensures remaining < (s + 1) * NANOS
  {
    if remaining / NANOS < 1 then 1 else remaining / NANOS
  }

  /** The verdict on a hit: accepted, or the seconds to wait. */
  function Verdict(t: Table, key: string, now: nat, window: nat, max: nat): (r: Option<nat>) {
    var e := Counted(Shrink(t, now, window), key, now, window);
    if e.count <= max then None else Some(RetrySeconds(Remaining(e, now, window)))
  }

  /** After a hit the map holds at most one key more than its capacity. */
  lemma SizeBound(t: Table, key: string, now: nat, window: nat)
    ensures |AfterHit(t, key, now, window)| <= CAPACITY + 1
  {
  }

  class Limiter {
    const max: nat
    const window: nat
    var hits: Table

    constructor (max: nat, window: nat)
      ensures this.max == max && this.window == window && hits == map[]
    {
      this.max, this.window := max, window;
      hits := map[];
    }

    /** Drop the expired entries of a full map, then the whole map if it is still full. */
    method MakeRoom(now: nat)
      modifies this
      ensures hits == Shrink(old(hits), now, window)
      ensures |hits| <= CAPACITY
    {
      if |hits| > CAPACITY {
        hits := map k | k in hits && Since(now, hits[k].start) < window :: hits[k];
      }
      if |hits| > CAPACITY {
        hits := map[];
      }
    }

    /** Record a hit; None when accepted, else the seconds until a retry is worth it. A key
        of at most 45 octets is counted as sent, a longer one as its first 45 characters. */
    method Hit(rawKey: string, now: nat) returns (r: Option<nat>)
      modifies this
      ensures hits == AfterHit(old(hits), Truncate(rawKey), now, window)
      ensures r == Verdict(old(hits), Truncate(rawKey), now, window, max)
      ensures ByteLen(rawKey) <= 45 ==> hits == AfterHit(old(hits), rawKey, now, window)
                                        && r == Verdict(old(hits), rawKey, now, window, max)
      ensures ByteLen(rawKey) > 45 ==> exists key :: key <= rawKey && |key| == Min(45, |rawKey|)
                                                     && hits == AfterHit(old(hits), key, now, window)
                                                     && r == Verdict(old(hits), key, now, window, max)
      ensures |hits| <= CAPACITY + 1
    {
      MakeRoom(now);
      ghost var shrunk := hits;
      var key := Truncate(rawKey);
      if key !in hits {
        hits := hits[key := Entry(now, 0)];
      }
      if Since(now, hits[key].start) >= window {
        hits := hits[key := Entry(now, 0)];
      }
      hits := hits[key := Entry(hits[key].start, hits[key].count + 1)];
      var e := hits[key];
      assert hits == shrunk[key := e];
      SizeBound(old(hits), key, now, window);
      if e.count <= max { return None; }
      r := Some(RetrySeconds(Remaining(e, now, window)));
    }
  }

  // ------------------------------------------------------------------------
  // Whole histories
  // ------------------------------------------------------------------------

  datatype Hit = Hit(key: string, now: nat)

  /** Hits in order of time. */
  predicate Ordered(hits: seq<Hit>) {
    forall i, j :: 0 <= i < j < |hits| ==> hits[i].now <= hits[j].now
  }

  /** The table after a history. */
  function TableAfter(hits: seq<Hit>, window: nat): (t: Table) {
    if |hits| == 0 then map[]
    else var h := hits[|hits| - 1]; AfterHit(TableAfter(hits[..|hits| - 1], window), h.key, h.now, window)
  }

  lemma TableSnoc(hits: seq<Hit>, h: Hit, window: nat)
    ensures TableAfter(hits + [h], window) == AfterHit(TableAfter(hits, window), h.key, h.now, window)
  {
    assert (hits + [h])[..|hits|] == hits;
  }

  lemma TableAlwaysBounded(hits: seq<Hit>, window: nat)
    ensures |TableAfter(hits, window)| <= 10_001
  {
    if |hits| > 0 {
      var h := hits[|hits| - 1];
      SizeBound(TableAfter(hits[..|hits| - 1], window), h.key, h.now, window);
    }
  }

  /** The keys hit so far. */
  function KeysOf(hits: seq<Hit>): (ks: set<string>) {
    set i | 0 <= i < |hits| :: hits[i].key
  }

  lemma {:induction false} OnlyKeysHit(hits: seq<Hit>, window: nat)
    ensures TableAfter(hits, window).Keys <= KeysOf(hits)
  {
    if |hits| > 0 {
      var init, h := hits[..|hits| - 1], hits[|hits| - 1];
      OnlyKeysHit(init, window);
      assert h.key in KeysOf(hits);
      assert KeysOf(init) <= KeysOf(hits) by {
        assert forall i :: 0 <= i < |init| ==> init[i] == hits[i];
      }
    }
  }

  /** Nothing is cleared before more than 10,000 different keys were hit. */
  lemma ClearsOnlyWhenFull(hits: seq<Hit>, h: Hit, window: nat)
    requires ClearsNext(hits, h, window)
    ensures |KeysOf(hits)| > 10_000
  {
    var t := TableAfter(hits, window);
    OnlyKeysHit(hits, window);
    assert |t.Keys| == |t|;
    SubsetSize(t.Keys, KeysOf(hits));
  }

  lemma {:induction false} SubsetSize(a: set<string>, b: set<string>)
    requires a <= b
    ensures |a| <= |b|
    decreases |a|
  {
    if a != {} {
      var x :| x in a;
      SubsetSize(a - {x}, b - {x});
    }
  }

  /** Does hit h, next after the history, clear the table? Is it accepted? */
  predicate ClearsNext(hits: seq<Hit>, h: Hit, window: nat) {
    Clears(TableAfter(hits, window), h.now, window)
  }

  predicate AcceptsNext(hits: seq<Hit>, h: Hit, window: nat, max: nat) {
    Verdict(TableAfter(hits, window), h.key, h.now, window, max) == None
  }

  // ------------------------------------------------------------------------
  // Pruning is invisible
  // ------------------------------------------------------------------------

  /** The table that is never pruned, after a history: every entry there ever was, except
      that a clear empties it. */
  function UnprunedAfter(hits: seq<Hit>, window: nat): (t: Table) {
    if |hits| == 0 then map[]
    else
      var init, h := hits[..|hits| - 1], hits[|hits| - 1];
      var t := if ClearsNext(init, h, window) then map[] else UnprunedAfter(init, window);
      t[h.key := Counted(t, h.key, h.now, window)]
  }

  /** What hit h, next after the history, counts from when nothing is ever pruned. */
  function UnprunedFor(hits: seq<Hit>, h: Hit, window: nat): (t: Table) {
    if ClearsNext(hits, h, window) then map[] else UnprunedAfter(hits, window)
  }

  /** t is u without some entries that have expired by `now`. */
  ghost predicate PrunedFrom(t: Table, u: Table, now: nat, window: nat) {
    && (forall k :: k in t ==> k in u && t[k] == u[k])
    && (forall k :: k in u && k !in t ==> Since(now, u[k].start) >= window)
  }

  lemma HitKeepsPruned(t: Table, u: Table, key: string, now: nat, window: nat)
    requires PrunedFrom(t, u, now, window)
    ensures var v := if Clears(t, now, window) then map[] else u;
            && Counted(Shrink(t, now, window), key, now, window) == Counted(v, key, now, window)
            && PrunedFrom(AfterHit(t, key, now, window), v[key := Counted(v, key, now, window)], now, window)
  {
  }

  lemma StaysPruned(t: Table, u: Table, now: nat, later: nat, window: nat)
    requires PrunedFrom(t, u, now, window) && now <= later
    ensures PrunedFrom(t, u, later, window)
  {
  }

  lemma {:induction false} AlwaysPruned(hits: seq<Hit>, window: nat, now: nat)
    requires Ordered(hits) && forall i :: 0 <= i < |hits| ==> hits[i].now <= now
    ensures PrunedFrom(TableAfter(hits, window), UnprunedAfter(hits, window), now, window)
    decreases |hits|
  {
    if |hits| > 0 {
      var init, h := hits[..|hits| - 1], hits[|hits| - 1];
      AlwaysPruned(init, window, h.now);
      HitKeepsPruned(TableAfter(init, window), UnprunedAfter(init, window), h.key, h.now, window);
      StaysPruned(TableAfter(hits, window), UnprunedAfter(hits, window), h.now, now, window);
    }
  }

  /** Over every history every verdict is the one a table that never prunes would have
      given, counting from the last clear: pruning expired entries changes nothing. */
  lemma PruningIsInvisible(hits: seq<Hit>, h: Hit, window: nat, max: nat)
    requires Ordered(hits) && forall i :: 0 <= i < |hits| ==> hits[i].now <= h.now
    ensures AcceptsNext(hits, h, window, max)
            <==> Counted(UnprunedFor(hits, h, window), h.key, h.now, window).count <= max
  {
    AlwaysPruned(hits, window, h.now);
    HitKeepsPruned(TableAfter(hits, window), UnprunedAfter(hits, window), h.key, h.now, window);
  }

  // ------------------------------------------------------------------------
  // How many hits one window can accept
  // ------------------------------------------------------------------------

  /** Hits of the key, from hit lo on, that were accepted. */
  function AcceptedCount(hits: seq<Hit>, window: nat, max: nat, key: string, lo: nat): (n: nat)
    requires lo <= |hits|
    decreases |hits|
  {
    if |hits| == lo then 0
    else
      var init, h := hits[..|hits| - 1], hits[|hits| - 1];
      AcceptedCount(init, window, max, key, lo) + (if h.key == key && AcceptsNext(init, h, window, max) then 1 else 0)
  }

  /** Hits from hit lo on that cleared the table. */
  function ClearCount(hits: seq<Hit>, window: nat, lo: nat): (n: nat)
    requires lo <= |hits|
    decreases |hits|
  {
    if |hits| == lo then 0
    else
      var init, h := hits[..|hits| - 1], hits[|hits| - 1];
      ClearCount(init, window, lo) + (if ClearsNext(init, h, window) then 1 else 0)
  }

  /** Accepted hits counted by the key's current entry, if it has one. */
  function Credit(t: Table, key: string, max: nat): (n: nat) {
    if key in t then Min(t[key].count, max) else 0
  }

  /** What is left of the allowance of an entry from before the interval: it has already
      spent one hit. */
  function Carried(had: bool, max: nat): (n: nat) {
    if had && max > 0 then max - 1 else 0
  }

  /** The budget of an interval that began at a, with c clears in it so far; `had` when
      the key had an entry at its beginning. While that entry lasts it accounts for every
      accepted hit; after it, one allowance a clear, what it carried over, and what the
      current entry has counted. */
  predicate Budget(accepted: nat, t: Table, key: string, max: nat, a: nat, c: nat, had: bool) {
    if key in t && t[key].start < a
    then c == 0 && had && accepted + 1 <= t[key].count && accepted <= Carried(had, max)
    else accepted <= Carried(had, max) + c * max + Credit(t, key, max)
  }

  /** The allowances a budget comes to. */
  predicate Within(accepted: nat, max: nat, c: nat, had: bool) {
    && (!had ==> accepted <= (1 + c) * max)
    && (max >= 1 ==> accepted < (2 + c) * max)
    && (max == 0 ==> accepted == 0)
  }

  lemma BudgetBound(accepted: nat, t: Table, key: string, max: nat, a: nat, c: nat, had: bool)
    requires Budget(accepted, t, key, max, a, c, had)
    ensures accepted <= Carried(had, max) + c * max + max
    ensures Within(accepted, max, c, had)
  {
    assert (1 + c) * max == c * max + max && (2 + c) * max == c * max + max + max;
  }

  lemma BudgetStart(t: Table, key: string, max: nat, a: nat)
    requires key in t ==> t[key].count >= 1
    ensures Budget(0, t, key, max, a, 0, key in t)
  {
    assert 0 * max == 0;
  }

  /** One hit inside the interval keeps the budget. */
  lemma BudgetStep(accepted: nat, t: Table, h: Hit, key: string, window: nat, max: nat, a: nat, c: nat, had: bool)
    requires Budget(accepted, t, key, max, a, c, had)
    requires a <= h.now < a + window
    ensures Budget(accepted + (if h.key == key && Verdict(t, h.key, h.now, window, max) == None then 1 else 0),
                   AfterHit(t, h.key, h.now, window), key, max, a,
                   c + (if Clears(t, h.now, window) then 1 else 0), had)
  {
    BudgetBound(accepted, t, key, max, a, c, had);
    assert (c + 1) * max == c * max + max;
    var s := Shrink(t, h.now, window);
    if Clears(t, h.now, window) {
      assert s == map[];
    } else {
      assert key in s ==> key in t && s[key] == t[key];
      assert key in t && key !in s ==> t[key].start < a;
      assert 0 * max == 0;
    }
  }

  /** The hits from hit lo on fall in the window that begins at a. */
  predicate InWindow(hits: seq<Hit>, window: nat, a: nat, lo: nat) {
    forall i :: lo <= i < |hits| ==> a <= hits[i].now < a + window
  }

  /** Has the key an entry before hit lo? */
  predicate HasEntry(hits: seq<Hit>, window: nat, key: string, lo: nat)
    requires lo <= |hits|
  {
    key in TableAfter(hits[..lo], window)
  }

  /** The budget the hits from lo on have kept. */
  predicate BudgetKept(hits: seq<Hit>, window: nat, max: nat, key: string, a: nat, lo: nat, had: bool)
    requires lo <= |hits|
  {
    Budget(AcceptedCount(hits, window, max, key, lo), TableAfter(hits, window), key, max, a,
           ClearCount(hits, window, lo), had)
  }

  lemma BudgetNext(init: seq<Hit>, h: Hit, window: nat, max: nat, key: string, a: nat, lo: nat, had: bool)
    requires lo <= |init| && a <= h.now < a + window
    requires BudgetKept(init, window, max, key, a, lo, had)
    ensures BudgetKept(init + [h], window, max, key, a, lo, had)
  {
    assert (init + [h])[..|init|] == init;
    BudgetStep(AcceptedCount(init, window, max, key, lo), TableAfter(init, window), h,
               key, window, max, a, ClearCount(init, window, lo), had);
  }

  lemma {:induction false} BudgetThrough(hits: seq<Hit>, window: nat, max: nat, key: string, a: nat, lo: nat)
    requires lo <= |hits| && InWindow(hits, window, a, lo)
    ensures BudgetKept(hits, window, max, key, a, lo, HasEntry(hits, window, key, lo))
    decreases |hits|
  {
    if |hits| > lo {
      var init, h := hits[..|hits| - 1], hits[|hits| - 1];
      assert init[..lo] == hits[..lo] && init + [h] == hits;
      BudgetThrough(init, window, max, key, a, lo);
      BudgetNext(init, h, window, max, key, a, lo, HasEntry(init, window, key, lo));
    } else {
      assert hits[..lo] == hits;
      EntriesCount(hits, window, key);
      BudgetStart(TableAfter(hits, window), key, max, a);
    }
  }

  lemma {:induction false} EntriesCount(hits: seq<Hit>, window: nat, key: string)
    ensures key in TableAfter(hits, window) ==> TableAfter(hits, window)[key].count >= 1
  {
    if |hits| > 0 { EntriesCount(hits[..|hits| - 1], window, key); }
  }

  /** Over every history: the hits of one half-open interval as long as the window. A key
      that has no entry when the interval begins is accepted at most (1 + clears) * max
      times; one that has an entry has spent a hit of it before, so that it stays short
      of (2 + clears) * max. */
  lemma WindowBound(hits: seq<Hit>, window: nat, max: nat, key: string, a: nat, lo: nat)
    requires lo <= |hits| && InWindow(hits, window, a, lo)
    ensures Within(AcceptedCount(hits, window, max, key, lo), max, ClearCount(hits, window, lo),
                   HasEntry(hits, window, key, lo))
  {
    BudgetThrough(hits, window, max, key, a, lo);
    BudgetBound(AcceptedCount(hits, window, max, key, lo), TableAfter(hits, window), key, max, a,
                ClearCount(hits, window, lo), HasEntry(hits, window, key, lo));
  }

  // ------------------------------------------------------------------------
  // Waiting
  // ------------------------------------------------------------------------

  lemma {:induction false} StartsInThePast(hits: seq<Hit>, window: nat, key: string, a: nat)
    requires forall i :: 0 <= i < |hits| ==> hits[i].now <= a
    ensures key in TableAfter(hits, window) ==> TableAfter(hits, window)[key].start <= a
  {
    if |hits| > 0 { StartsInThePast(hits[..|hits| - 1], window, key, a); }
  }

  /** Other keys' hits leave a key's entry alone, or drop it. */
  lemma {:induction false} OthersLeaveEntry(hits: seq<Hit>, others: seq<Hit>, window: nat, key: string)
    requires forall i :: 0 <= i < |others| ==> others[i].key != key
    ensures var t, u := TableAfter(hits, window), TableAfter(hits + others, window);
            key in u ==> key in t && u[key] == t[key]
    decreases |others|
  {
    if |others| == 0 {
      assert hits + others == hits;
    } else {
      var init, h := others[..|others| - 1], others[|others| - 1];
      OthersLeaveEntry(hits, init, window, key);
      assert hits + others == hits + init + [h];
      TableSnoc(hits + init, h, window);
    }
  }

  /** Retry-After (section 10.2.3 of RFC 9110): a blocked key that waits one second more
      than it was told is accepted, whatever other keys did meanwhile. */
  lemma WaitingSuffices(hits: seq<Hit>, h: Hit, others: seq<Hit>, again: Hit, window: nat, max: nat)
    requires max >= 1 && forall i :: 0 <= i < |hits| ==> hits[i].now <= h.now
    requires again.key == h.key && forall i :: 0 <= i < |others| ==> others[i].key != h.key
    requires var r := Verdict(TableAfter(hits, window), h.key, h.now, window, max);
             r.Some? && again.now >= h.now + (r.value + 1) * 1_000_000_000
    ensures AcceptsNext(hits + [h] + others, again, window, max)
  {
    OthersLeaveEntry(hits + [h], others, window, h.key);
    TableSnoc(hits, h, window);
    StartsInThePast(hits + [h], window, h.key, h.now);
    WaitedOut(TableAfter(hits, window), TableAfter(hits + [h], window), TableAfter(hits + [h] + others, window),
              h.key, h.now, window, max, again.now);
  }

  lemma WaitedOut(t: Table, u: Table, w: Table, key: string, now: nat, window: nat, max: nat, later: nat)
    requires max >= 1 && u == AfterHit(t, key, now, window) && u[key].start <= now
    requires key in w ==> w[key] == u[key]
    requires var r := Verdict(t, key, now, window, max); r.Some? && later >= now + (r.value + 1) * NANOS
    ensures Verdict(w, key, later, window, max) == None
  {
  }

  /** The seconds given are rounded down: a key that waits just that long, undisturbed,
      is still blocked exactly when more of its window than that was left and its own hit
      does not clear the table. */
  lemma WaitingAsTold(t: Table, key: string, now: nat, window: nat, max: nat)
    requires max >= 1 && Verdict(t, key, now, window, max).Some?
    requires AfterHit(t, key, now, window)[key].start <= now
    ensures var u := AfterHit(t, key, now, window);
            var later := now + Verdict(t, key, now, window, max).value * NANOS;
            Verdict(u, key, later, window, max).Some?
            <==> Remaining(u[key], now, window) > later - now && !Clears(u, later, window)
  {
  }

  // ------------------------------------------------------------------------
  // Repeated clears
  // ------------------------------------------------------------------------

  predicate AllFresh(t: Table, now: nat) {
    forall k :: k in t ==> t[k].start == now
  }

  /** A full table of fresh entries: the next hit clears it and is accepted, however
      often its key was accepted before. */
  lemma FullTableForgets(t: Table, now: nat, window: nat, max: nat)
    requires window > 0 && max >= 1 && AllFresh(t, now) && |t| > CAPACITY
    ensures Grants(t, Only(now, 1), now, window, max, true)
  {
    assert Prune(t, now, window) == t;
  }

  /** A new key grows a table that is not full. */
  lemma NewKeyGrows(t: Table, key: string, now: nat, window: nat)
    requires AllFresh(t, now) && |t| <= CAPACITY && key !in t
    ensures var u := AfterHit(t, key, now, window);
            AllFresh(u, now) && |u| == |t| + 1 && u.Keys == t.Keys + {key}
  {
  }

  lemma NamesDiffer(i: nat, j: nat)
    requires i != j
    ensures Octets.Decimal(i) != Octets.Decimal(j)
    ensures Octets.Decimal(i) != "k"
  {
    Octets.DecimalRoundTrip(i); Octets.DecimalRoundTrip(j);
    assert Octets.IsDigit(Octets.Decimal(i)[0]);
  }

  ghost function Names(m: nat): (ns: set<string>) {
    set i: nat | i < m :: Octets.Decimal(i)
  }

  lemma NameIsNew(m: nat)
    ensures Octets.Decimal(m) !in Names(m) && Octets.Decimal(m) != "k"
    ensures Names(m + 1) == Names(m) + {Octets.Decimal(m)}
  {
    forall i: nat | i < m ensures Octets.Decimal(i) != Octets.Decimal(m) {
      NamesDiffer(i, m);
    }
    NamesDiffer(m, m + 1);
  }

  ghost predicate SprayedWith(u: Table, t: Table, m: nat, now: nat) {
    AllFresh(u, now) && |u| == |t| + m && u.Keys == t.Keys + Names(m)
  }

  lemma SprayOne(t: Table, u: Table, m: nat, now: nat, window: nat)
    requires t.Keys <= {"k"} && SprayedWith(u, t, m, now) && |t| + m <= CAPACITY
    ensures SprayedWith(AfterHit(u, Octets.Decimal(m), now, window), t, m + 1, now)
  {
    NameIsNew(m);
    GrowsBy(t, u, m, Octets.Decimal(m), now, window);
  }

  lemma GrowsBy(t: Table, u: Table, m: nat, name: string, now: nat, window: nat)
    requires t.Keys <= {"k"} && SprayedWith(u, t, m, now) && |t| + m <= CAPACITY
    requires name !in Names(m) && name != "k" && Names(m + 1) == Names(m) + {name}
    ensures SprayedWith(AfterHit(u, name, now, window), t, m + 1, now)
  {
    NewKeyGrows(u, name, now, window);
    KeysJoin(t.Keys, Names(m), Names(m + 1), name);
  }

  lemma KeysJoin(keys: set<string>, names: set<string>, more: set<string>, name: string)
    requires more == names + {name}
    ensures (keys + names) + {name} == keys + more
  {
  }

  /** Of the hits from lo on, `accepted` of key "k" were accepted and `clears` cleared
      the table; they come in order, none before a and none after now. */
  ghost predicate Tally(hits: seq<Hit>, window: nat, max: nat, lo: nat, a: nat, now: nat, accepted: nat, clears: nat) {
    && lo <= |hits| && Ordered(hits)
    && (forall i :: 0 <= i < |hits| ==> hits[i].now <= now)
    && (forall i :: lo <= i < |hits| ==> a <= hits[i].now)
    && AcceptedCount(hits, window, max, "k", lo) == accepted
    && ClearCount(hits, window, lo) == clears
  }

  lemma Tallied(hits: seq<Hit>, h: Hit, window: nat, max: nat, lo: nat, a: nat, now: nat, accepted: nat, clears: nat)
    requires Tally(hits, window, max, lo, a, now, accepted, clears) && now <= h.now && a <= h.now
    ensures var t := TableAfter(hits, window);
            && TableAfter(hits + [h], window) == AfterHit(t, h.key, h.now, window)
            && Tally(hits + [h], window, max, lo, a, h.now,
                     accepted + (if h.key == "k" && Verdict(t, h.key, h.now, window, max) == None then 1 else 0),
                     clears + (if Clears(t, h.now, window) then 1 else 0))
  {
    assert (hits + [h])[..|hits|] == hits;
  }

  /** m new keys, all in one instant. */
  lemma {:induction false} Spray(hits: seq<Hit>, window: nat, max: nat, lo: nat, a: nat, now: nat,
                                 accepted: nat, clears: nat, m: nat)
      returns (more: seq<Hit>)
    requires Tally(hits, window, max, lo, a, now, accepted, clears) && a <= now
    requires var t := TableAfter(hits, window);
             AllFresh(t, now) && |t| + m <= CAPACITY + 1 && t.Keys <= {"k"}
    ensures Tally(more, window, max, lo, a, now, accepted, clears)
    ensures SprayedWith(TableAfter(more, window), TableAfter(hits, window), m, now)
    decreases m
  {
    if m == 0 {
      more := hits;
      SprayNone(TableAfter(hits, window), now);
    } else {
      var rest := Spray(hits, window, max, lo, a, now, accepted, clears, m - 1);
      more := SprayNext(TableAfter(hits, window), rest, window, max, lo, a, now, accepted, clears, m - 1);
    }
  }

  lemma SprayNone(t: Table, now: nat)
    requires AllFresh(t, now)
    ensures SprayedWith(t, t, 0, now)
  {
  }

  lemma SprayNext(t: Table, rest: seq<Hit>, window: nat, max: nat, lo: nat, a: nat, now: nat,
                  accepted: nat, clears: nat, m: nat)
      returns (more: seq<Hit>)
    requires Tally(rest, window, max, lo, a, now, accepted, clears) && a <= now
    requires t.Keys <= {"k"} && SprayedWith(TableAfter(rest, window), t, m, now) && |t| + m <= CAPACITY
    ensures Tally(more, window, max, lo, a, now, accepted, clears)
    ensures SprayedWith(TableAfter(more, window), t, m + 1, now)
  {
    var h := Hit(Octets.Decimal(m), now);
    more := rest + [h];
    SprayOne(t, TableAfter(rest, window), m, now, window);
    Tallied(rest, h, window, max, lo, a, now, accepted, clears);
    NameIsNew(m);
  }

  /** The table that holds "k" alone. */
  function Only(start: nat, count: nat): (t: Table) {
    map["k" := Entry(start, count)]
  }

  /** A hit of "k" at `now` turns table t into u, and is accepted. */
  predicate Grants(t: Table, u: Table, now: nat, window: nat, max: nat, cleared: bool) {
    && AfterHit(t, "k", now, window) == u
    && Verdict(t, "k", now, window, max) == None
    && Clears(t, now, window) == cleared
  }

  lemma Granted(hits: seq<Hit>, window: nat, max: nat, lo: nat, a: nat, now: nat, accepted: nat, clears: nat,
                u: Table, later: nat, cleared: bool)
      returns (more: seq<Hit>)
    requires Tally(hits, window, max, lo, a, now, accepted, clears) && a <= later && now <= later
    requires Grants(TableAfter(hits, window), u, later, window, max, cleared)
    ensures Tally(more, window, max, lo, a, later, accepted + 1, if cleared then clears + 1 else clears)
    ensures TableAfter(more, window) == u
  {
    more := hits + [Hit("k", later)];
    Tallied(hits, Hit("k", later), window, max, lo, a, now, accepted, clears);
  }

  /** m more accepted hits of "k" while its entry lasts and has room. */
  lemma Spend(hits: seq<Hit>, window: nat, max: nat, lo: nat, a: nat, now: nat, accepted: nat, clears: nat, start: nat,
              count: nat, m: nat)
      returns (more: seq<Hit>)
    requires Tally(hits, window, max, lo, a, now, accepted, clears) && a <= now
    requires TableAfter(hits, window) == Only(start, count) && Since(now, start) < window && count + m <= max
    ensures Tally(more, window, max, lo, a, now, accepted + m, clears)
    ensures TableAfter(more, window) == Only(start, count + m)
  {
    more := SpendTo(hits, window, max, lo, a, now, accepted, clears, start, count, m, accepted + m, count + m);
  }

  lemma {:induction false} SpendTo(hits: seq<Hit>, window: nat, max: nat, lo: nat, a: nat, now: nat,
                                   accepted: nat, clears: nat, start: nat, count: nat, m: nat, goal: nat, full: nat)
      returns (more: seq<Hit>)
    requires Tally(hits, window, max, lo, a, now, accepted, clears) && a <= now
    requires TableAfter(hits, window) == Only(start, count) && Since(now, start) < window
    requires goal == accepted + m && full == count + m <= max
    ensures Tally(more, window, max, lo, a, now, goal, clears)
    ensures TableAfter(more, window) == Only(start, full)
    decreases m
  {
    more := hits;
    if m > 0 {
      var prior, short := goal - 1, full - 1;
      var fewer := SpendTo(hits, window, max, lo, a, now, accepted, clears, start, count, m - 1, prior, short);
      more := SpendOne(fewer, window, max, lo, a, now, prior, clears, start, short, goal, full);
    }
  }

  lemma SpendOne(hits: seq<Hit>, window: nat, max: nat, lo: nat, a: nat, now: nat, accepted: nat, clears: nat,
                 start: nat, count: nat, goal: nat, full: nat)
      returns (more: seq<Hit>)
    requires Tally(hits, window, max, lo, a, now, accepted, clears) && a <= now
    requires TableAfter(hits, window) == Only(start, count) && Since(now, start) < window
    requires goal == accepted + 1 && full == count + 1 <= max
    ensures Tally(more, window, max, lo, a, now, goal, clears)
    ensures TableAfter(more, window) == Only(start, full)
  {
    RoomGrants(start, count, now, window, max);
    more := Granted(hits, window, max, lo, a, now, accepted, clears, Only(start, count + 1), now, false);
  }

  lemma RoomGrants(start: nat, count: nat, now: nat, window: nat, max: nat)
    requires Since(now, start) < window && count < max
    ensures Grants(Only(start, count), Only(start, count + 1), now, window, max, false)
  {
    assert |Only(start, count)| == 1;
    assert Only(start, count)["k" := Entry(start, count + 1)] == Only(start, count + 1);
  }

  /** "k" has no entry that is still live at `now`, nor has any other key. */
  ghost predicate Lapsed(t: Table, now: nat, window: nat) {
    t == map[] || exists s, n :: t == Only(s, n) && Since(now, s) >= window
  }

  lemma LapsedGrants(t: Table, now: nat, window: nat, max: nat)
    requires max >= 1 && Lapsed(t, now, window)
    ensures Grants(t, Only(now, 1), now, window, max, false)
  {
    if t != map[] {
      var s, n :| t == Only(s, n) && Since(now, s) >= window;
      assert |Only(s, n)| == 1;
    }
    assert t["k" := Entry(now, 1)] == Only(now, 1);
  }

  /** A whole allowance of "k", from a table in which it has no live entry. */
  lemma Allowance(hits: seq<Hit>, window: nat, max: nat, lo: nat, a: nat, now: nat, accepted: nat, clears: nat,
                  later: nat)
      returns (more: seq<Hit>)
    requires Tally(hits, window, max, lo, a, now, accepted, clears) && a <= later && now <= later
    requires window > 0 && max >= 1 && Lapsed(TableAfter(hits, window), later, window)
    ensures Tally(more, window, max, lo, a, later, accepted + max, clears)
    ensures TableAfter(more, window) == Only(later, max)
  {
    LapsedGrants(TableAfter(hits, window), later, window, max);
    var begun := Granted(hits, window, max, lo, a, now, accepted, clears, Only(later, 1), later, false);
    more := Spend(begun, window, max, lo, a, later, accepted + 1, clears, later, 1, max - 1);
  }

  /** A spray and a clear give "k" its whole allowance again, within the instant. */
  lemma Round(hits: seq<Hit>, window: nat, max: nat, lo: nat, a: nat, now: nat, accepted: nat, clears: nat)
      returns (more: seq<Hit>)
    requires Tally(hits, window, max, lo, a, now, accepted, clears) && a <= now && window > 0 && max >= 1
    requires TableAfter(hits, window) == Only(now, max)
    ensures Tally(more, window, max, lo, a, now, accepted + max, clears + 1)
    ensures TableAfter(more, window) == Only(now, max)
  {
    OnlyIsFresh(now, max);
    var full := Spray(hits, window, max, lo, a, now, accepted, clears, CAPACITY);
    more := Reopen(full, window, max, lo, a, now, accepted, clears);
  }

  lemma OnlyIsFresh(now: nat, count: nat)
    ensures AllFresh(Only(now, count), now) && |Only(now, count)| == 1 && Only(now, count).Keys <= {"k"}
  {
  }

  lemma Reopen(full: seq<Hit>, window: nat, max: nat, lo: nat, a: nat, now: nat, accepted: nat, clears: nat)
      returns (more: seq<Hit>)
    requires Tally(full, window, max, lo, a, now, accepted, clears) && a <= now && window > 0 && max >= 1
    requires var t := TableAfter(full, window); AllFresh(t, now) && |t| == CAPACITY + 1
    ensures Tally(more, window, max, lo, a, now, accepted + max, clears + 1)
    ensures TableAfter(more, window) == Only(now, max)
  {
    FullTableForgets(TableAfter(full, window), now, window, max);
    var begun := Granted(full, window, max, lo, a, now, accepted, clears, Only(now, 1), now, true);
    more := Spend(begun, window, max, lo, a, now, accepted + 1, clears + 1, now, 1, max - 1);
  }

  lemma {:induction false} Rounds(hits: seq<Hit>, window: nat, max: nat, lo: nat, a: nat, now: nat,
                                  accepted: nat, c: nat, goal: nat)
      returns (more: seq<Hit>)
    requires Tally(hits, window, max, lo, a, now, accepted, 0) && a <= now && window > 0 && max >= 1
    requires TableAfter(hits, window) == Only(now, max) && goal == accepted + c * max
    ensures Tally(more, window, max, lo, a, now, goal, c)
    ensures TableAfter(more, window) == Only(now, max)
    decreases c
  {
    more := hits;
    if c > 0 {
      var prior := OneRoundLess(accepted, max, c, goal);
      var fewer := Rounds(hits, window, max, lo, a, now, accepted, c - 1, prior);
      more := Round(fewer, window, max, lo, a, now, prior, c - 1);
    }
  }

  lemma OneRoundLess(accepted: nat, max: nat, c: nat, goal: nat) returns (prior: nat)
    requires c > 0 && goal == accepted + c * max
    ensures prior == accepted + (c - 1) * max && prior + max == goal
  {
    OneMoreTimes(max, c - 1);
    prior := accepted + (c - 1) * max;
  }

  /** The bound is reached for every number of clears, within a single instant and
      however small the allowance. */
  lemma ClearsMultiply(now: nat, window: nat, max: nat, c: nat) returns (hits: seq<Hit>)
    requires window > 0 && max >= 1
    ensures forall i :: 0 <= i < |hits| ==> hits[i].now == now
    ensures ClearCount(hits, window, 0) == c
    ensures AcceptedCount(hits, window, max, "k", 0) == (1 + c) * max
  {
    hits := Multiplied(now, window, max, c);
    OneMoreTimes(max, c);
  }

  lemma Multiplied(now: nat, window: nat, max: nat, c: nat) returns (hits: seq<Hit>)
    requires window > 0 && max >= 1
    ensures Tally(hits, window, max, 0, now, now, max + c * max, c)
  {
    var once := Allowance([], window, max, 0, now, now, 0, 0, now);
    hits := Rounds(once, window, max, 0, now, now, max, c, max + c * max);
  }

  lemma OneMoreTimes(max: nat, c: nat)
    ensures (1 + c) * max == max + c * max
  {
  }

  /** So is the bound for a key that has spent one hit before the interval [1, 1 + window):
      the rest of its allowance, a new one when its entry expires, and one a clear. */
  lemma OldEntryMultiplies(window: nat, max: nat, c: nat) returns (hits: seq<Hit>)
    requires window >= 2 && max >= 1
    ensures |hits| >= 1 && Ordered(hits) && forall i :: 1 <= i < |hits| ==> 1 <= hits[i].now < 1 + window
    ensures ClearCount(hits, window, 1) == c
    ensures AcceptedCount(hits, window, max, "k", 1) == (2 + c) * max - 1
  {
    var first := OneBefore(window, max);
    var spent := Spend(first, window, max, 1, 1, 1, 0, 0, 0, 1, max - 1);
    var again := Allowance(spent, window, max, 1, 1, 1, max - 1, 0, window);
    var goal := TwoMoreTimes(max, c);
    hits := Rounds(again, window, max, 1, 1, window, max - 1 + max, c, goal);
  }

  lemma OneBefore(window: nat, max: nat) returns (first: seq<Hit>)
    requires window >= 2 && max >= 1
    ensures Tally(first, window, max, 1, 1, 1, 0, 0) && TableAfter(first, window) == Only(0, 1)
  {
    first := [] + [Hit("k", 0)];
    LapsedGrants(map[], 0, window, max);
    TableSnoc([], Hit("k", 0), window);
  }

  lemma TwoMoreTimes(max: nat, c: nat) returns (goal: nat)
    requires max >= 1
    ensures goal == (2 + c) * max - 1 == max - 1 + max + c * max
  {
    goal := max - 1 + max + c * max;
    assert (2 + c) * max == max + max + c * max;
  }

  /** The hits from lo on fall in one window, and the key has no entry yet: a window of
      its own. */
  predicate OwnWindow(hits: seq<Hit>, window: nat, key: string, a: nat, lo: nat) {
    lo <= |hits| && Ordered(hits) && InWindow(hits, window, a, lo) && !HasEntry(hits, window, key, lo)
  }

  predicate AtMostDouble(hits: seq<Hit>, window: nat, max: nat, key: string, lo: nat)
    requires lo <= |hits|
  {
    AcceptedCount(hits, window, max, key, lo) <= 2 * max
  }

  /** Clearing at most doubles a key's allowance per window in every history with c clears
      in that window if and only if c is at most one. */
  lemma DoublesExactly(window: nat, max: nat, c: nat)
    requires window > 0 && max >= 1
    ensures (forall hits, key, a, lo :: OwnWindow(hits, window, key, a, lo) && ClearCount(hits, window, lo) == c
                                        ==> AtMostDouble(hits, window, max, key, lo))
            <==> c <= 1
  {
    if c <= 1 {
      forall hits, key, a, lo | OwnWindow(hits, window, key, a, lo) && ClearCount(hits, window, lo) == c
        ensures AtMostDouble(hits, window, max, key, lo)
      {
        OneClearDoubles(hits, window, max, key, a, lo);
      }
    } else {
      var hits := TwoClearsTriple(window, max, c);
    }
  }

  lemma OneClearDoubles(hits: seq<Hit>, window: nat, max: nat, key: string, a: nat, lo: nat)
    requires window > 0 && max >= 1 && OwnWindow(hits, window, key, a, lo) && ClearCount(hits, window, lo) <= 1
    ensures AtMostDouble(hits, window, max, key, lo)
  {
    WindowBound(hits, window, max, key, a, lo);
  }

  lemma TwoClearsTriple(window: nat, max: nat, c: nat) returns (hits: seq<Hit>)
    requires window > 0 && max >= 1 && c >= 2
    ensures OwnWindow(hits, window, "k", 0, 0) && ClearCount(hits, window, 0) == c
    ensures !AtMostDouble(hits, window, max, "k", 0)
  {
    hits := ClearsMultiply(0, window, max, c);
    assert hits[..0] == [];
    MoreThanDouble(max, c);
  }

  lemma MoreThanDouble(max: nat, c: nat)
    requires max >= 1 && c >= 2
    ensures (1 + c) * max > 2 * max
  {
    assert (1 + c) * max == 3 * max + (c - 2) * max;
  }

  /** Waiting as told, on a history: for every allowance and window, a key that spent it at
      0 and was refused at 1 is refused again after exactly the seconds told if and only if
      more than a second and no whole number of seconds of its window was left. */
  lemma WaitedAsTold(window: nat, max: nat) returns (hits: seq<Hit>, r: nat)
    requires max >= 1 && window > 1
    ensures forall i :: 0 <= i < |hits| ==> hits[i].now == 0
    ensures AcceptedCount(hits, window, max, "k", 0) == max
    ensures Verdict(TableAfter(hits, window), "k", 1, window, max) == Some(r)
    ensures !AcceptsNext(hits + [Hit("k", 1)], Hit("k", 1 + r * 1_000_000_000), window, max)
            <==> window - 1 > 1_000_000_000 && (window - 1) % 1_000_000_000 != 0
  {
    hits := Allowance([], window, max, 0, 0, 0, 0, 0, 0);
    r := RetrySeconds(window - 1);
    SpentVerdict(max, 1, window, max);
    RefusedAgain(hits, window, max, r);
    WholeSeconds(window - 1);
  }

  lemma RefusedAgain(hits: seq<Hit>, window: nat, max: nat, r: nat)
    requires TableAfter(hits, window) == Only(0, max) && max >= 1 && window > 1
    ensures !AcceptsNext(hits + [Hit("k", 1)], Hit("k", 1 + r * NANOS), window, max) <==> r * NANOS < window - 1
  {
    TableSnoc(hits, Hit("k", 1), window);
    SpentVerdict(max, 1, window, max);
    SpentVerdict(max + 1, 1 + r * NANOS, window, max);
  }

  /** What a key over its allowance is told. */
  lemma SpentVerdict(count: nat, now: nat, window: nat, max: nat)
    requires count >= max >= 1
    ensures now < window ==> && AfterHit(Only(0, count), "k", now, window) == Only(0, count + 1)
                             && Verdict(Only(0, count), "k", now, window, max) == Some(RetrySeconds(window - now))
    ensures now >= window ==> Verdict(Only(0, count), "k", now, window, max) == None
  {
    assert |Only(0, count)| == 1;
    assert Only(0, count)["k" := Entry(0, count + 1)] == Only(0, count + 1);
  }

  lemma WholeSeconds(left: nat)
    ensures RetrySeconds(left) * NANOS < left <==> left > NANOS && left % NANOS != 0
  {
    assert left == left / NANOS * NANOS + left % NANOS;
  }
}
