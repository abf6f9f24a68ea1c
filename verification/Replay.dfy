/**
  The anti-replay cache of internal/faketls/replay.go against its history: which randoms were let
  through, and when. Times are nanoseconds of a clock that does not go back.
  */
module Replay {
  import opened Bytes
  import opened Clock

  const DEFAULT_TTL := 120 * SECOND

  /** One call of Check: the key it looked up, its clock, and its answer. */
  datatype Lookup = Lookup(key: Digest, now: int, hit: bool)

  // ---------------------------------------------------------------------------
  // The ideal
  // ---------------------------------------------------------------------------

  /** Some earlier lookup of this key was let through at most ttl ago. */
  ghost predicate SeenWithin(h: seq<Lookup>, key: Digest, now: int, ttl: int) {
    exists i :: 0 <= i < |h| && h[i].key == key && !h[i].hit && now - h[i].now <= ttl
  }

  ghost predicate Ordered(h: seq<Lookup>) {
    forall i, j :: 0 <= i < j < |h| ==> h[i].now <= h[j].now
  }

  /** Hits only for keys let through within the ttl. */
  ghost predicate Sound(h: seq<Lookup>, ttl: int) {
    forall i :: 0 <= i < |h| && h[i].hit ==> SeenWithin(h[..i], h[i].key, h[i].now, ttl)
  }

  /** A hit for every key let through within the ttl. */
  ghost predicate Complete(h: seq<Lookup>, ttl: int) {
    forall i :: 0 <= i < |h| && SeenWithin(h[..i], h[i].key, h[i].now, ttl) ==> h[i].hit
  }

  function CountHits(h: seq<Lookup>): (n: nat)
  {
    if h == [] then 0 else CountHits(h[..|h| - 1]) + if h[|h| - 1].hit then 1 else 0
  }

  /** The entries that have not expired. */
  function Live(entries: map<Digest, int>, now: int, ttl: int): (r: map<Digest, int>)
  {
    map k | k in entries && now - entries[k] <= ttl :: entries[k]
  }

  lemma LiveIsPart(entries: map<Digest, int>, now: int, ttl: int)
    ensures |Live(entries, now, ttl)| <= |entries|
  {
    var live := Live(entries, now, ttl);
    assert live.Keys <= entries.Keys;
    CardinalityOfPart(live.Keys, entries.Keys);
    assert |live| == |live.Keys| && |entries| == |entries.Keys|;
  }

  lemma {:induction false} CardinalityOfPart(a: set<Digest>, b: set<Digest>)
    requires a <= b
    ensures |a| <= |b|
    decreases b
  {
    if a != {} {
      var x :| x in a;
      CardinalityOfPart(a - {x}, b - {x});
    }
  }

  function Latest(h: seq<Lookup>): (t: int)
  {
    if h == [] then 0 else h[|h| - 1].now
  }

  /** Every entry records when its key was let through. */
  ghost predicate EntriesSound(entries: map<Digest, int>, h: seq<Lookup>) {
    forall k :: k in entries ==> Lookup(k, entries[k], false) in h
  }

  /** Everything let through within the ttl before now has its entry. */
  ghost predicate EntriesComplete(entries: map<Digest, int>, h: seq<Lookup>, now: int, ttl: int) {
    forall i :: 0 <= i < |h| && !h[i].hit && now - h[i].now <= ttl ==>
      h[i].key in entries && entries[h[i].key] == h[i].now
  }

  // What one more lookup does to each of these

  lemma OrderedSnoc(h: seq<Lookup>, x: Lookup)
    requires Ordered(h) && (h != [] ==> Latest(h) <= x.now)
    ensures Ordered(h + [x]) && Latest(h + [x]) == x.now
    ensures CountHits(h + [x]) == CountHits(h) + if x.hit then 1 else 0
  {
    assert (h + [x])[..|h|] == h;
  }

  lemma SoundSnoc(h: seq<Lookup>, x: Lookup, ttl: int)
    requires Sound(h, ttl) && (x.hit ==> SeenWithin(h, x.key, x.now, ttl))
    ensures Sound(h + [x], ttl)
  {
    hide SeenWithin;
    var h' := h + [x];
    forall i | 0 <= i < |h'| && h'[i].hit ensures SeenWithin(h'[..i], h'[i].key, h'[i].now, ttl) {
      assert h'[..i] == h[..i];
    }
  }

  lemma CompleteSnoc(h: seq<Lookup>, x: Lookup, ttl: int)
    requires Complete(h, ttl) && (SeenWithin(h, x.key, x.now, ttl) ==> x.hit)
    ensures Complete(h + [x], ttl)
  {
    hide SeenWithin;
    var h' := h + [x];
    forall i | 0 <= i < |h'| && SeenWithin(h'[..i], h'[i].key, h'[i].now, ttl) ensures h'[i].hit {
      assert h'[..i] == h[..i];
    }
  }

  /** Looking a key up among the live entries is looking it up in the history. */
  lemma LiveIsHistory(entries: map<Digest, int>, live: map<Digest, int>, h: seq<Lookup>, key: Digest, now: int, ttl: int)
    requires EntriesSound(entries, h)
    requires forall k :: k in live ==> k in entries && live[k] == entries[k] && now - live[k] <= ttl
    ensures EntriesSound(live, h)
    ensures key in live ==> SeenWithin(h, key, now, ttl)
  {
    if key in live {
      var x := Lookup(key, live[key], false);
      assert x in h;
    }
  }

  lemma LiveIsAllHistory(entries: map<Digest, int>, h: seq<Lookup>, key: Digest, now: int, ttl: int)
    requires EntriesComplete(entries, h, Latest(h), ttl) && (h != [] ==> Latest(h) <= now)
    ensures EntriesComplete(Live(entries, now, ttl), h, now, ttl)
    ensures SeenWithin(h, key, now, ttl) ==> key in Live(entries, now, ttl)
  {}

  /** The entries after a lookup: unchanged on a hit, one more on a miss. */
  lemma EntriesSnoc(live: map<Digest, int>, h: seq<Lookup>, x: Lookup)
    requires EntriesSound(live, h) && (x.hit <==> x.key in live)
    ensures EntriesSound(if x.hit then live else live[x.key := x.now], h + [x])
  {
    assert x in h + [x];
  }

  lemma EntriesCompleteSnoc(live: map<Digest, int>, h: seq<Lookup>, x: Lookup, ttl: nat)
    requires EntriesComplete(live, h, x.now, ttl) && (x.hit <==> x.key in live)
    ensures EntriesComplete(if x.hit then live else live[x.key := x.now], h + [x], x.now, ttl)
  {}

  // ---------------------------------------------------------------------------
  // The cache
  // ---------------------------------------------------------------------------

  function AtMost(n: nat, max: nat): (r: nat)
  {
    if n < max then n else max
  }

  class ReplayCache {
    var entries: map<Digest, int>
    const max: nat
    const ttl: nat
    var hits: nat
    ghost var history: seq<Lookup>
    // Whether there ever were more than max live entries at a lookup.
    ghost var overflowed: bool

    constructor (maxEntries: int, ttl: int)
      ensures max == if maxEntries <= 0 then 10000 else maxEntries
      ensures this.ttl == if ttl <= 0 then 120_000_000_000 else ttl
      ensures Valid() && history == [] && !overflowed && entries == map[]
    {
      max := if maxEntries <= 0 then 10000 else maxEntries;
      this.ttl := if ttl <= 0 then DEFAULT_TTL else ttl;
      entries, hits, history, overflowed := map[], 0, [], false;
    }

    ghost predicate Valid()
      reads this
    {
      && Ordered(history) && Sound(history, ttl) && hits == CountHits(history)
      && |entries| <= max + 1 && EntriesSound(entries, history)
      && (!overflowed ==> Complete(history, ttl) && EntriesComplete(entries, history, Latest(history), ttl))
    }

    /** The first loop of evict. */
    method DropExpired(now: int)
      modifies this`entries
      ensures entries == Live(old(entries), now, ttl)
    {
      var todo := entries.Keys;
      while todo != {}
        invariant todo <= entries.Keys <= old(entries).Keys
        invariant forall k :: k in entries ==> entries[k] == old(entries)[k]
        invariant forall k :: k in old(entries) && k !in todo ==> (k in entries <==> now - old(entries)[k] <= ttl)
        decreases |todo|
      {
        var k :| k in todo;
        todo := todo - {k};
        if now - entries[k] > ttl { entries := entries - {k}; }
      }
    }

    /** The second loop of evict, which deletes in whatever order the map is iterated. */
    method DropExcess()
      modifies this`entries
      ensures |entries| == AtMost(|old(entries)|, max) && entries.Keys <= old(entries).Keys
      ensures forall k :: k in entries ==> entries[k] == old(entries)[k]
      ensures |old(entries)| <= max ==> entries == old(entries)
    {
      while |entries| > max
        invariant AtMost(|old(entries)|, max) <= |entries| <= |old(entries)| && entries.Keys <= old(entries).Keys
        invariant forall k :: k in entries ==> entries[k] == old(entries)[k]
        invariant |old(entries)| <= max ==> entries == old(entries)
        decreases |entries|
      {
        assert entries.Keys != {};
        var k :| k in entries.Keys;
        assert (entries - {k}).Keys == entries.Keys - {k};
        entries := entries - {k};
      }
    }

    /** evict: first the expired entries, then arbitrary ones while there are too many. */
    method Evict(now: int)
      modifies this`entries
      ensures forall k :: k in entries ==> k in old(entries) && entries[k] == old(entries)[k] && now - entries[k] <= ttl
      ensures |entries| == AtMost(|Live(old(entries), now, ttl)|, max) && |entries| <= |old(entries)|
      ensures |Live(old(entries), now, ttl)| <= max ==> entries == Live(old(entries), now, ttl)
    {
      LiveIsPart(entries, now, ttl);
      DropExpired(now);
      DropExcess();
    }

    /**
      Check: a hit means that the key was let through at most ttl ago; the converse holds as long as there
      never were more than max live entries.
      */
    method Check(key: Digest, now: int) returns (hit: bool)
      requires Valid() && (history != [] ==> history[|history| - 1].now <= now)
      modifies this`entries, this`hits, this`history, this`overflowed
      ensures Valid() && history == old(history) + [Lookup(key, now, hit)]
      ensures overflowed == (old(overflowed) || |Live(old(entries), now, ttl)| > max)
      ensures hit ==> SeenWithin(old(history), key, now, ttl)
      ensures !overflowed ==> hit == SeenWithin(old(history), key, now, ttl)
      ensures hits == old(hits) + if hit then 1 else 0
      ensures |entries| <= |old(entries)| + 1
      ensures |entries| == AtMost(|Live(old(entries), now, ttl)|, max) + if hit then 0 else 1
    {
      hide Live, EntriesSound, EntriesComplete, Sound, Complete, Ordered, SeenWithin, CountHits;
      ghost var h, was := history, entries;
      Evict(now);
      overflowed := overflowed || |Live(was, now, ttl)| > max;
      hit := key in entries;
      ghost var live, x := entries, Lookup(key, now, hit);
      LiveIsHistory(was, live, h, key, now, ttl);
      OrderedSnoc(h, x);
      SoundSnoc(h, x, ttl);
      EntriesSnoc(live, h, x);
      if !overflowed {
        LiveIsAllHistory(was, h, key, now, ttl);
        CompleteSnoc(h, x, ttl);
        EntriesCompleteSnoc(live, h, x, ttl);
      }
      if hit {
        hits := hits + 1;
      } else {
        entries := entries[key := now];
      }
      history := history + [x];
    }
  }
}
