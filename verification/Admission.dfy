/**
  Which ClientHellos the proxy lets in: the order of checks in handleFakeTLSPath
  (internal/proxy/server.go), the replay cache first and the users with their time window after it.
  */
module Admission {
  import opened Bytes
  import opened Net
  import opened Clock
  import opened ClientHello
  import opened HelloWalkers
  import opened Replay

  const ECH := 0xfe0d

  /** A user as MatchClientHello sees it; host is the name its secret carries, empty if there is none. */
  datatype User = User(enabled: bool, fakeTls: bool, key: bytes, host: bytes)

  datatype AnyRules = Rules(
    hmac: Hmac, sha256: bytes -> Digest, sni: bytes -> bytes, hasEch: bytes -> bool,
    fingerprintOk: bytes -> bool, rejectEch: bool, users: seq<User>)
  {
    /** sni and hasEch are the walkers, wherever these do not run past their buffer. */
    ghost predicate Lawful() {
      && (forall raw: bytes :: Sni(raw).Some? ==> sni(raw) == Sni(raw).value)
      && (forall raw: bytes :: HasExtension(raw, ECH).Some? ==> hasEch(raw) == HasExtension(raw, ECH).value)
    }
  }

  /** The settings between two reloads: hashes, walkers, the allow-lists of fingerprints, the ECH policy, the users. */
  type Rules = g: AnyRules | g.Lawful()
    witness Rules(
              (k: bytes, m: bytes) => seq(32, _ => 0), (m: bytes) => seq(32, _ => 0),
              (raw: bytes) => if Sni(raw).Some? then Sni(raw).value else [],
              (raw: bytes) => HasExtension(raw, ECH) == Some(true),
              (raw: bytes) => true, false, [])

  /** CheckClientHelloPolicy and checkFingerprints. */
  predicate Allowed(g: Rules, h: Hello) {
    !(g.rejectEch && g.hasEch(h.raw)) && g.fingerprintOk(h.raw)
  }

  /** A hello that names a host names the one of the secret, if that names one. */
  predicate HostOk(sni: bytes, host: bytes) {
    sni == [] || host == [] || sni == host
  }

  predicate Active(u: User) {
    u.enabled && u.fakeTls
  }

  /** The user is active, its host fits, and its key reads a time out of the hello. */
  predicate Carries(g: Rules, u: User, h: Hello) {
    && Active(u) && HostOk(g.sni(h.raw), u.host)
    && |h.raw| >= RANDOM_END && DigestOk(g.hmac, u.key, h.raw, h.random)
  }

  predicate UserMatches(g: Rules, u: User, h: Hello, now: int) {
    Active(u) && HostOk(g.sni(h.raw), u.host) && Validate(g.hmac, u.key, h.raw, h.random, Unix(now)) == Ok
  }

  /** The key stamps this random on this record with some time within 120 seconds of now. */
  ghost predicate StampedNear(hmac: Hmac, key: bytes, h: Hello, now: int)
    requires |h.raw| >= 43
  {
    exists ts: nat :: ts < 0x1_0000_0000 && -120 <= Unix(now) - ts <= 120 && h.random == StampedRandom(hmac(key, Zeroed(h.raw)), ts)
  }

  lemma UserMatchesMeans(g: Rules, u: User, h: Hello, now: int)
    ensures UserMatches(g, u, h, now) <==>
            && u.enabled && u.fakeTls
            && (g.sni(h.raw) == [] || u.host == [] || g.sni(h.raw) == u.host)
            && |h.raw| >= 43 && StampedNear(g.hmac, u.key, h, now)
  {
    hide Validate, StampedRandom, Zeroed;
    if |h.raw| >= 43 {
      ValidateMeansStamped(g.hmac, u.key, h.raw, h.random, Unix(now));
    } else {
      ShortIsRefused(g.hmac, u.key, h.raw, h.random, Unix(now));
    }
  }

  /** A hello that names a host is refused where every user's secret is for another one. */
  lemma WrongHostIsRefused(g: Rules, h: Hello, now: int, name: bytes)
    requires Sni(h.raw) == Some(name) && name != []
    requires forall u :: u in g.users ==> u.host != [] && u.host != name
    ensures !Matches(g, h, now)
  {
    hide Validate, Sni;
    forall i | 0 <= i < |g.users| ensures !UserMatches(g, g.users[i], h, now) {
      assert g.users[i] in g.users;
    }
  }

  /** With the policy that rejects it, a hello with an encrypted_client_hello extension (0xfe0d) is refused. */
  lemma EchIsRefused(g: Rules, h: Hello)
    requires g.rejectEch && HasExtension(h.raw, 0xfe0d) == Some(true)
    ensures !Allowed(g, h)
  {
    hide HasExtension;
    assert g.Lawful();
  }

  ghost predicate Matches(g: Rules, h: Hello, now: int) {
    exists i :: 0 <= i < |g.users| && UserMatches(g, g.users[i], h, now)
  }

  /**
    One parsed hello at the proxy: the clock at the replay check and at the later time check, whether the
    cache called it a replay, and whether it was let in.
    */
  datatype Presentation = Presentation(hello: Hello, now: int, later: int, hit: bool, accepted: bool)

  function Lookups(sha256: bytes -> Digest, log: seq<Presentation>): (h: seq<Lookup>)
    ensures |h| == |log|
    ensures forall i :: 0 <= i < |h| ==> h[i] == Lookup(sha256(log[i].hello.random), log[i].now, log[i].hit)
  {
    seq(|log|, i requires 0 <= i < |log| => Lookup(sha256(log[i].hello.random), log[i].now, log[i].hit))
  }

  ghost predicate AcceptedMatch(g: Rules, log: seq<Presentation>) {
    forall i :: 0 <= i < |log| && log[i].accepted ==>
      !log[i].hit && log[i].now <= log[i].later && Matches(g, log[i].hello, log[i].later)
  }

  /** A run of the gate whose cache never overflowed. */
  ghost predicate Run(g: Rules, ttl: int, log: seq<Presentation>) {
    AcceptedMatch(g, log) && Ordered(Lookups(g.sha256, log)) && Complete(Lookups(g.sha256, log), ttl)
  }

  class Gate {
    const rules: Rules
    const cache: ReplayCache
    ghost var log: seq<Presentation>

    constructor (rules: Rules, cache: ReplayCache)
      requires cache.Valid() && cache.history == []
      ensures this.rules == rules && this.cache == cache && log == [] && Valid()
    {
      this.rules, this.cache, log := rules, cache, [];
    }

    /** The log is the cache's history, and whatever was let in was no hit and matched a user. */
    ghost predicate Valid()
      reads this, cache
    {
      cache.Valid() && cache.history == Lookups(rules.sha256, log) && AcceptedMatch(rules, log)
    }

    /**
      MatchClientHello: true exactly when the fingerprint is allowed, and some user is enabled, has a fake-TLS secret
      and no other host than the hello, and its key stamps this random with a time within two minutes of now.
      */
    method Match(h: Hello, now: int) returns (ok: bool)
      ensures ok == (rules.fingerprintOk(h.raw) && Matches(rules, h, now))
      ensures ok <==>
                && rules.fingerprintOk(h.raw) && |h.raw| >= 43
                && exists i :: 0 <= i < |rules.users| &&
                     var u := rules.users[i];
                     && u.enabled && u.fakeTls
                     && (rules.sni(h.raw) == [] || u.host == [] || rules.sni(h.raw) == u.host)
                     && StampedNear(rules.hmac, u.key, h, now)
    {
      hide Validate, UserMatches, StampedNear;
      forall i | 0 <= i < |rules.users| { UserMatchesMeans(rules, rules.users[i], h, now); }
      ok := MatchUsers(h, now);
    }

    /** The loop over the users. */
    method MatchUsers(h: Hello, now: int) returns (ok: bool)
      ensures ok == (rules.fingerprintOk(h.raw) && Matches(rules, h, now))
    {
      hide Validate;
      if !rules.fingerprintOk(h.raw) { return false; }
      for i := 0 to |rules.users|
        invariant forall j :: 0 <= j < i ==> !UserMatches(rules, rules.users[j], h, now)
      {
        var u := rules.users[i];
        if !u.enabled || !u.fakeTls { continue; }
        var sni := rules.sni(h.raw);
        if sni != [] && u.host != [] && sni != u.host { continue; }
        var v := ValidateClientHello(rules.hmac, u.key, h.raw, h.random, Unix(now));
        if v != Ok { continue; }
        return true;
      }
      ok := false;
    }

    /** The checks of handleFakeTLSPath on a parsed hello. */
    method Present(h: Hello, now: int, later: int) returns (accepted: bool)
      requires Valid() && (log != [] ==> log[|log| - 1].now <= now) && now <= later
      modifies this`log, cache
      ensures Valid()
      ensures exists hit ::
                && log == old(log) + [Presentation(h, now, later, hit, accepted)]
                && accepted == (!hit && Allowed(rules, h) && Matches(rules, h, later))
                && (!cache.overflowed ==> hit == SeenWithin(old(cache.history), rules.sha256(h.random), now, cache.ttl))
      ensures cache.overflowed == (old(cache.overflowed) || |Live(old(cache.entries), now, cache.ttl)| > cache.max)
      ensures |cache.entries| <= |old(cache.entries)| + 1
    {
      hide Matches, Ordered, Sound, Complete, EntriesSound, EntriesComplete, SeenWithin, CountHits, Live;
      var hit := cache.Check(rules.sha256(h.random), now);
      accepted := false;
      if !hit && !(rules.rejectEch && rules.hasEch(h.raw)) { accepted := Match(h, later); }
      ghost var p := Presentation(h, now, later, hit, accepted);
      assert Lookups(rules.sha256, log + [p]) == Lookups(rules.sha256, log) + [Lookup(rules.sha256(h.random), now, hit)];
      log := log + [p];
    }

    lemma IsRun()
      requires Valid() && !cache.overflowed
      ensures Run(rules, cache.ttl, log)
    {}

    /** At most once, of every reachable state of a gate whose cache never overflowed, on a clock of whole seconds. */
    lemma LetsInAtMostOnce(first: nat, i: nat, j: nat)
      requires Valid() && !cache.overflowed && cache.ttl == DEFAULT_TTL && first <= i < j < |log|
      requires log[first].hello == log[i].hello == log[j].hello
      requires NotAhead(rules, log[first].hello, log[first].now)
      requires log[i].now % SECOND == 0 && log[j].now % SECOND == 0
      ensures !(log[i].accepted && log[j].accepted)
    {
      IsRun();
      AtMostOnce(rules, log, first, i, j);
    }

    /** And on any clock, for a hello whose second has passed when it is first presented. */
    lemma LetsInAtMostOnceOnAnyClock(first: nat, i: nat, j: nat)
      requires Valid() && !cache.overflowed && cache.ttl == DEFAULT_TTL && first <= i < j < |log|
      requires log[first].hello == log[i].hello == log[j].hello
      requires NotAhead(rules, log[first].hello, log[first].now + 1 - SECOND)
      ensures !(log[i].accepted && log[j].accepted)
    {
      IsRun();
      AtMostOnceOnAnyClock(rules, log, first, i, j);
    }
  }

  // ---------------------------------------------------------------------------
  // At most once
  // ---------------------------------------------------------------------------

  /** Every time that a user's key reads out of the hello is in the past, or just now. */
  ghost predicate NotAhead(g: Rules, h: Hello, now: int) {
    forall i :: 0 <= i < |g.users| && Carries(g, g.users[i], h) ==>
      TimeOf(g.hmac, g.users[i].key, h.raw, h.random) <= Unix(now)
  }

  /** A user matches exactly within two minutes of the time its key reads out of the hello. */
  lemma MatchIsWindow(g: Rules, u: User, h: Hello, now: int)
    ensures UserMatches(g, u, h, now) <==>
            Carries(g, u, h) && InWindow(Unix(now), TimeOf(g.hmac, u.key, h.raw, h.random))
  {
    hide DigestOk, TimeOf, HostOk;
  }

  /** A second acceptance needs the first entry expired. */
  lemma SecondNeedsExpiry(g: Rules, ttl: int, log: seq<Presentation>, i: nat, j: nat)
    requires Run(g, ttl, log) && i < j < |log|
    requires log[i].hello.random == log[j].hello.random && log[i].accepted && log[j].accepted
    ensures log[j].now - log[i].now > ttl
  {
    hide Matches;
    var h := Lookups(g.sha256, log);
    assert h[..j][i] == h[i];
  }

  /** A hello that is not ahead of one clock does not match two minutes and more after it. */
  lemma MatchBoundsClock(g: Rules, h: Hello, past: int, now: int)
    requires NotAhead(g, h, past) && Matches(g, h, now)
    ensures Unix(now) - Unix(past) <= SKEW
  {
    hide Carries, UserMatches, TimeOf;
    var k :| 0 <= k < |g.users| && UserMatches(g, g.users[k], h, now);
    MatchIsWindow(g, g.users[k], h, now);
  }

  /** And a hello that is still valid when its entry has expired sits exactly on the edge of both windows. */
  lemma SecondSitsOnEdge(g: Rules, log: seq<Presentation>, i: nat, j: nat)
    requires Run(g, DEFAULT_TTL, log) && i < j < |log|
    requires log[i].hello == log[j].hello && log[i].accepted && log[j].accepted
    requires NotAhead(g, log[i].hello, log[i].now)
    ensures Unix(log[j].now) == Unix(log[i].now) + SKEW
    ensures log[j].now - log[i].now > SKEW * SECOND
  {
    hide Matches, NotAhead;
    SecondNeedsExpiry(g, DEFAULT_TTL, log, i, j);
    MatchBoundsClock(g, log[j].hello, log[i].now, log[j].later);
    UnixGap(log[i].now, log[j].now);
    UnixOrdered(log[j].now, log[j].later);
  }

  lemma UnixGap(s: int, t: int)
    requires t - s > SKEW * SECOND
    ensures Unix(t) - Unix(s) >= SKEW
  {}

  /**
    At most once: in a run whose cache never overflowed, on a clock of whole seconds, a hello that is not
    ahead of the clock when it is first presented is let in at most once.
    */
  lemma AtMostOnce(g: Rules, log: seq<Presentation>, first: nat, i: nat, j: nat)
    requires Run(g, DEFAULT_TTL, log) && first <= i < j < |log|
    requires log[first].hello == log[i].hello == log[j].hello
    requires NotAhead(g, log[first].hello, log[first].now)
    requires log[i].now % SECOND == 0 && log[j].now % SECOND == 0
    ensures !(log[i].accepted && log[j].accepted)
  {
    hide Matches, DigestOk, TimeOf;
    if log[i].accepted && log[j].accepted {
      ClockOrdered(g, log, first, i);
      SecondSitsOnEdge(g, log, i, j);
      assert false;
    }
  }

  lemma ClockOrdered(g: Rules, log: seq<Presentation>, i: nat, j: nat)
    requires Run(g, DEFAULT_TTL, log) && i <= j < |log|
    ensures log[i].now <= log[j].now && Unix(log[i].now) <= Unix(log[j].now)
  {
    hide Matches, Complete;
    var h := Lookups(g.sha256, log);
    assert h[i].now <= h[j].now;
  }

  /** On any clock it is enough that the second of the stamp is over at the first presentation. */
  lemma AtMostOnceOnAnyClock(g: Rules, log: seq<Presentation>, first: nat, i: nat, j: nat)
    requires Run(g, DEFAULT_TTL, log) && first <= i < j < |log|
    requires log[first].hello == log[i].hello == log[j].hello
    requires NotAhead(g, log[first].hello, log[first].now + 1 - SECOND)
    ensures !(log[i].accepted && log[j].accepted)
  {
    hide Matches, NotAhead;
    if log[i].accepted && log[j].accepted {
      ClockOrdered(g, log, first, i);
      SecondNeedsExpiry(g, DEFAULT_TTL, log, i, j);
      MatchBoundsClock(g, log[j].hello, log[first].now + 1 - SECOND, log[j].later);
      assert false;
    }
  }

  /** Where SHA-256 does not collide on the randoms presented, a hit means that this very random was let through. */
  lemma HitMeansSameRandom(sha256: bytes -> Digest, ttl: int, log: seq<Presentation>, i: nat)
    requires Sound(Lookups(sha256, log), ttl) && i < |log| && log[i].hit
    requires forall j :: 0 <= j < i && sha256(log[j].hello.random) == sha256(log[i].hello.random) ==>
               log[j].hello.random == log[i].hello.random
    ensures exists j :: 0 <= j < i && log[j].hello.random == log[i].hello.random && !log[j].hit && log[i].now - log[j].now <= ttl
  {
    var h := Lookups(sha256, log);
    assert h[i].hit;
    var j :| 0 <= j < |h[..i]| && h[..i][j].key == h[i].key && !h[..i][j].hit && h[i].now - h[..i][j].now <= ttl;
    assert log[j].hello.random == log[i].hello.random;
  }

  // ---------------------------------------------------------------------------
  // Where the promise ends
  // ---------------------------------------------------------------------------

  /** Shown at s and t, with the time checks at s' and t', the hello is valid both times and forgotten in between. */
  ghost predicate TwiceValid(g: Rules, h: Hello, s: int, s': int, t: int, t': int) {
    t - s > DEFAULT_TTL && Allowed(g, h) && Matches(g, h, s') && Matches(g, h, t')
  }

  /** A new gate lets a hello in twice exactly then. */
  method PresentTwice(g: Rules, maxEntries: int, h: Hello, s: int, s': int, t: int, t': int)
    returns (first: bool, second: bool)
    requires s <= s' && s <= t <= t'
    ensures first && second <==> TwiceValid(g, h, s, s', t, t')
  {
    hide Matches, Ordered, Sound, Complete, EntriesSound, EntriesComplete, CountHits;
    var cache := new ReplayCache(maxEntries, DEFAULT_TTL);
    var gate := new Gate(g, cache);
    LiveIsPart(cache.entries, s, cache.ttl);
    first := gate.Present(h, s, s');
    LiveIsPart(cache.entries, t, cache.ttl);
    second := gate.Present(h, t, t');
  }

  /** The proxy parses these fields, stamped with this user's key at ts, out of a stream. */
  function StampedHello(g: Rules, u: User, f: Fields, ts: nat, rest: bytes): (h: Hello)
    requires Valid(f) && ts < TWO_32
  {
    StampedHelloChecks(g.hmac, u.key, f, ts, 0, rest);
    Parse(Stamp(g.hmac, u.key, EncodeRecord(f), ts) + rest).hello
  }

  /** The user is active, the name in the hello is not a wrong one, and the policies do not mind the hello. */
  predicate Welcome(g: Rules, u: User, f: Fields, raw: bytes) {
    && Active(u) && HostOk(HostOf(f.extensions), u.host)
    && !(g.rejectEch && ECH in Kinds(f.extensions)) && g.fingerprintOk(raw)
  }

  /** What a user's key and the policies make of a hello that was stamped with this key. */
  lemma StampedIsCarried(g: Rules, u: User, f: Fields, ts: nat, rest: bytes)
    requires Valid(f) && ts < TWO_32
    ensures var h := StampedHello(g, u, f, ts, rest);
            && (Carries(g, u, h) <==> Active(u) && HostOk(HostOf(f.extensions), u.host))
            && (Allowed(g, h) <==> !(g.rejectEch && ECH in Kinds(f.extensions)) && g.fingerprintOk(h.raw))
            && |h.raw| >= RANDOM_END && TimeOf(g.hmac, u.key, h.raw, h.random) == ts
  {
    hide Parse, Stamp, EncodeRecord, Sni, HasExtension, HostOf, Kinds, StampedRandom, Zeroed, ValidFields, EncodeMessage, DigestOk, TimeOf, Validate;
    var h := StampedHello(g, u, f, ts, rest);
    StampedHelloChecks(g.hmac, u.key, f, ts, ts, rest);
    StampCarriesTime(g.hmac, u.key, EncodeRecord(f), ts);
    StampIsRandom(g.hmac, u.key, f, ts);
    WalkersAgree(f.(random := StampedRandom(g.hmac(u.key, Zeroed(EncodeRecord(f))), ts)), ECH);
    assert Sni(h.raw) == Some(HostOf(f.extensions)) && HasExtension(h.raw, ECH) == Some(ECH in Kinds(f.extensions));
  }

  /**
    Whoever else there is, a stamped hello that is welcome to one of the users is valid within two minutes of its
    stamp; where there is nobody else, it is valid exactly then.
    */
  lemma StampedIsValid(g: Rules, u: User, f: Fields, ts: nat, rest: bytes, now: int)
    requires Valid(f) && ts < TWO_32 && u in g.users
    ensures var h := StampedHello(g, u, f, ts, rest);
            && (Welcome(g, u, f, h.raw) && InWindow(Unix(now), ts) ==> Allowed(g, h) && Matches(g, h, now))
            && (g.users == [u] ==>
                  (Allowed(g, h) && Matches(g, h, now) <==> Welcome(g, u, f, h.raw) && InWindow(Unix(now), ts)))
  {
    hide StampedHello, Carries, Allowed, UserMatches, HostOf, Kinds, HostOk, TimeOf;
    var h := StampedHello(g, u, f, ts, rest);
    StampedIsCarried(g, u, f, ts, rest);
    MatchIsWindow(g, u, h, now);
    var i :| 0 <= i < |g.users| && g.users[i] == u;
    assert UserMatches(g, u, h, now) ==> UserMatches(g, g.users[i], h, now);
  }

  /**
    The exact condition, for any users and any hello. A hello let in with its replay check at s can be let in again
    exactly when some user's key reads a second out of it that is not over at s, to the last nanosecond. So the
    conditions of the lemmas above cannot be weakened.
    */
  lemma SecondTimeExactlyWhen(g: Rules, h: Hello, s: int, s': int)
    requires Allowed(g, h) && Matches(g, h, s') && s <= s'
    ensures (exists t, t' :: t <= t' && TwiceValid(g, h, s, s', t, t')) <==> !NotAhead(g, h, s + 1 - SECOND)
  {
    hide Allowed, Matches, NotAhead;
    if !NotAhead(g, h, s + 1 - SECOND) {
      var ts := SomeTimeAhead(g, h, s + 1 - SECOND);
      var last := LastMoment(ts);
      ValidInWindow(g, h, ts, last);
      assert TwiceValid(g, h, s, s', last, last);
    }
    if t, t' :| t <= t' && TwiceValid(g, h, s, s', t, t') && NotAhead(g, h, s + 1 - SECOND) {
      MatchBoundsClock(g, h, s + 1 - SECOND, t');
      assert false;
    }
  }

  /** On a clock of whole seconds: exactly when some user's key reads a time out of it that is ahead at s. */
  lemma SecondTimeInWholeSeconds(g: Rules, h: Hello, s: int, s': int)
    requires Allowed(g, h) && Matches(g, h, s') && s <= s' && s % SECOND == 0
    ensures (exists t, t' :: t <= t' && t % SECOND == 0 && t' % SECOND == 0 && TwiceValid(g, h, s, s', t, t'))
       <==> !NotAhead(g, h, s)
  {
    hide Allowed, Matches, NotAhead;
    if !NotAhead(g, h, s) {
      var ts := SomeTimeAhead(g, h, s);
      var last := (ts + SKEW) * SECOND;
      ValidInWindow(g, h, ts, last);
      assert last % SECOND == 0 && TwiceValid(g, h, s, s', last, last);
    }
    if t, t' :| t <= t' && t % SECOND == 0 && t' % SECOND == 0 && TwiceValid(g, h, s, s', t, t') && NotAhead(g, h, s) {
      MatchBoundsClock(g, h, s, t');
      assert false;
    }
  }

  /** A time that some user's key reads out of the hello. */
  ghost predicate ReadsTime(g: Rules, h: Hello, ts: nat) {
    exists i :: 0 <= i < |g.users| && Carries(g, g.users[i], h) && TimeOf(g.hmac, g.users[i].key, h.raw, h.random) == ts
  }

  lemma SomeTimeAhead(g: Rules, h: Hello, now: int) returns (ts: nat)
    requires !NotAhead(g, h, now)
    ensures ReadsTime(g, h, ts) && ts > Unix(now)
  {
    hide DigestOk, TimeOf;
    var i :| 0 <= i < |g.users| && Carries(g, g.users[i], h) && TimeOf(g.hmac, g.users[i].key, h.raw, h.random) > Unix(now);
    ts := TimeOf(g.hmac, g.users[i].key, h.raw, h.random);
  }

  lemma ValidInWindow(g: Rules, h: Hello, ts: nat, now: int)
    requires ReadsTime(g, h, ts) && InWindow(Unix(now), ts)
    ensures Matches(g, h, now)
  {
    hide DigestOk, TimeOf, UserMatches;
    var i :| 0 <= i < |g.users| && Carries(g, g.users[i], h) && TimeOf(g.hmac, g.users[i].key, h.raw, h.random) == ts;
    MatchIsWindow(g, g.users[i], h, now);
  }

  /** The last nanosecond in which a stamp is valid. */
  function LastMoment(ts: nat): (t: int)
    ensures Unix(t) == ts + SKEW
  {
    (ts + SKEW + 1) * SECOND - 1
  }

  /** On a new gate with any users: a stamp ahead of the clock is let in now, and once more in whole seconds. */
  method AheadIsLetInTwice(g: Rules, u: User, f: Fields, ts: nat, rest: bytes, maxEntries: int, s: int)
    returns (first: bool, second: bool, t: int)
    requires Valid(f) && ts < TWO_32 && u in g.users && Welcome(g, u, f, StampedHello(g, u, f, ts, rest).raw)
    requires Unix(s) < ts <= Unix(s) + SKEW
    ensures first && second && t == (ts + SKEW) * SECOND
  {
    hide StampedHello, Allowed, Matches, Welcome;
    t := (ts + SKEW) * SECOND;
    StampedIsValid(g, u, f, ts, rest, s);
    StampedIsValid(g, u, f, ts, rest, t);
    first, second := PresentTwice(g, maxEntries, StampedHello(g, u, f, ts, rest), s, s, t, t);
  }

  /** And a stamp whose second is not over is let in now, and once more in the last nanosecond it is valid. */
  method SubSecondIsLetInTwice(g: Rules, u: User, f: Fields, ts: nat, rest: bytes, maxEntries: int, s: int)
    returns (first: bool, second: bool)
    requires Valid(f) && ts < TWO_32 && u in g.users && Welcome(g, u, f, StampedHello(g, u, f, ts, rest).raw)
    requires InWindow(Unix(s), ts) && s + 1 < (ts + 1) * SECOND
    ensures first && second
  {
    hide StampedHello, Allowed, Matches, Welcome;
    var t := LastMoment(ts);
    StampedIsValid(g, u, f, ts, rest, s);
    StampedIsValid(g, u, f, ts, rest, t);
    first, second := PresentTwice(g, maxEntries, StampedHello(g, u, f, ts, rest), s, s, t, t);
  }
}
