/**
  The probe blacklist of internal/probe/blacklist.go against the history of its calls. Every call is one
  atomic step with one clock reading, in the order of a clock that does not go back.
  */
module Blacklist {
  import opened Net
  import opened Clock

  datatype Rules = Rules(threshold: nat, duration: nat, window: nat)

  type Counts = map<string, seq<int>>
  type Blocks = map<string, int>

  /** One call: RecordProbe or IsBlocked. */
  datatype Event = Event(ip: string, now: int, probe: bool)

  /** The times after the cutoff. */
  function Inside(times: seq<int>, cutoff: int): (r: seq<int>)
  {
    if times == [] then []
    else Inside(times[..|times| - 1], cutoff) + if times[|times| - 1] > cutoff then [times[|times| - 1]] else []
  }

  /** What is known about one address: the end of its last block, and the probes counted since. */
  datatype View = View(until: Option<int>, probes: seq<int>)

  predicate Blocked(v: View, now: int) {
    v.until.Some? && now < v.until.value
  }

  /** The probe at `now` and the earlier ones that lie in the window with it reach the threshold. */
  predicate Reaches(rules: Rules, probes: seq<int>, now: int) {
    |Inside(probes + [now], now - rules.window)| >= rules.threshold
  }

  /** The times inside a window, counted. */
  lemma {:induction false} InsideCounts(times: seq<int>, cutoff: int)
    ensures |Inside(times, cutoff)| == |set i | 0 <= i < |times| && times[i] > cutoff|
    decreases |times|
  {
    var all := set i | 0 <= i < |times| && times[i] > cutoff;
    if times == [] {
      assert all == {};
    } else {
      var last := |times| - 1;
      InsideCounts(times[..last], cutoff);
      var front := set i | 0 <= i < |times[..last]| && times[..last][i] > cutoff;
      if times[last] > cutoff {
        assert all == front + {last};
      } else {
        assert all == front;
      }
    }
  }

  /** The probe and those less than a window older reach the threshold. */
  lemma ReachesMeans(rules: Rules, probes: seq<int>, now: int)
    requires rules.window > 0
    ensures Reaches(rules, probes, now) <==>
            |set i | 0 <= i < |probes| && now - probes[i] < rules.window| + 1 >= rules.threshold
  {
    InsideSnoc(probes, now, now - rules.window);
    InsideCounts(probes, now - rules.window);
    assert (set i | 0 <= i < |probes| && probes[i] > now - rules.window)
        == (set i | 0 <= i < |probes| && now - probes[i] < rules.window);
  }

  // ---------------------------------------------------------------------------
  // The promise
  // ---------------------------------------------------------------------------

  /** RecordProbe should report a block exactly when this holds of the view before it. */
  predicate ShouldBlock(rules: Rules, v: View, now: int) {
    Blocked(v, now) || Reaches(rules, v.probes, now)
  }

  /** A probe outside a block is counted; one that reaches the threshold starts a block and a new count. */
  function Promise(rules: Rules, v: View, e: Event): (r: View)
  {
    if !e.probe || Blocked(v, e.now) then v
    else if Reaches(rules, v.probes, e.now) then View(Some(e.now + rules.duration), [])
    else v.(probes := v.probes + [e.now])
  }

  function Promised(rules: Rules, h: seq<Event>, ip: string): (v: View)
  {
    if h == [] then View(None, [])
    else
      var v := Promised(rules, h[..|h| - 1], ip);
      if h[|h| - 1].ip == ip then Promise(rules, v, h[|h| - 1]) else v
  }

  // ---------------------------------------------------------------------------
  // What is kept
  // ---------------------------------------------------------------------------

  /** Once the end of a block has passed, everything about the address is forgotten. */
  function Expire(v: View, now: int): (r: View)
  {
    if v.until.Some? && now > v.until.value then View(None, []) else v
  }

  /** IsBlocked forgets already at the very end of the block, RecordProbe only after it. */
  function Keep(rules: Rules, v: View, e: Event): (r: View)
  {
    var w := Expire(v, e.now);
    if !e.probe then (if w.until == Some(e.now) then View(None, []) else w) else Promise(rules, w, e)
  }

  function Kept(rules: Rules, h: seq<Event>, ip: string): (v: View)
  {
    if h == [] then View(None, [])
    else
      var v := Kept(rules, h[..|h| - 1], ip);
      if h[|h| - 1].ip == ip then Keep(rules, v, h[|h| - 1]) else v
  }

  ghost predicate Ordered(h: seq<Event>) {
    forall i, j :: 0 <= i < j < |h| ==> h[i].now <= h[j].now
  }

  /**
    The i-th call is a probe of this address at the very instant its block ends, and the address was not looked
    up at that instant before. A look-up makes IsBlocked forget the block, and then nothing is lost.
    */
  ghost predicate EdgeProbe(rules: Rules, h: seq<Event>, ip: string, i: nat)
    requires i < |h|
  {
    && h[i].ip == ip && h[i].probe
    && Promised(rules, h[..i], ip).until == Some(h[i].now) && Event(ip, h[i].now, false) !in h[..i]
  }

  /** No such probe came from the k-th call on. */
  ghost predicate OffTheEdgeFrom(rules: Rules, h: seq<Event>, ip: string, k: nat) {
    forall i :: k <= i < |h| ==> !EdgeProbe(rules, h, ip, i)
  }

  ghost predicate OffTheEdge(rules: Rules, h: seq<Event>, ip: string) {
    OffTheEdgeFrom(rules, h, ip, 0)
  }

  function Latest(h: seq<Event>, now: int): (t: int)
  {
    if h == [] then now else h[|h| - 1].now
  }

  /** A call at `now` may follow this history. */
  ghost predicate Follows(h: seq<Event>, now: int) {
    Ordered(h) && Latest(h, now) <= now
  }

  /** What is kept decides every later call as the promise does. */
  ghost predicate Agree(kept: View, promised: View, h: seq<Event>, ip: string) {
    && kept.probes == promised.probes
    && (kept.until.Some? ==>
          kept.until == promised.until && kept.probes == [] && Event(ip, kept.until.value, false) !in h)
    && (kept.until.None? && promised.until.Some? ==>
          (h != [] && promised.until.value < Latest(h, 0)) || Event(ip, promised.until.value, false) in h)
  }

  lemma ViewsBefore(rules: Rules, ip: string)
    ensures Kept(rules, [], ip) == Promised(rules, [], ip) == View(None, [])
  {}

  lemma ViewsSnoc(rules: Rules, h: seq<Event>, e: Event)
    ensures Kept(rules, h + [e], e.ip) == Keep(rules, Kept(rules, h, e.ip), e)
    ensures Promised(rules, h + [e], e.ip) == Promise(rules, Promised(rules, h, e.ip), e)
  {
    hide Keep, Promise;
    assert (h + [e])[..|h|] == h;
  }

  lemma NothingLater(h: seq<Event>, e: Event, now: int)
    requires Follows(h, now) && e in h
    ensures e.now <= now && e.now <= Latest(h, now)
  {}

  /** Off the edge, or with a threshold of one, a call keeps the agreement. */
  lemma AgreeStep(rules: Rules, h: seq<Event>, e: Event)
    requires rules.duration > 0 && Follows(h, e.now)
    requires Agree(Kept(rules, h, e.ip), Promised(rules, h, e.ip), h, e.ip)
    requires rules.window > 0 && (rules.threshold == 1 || !EdgeProbe(rules, h + [e], e.ip, |h|))
    ensures Agree(Kept(rules, h + [e], e.ip), Promised(rules, h + [e], e.ip), h + [e], e.ip)
  {
    hide Reaches, Kept, Promised, Ordered;
    ViewsSnoc(rules, h, e);
    OneReaches(rules, Kept(rules, h, e.ip).probes, e.now);
    assert (h + [e])[..|h|] == h;
    var start := Event(e.ip, e.now + rules.duration, false);
    if start in h { NothingLater(h, start, e.now); }
    var kept, promised := Kept(rules, h, e.ip), Promised(rules, h, e.ip);
    if promised.until.Some? {
      var end := Event(e.ip, promised.until.value, false);
      if end in h { NothingLater(h, end, e.now); }
    }
  }

  lemma OneReaches(rules: Rules, probes: seq<int>, now: int)
    requires rules.window > 0
    ensures rules.threshold == 1 ==> Reaches(rules, probes, now)
  {
    InsideSnoc(probes, now, now - rules.window);
  }

  /** A call at another address does, too. */
  lemma AgreeOther(kept: View, promised: View, h: seq<Event>, e: Event, ip: string)
    requires Agree(kept, promised, h, ip) && e.ip != ip && Follows(h, e.now)
    ensures Agree(kept, promised, h + [e], ip)
  {
    hide Ordered;
  }

  /** Nothing that was promised has been forgotten: no probe on the edge, or a threshold at which none matters. */
  ghost predicate Harmless(rules: Rules, h: seq<Event>, ip: string) {
    rules.threshold == 1 || OffTheEdge(rules, h, ip)
  }

  lemma {:induction false} OffTheEdgeAgree(rules: Rules, h: seq<Event>, ip: string)
    requires rules.duration > 0 && rules.window > 0 && Ordered(h) && Harmless(rules, h, ip)
    ensures Agree(Kept(rules, h, ip), Promised(rules, h, ip), h, ip)
    decreases |h|
  {
    hide Keep, Promise, Agree;
    if h == [] {
      ViewsBefore(rules, ip);
      NothingToAgreeOn(ip);
    } else {
      var g, e := h[..|h| - 1], h[|h| - 1];
      assert h == g + [e];
      if OffTheEdge(rules, h, ip) { OffTheEdgeBefore(rules, h, ip, |g|); }
      OffTheEdgeAgree(rules, g, ip);
      if e.ip == ip { AgreeStep(rules, g, e); } else { AgreeOther(Kept(rules, g, ip), Promised(rules, g, ip), g, e, ip); }
    }
  }

  lemma NothingToAgreeOn(ip: string)
    ensures Agree(View(None, []), View(None, []), [], ip)
  {}

  lemma OffTheEdgeBefore(rules: Rules, h: seq<Event>, ip: string, k: nat)
    requires k <= |h| && OffTheEdge(rules, h, ip)
    ensures OffTheEdge(rules, h[..k], ip)
  {
    hide Promised;
    forall i | 0 <= i < k ensures !EdgeProbe(rules, h[..k], ip, i) {
      assert h[..k][..i] == h[..i] && !EdgeProbe(rules, h, ip, i);
    }
  }

  /** RecordProbe and IsBlocked, called at `now` after this history, answer as promised. */
  ghost predicate Truthful(rules: Rules, h: seq<Event>, ip: string, now: int) {
    var kept, promised := Expire(Kept(rules, h, ip), now), Promised(rules, h, ip);
    && (ShouldBlock(rules, kept, now) <==> ShouldBlock(rules, promised, now))
    && (Blocked(kept, now) <==> Blocked(promised, now))
  }

  /** Off the edge, or with a threshold of one, they do, whatever came at other addresses. */
  lemma AnswersAsPromised(rules: Rules, h: seq<Event>, ip: string, now: int)
    requires rules.duration > 0 && rules.window > 0 && Follows(h, now) && Harmless(rules, h, ip)
    ensures Truthful(rules, h, ip, now)
  {
    hide Reaches, Kept, Promised, Ordered, Harmless;
    OffTheEdgeAgree(rules, h, ip);
    var promised := Promised(rules, h, ip);
    if promised.until.Some? && Event(ip, promised.until.value, false) in h {
      NothingLater(h, Event(ip, promised.until.value, false), now);
    }
  }

  // ---------------------------------------------------------------------------
  // The window
  // ---------------------------------------------------------------------------

  /** Pruning at an earlier cutoff first changes nothing. */
  lemma {:induction false} InsideTwice(times: seq<int>, a: int, b: int)
    requires a <= b
    ensures Inside(Inside(times, a), b) == Inside(times, b)
    decreases |times|
  {
    if times == [] {
    } else {
      var front, t := times[..|times| - 1], times[|times| - 1];
      InsideTwice(front, a, b);
      if t > a {
        InsideSnoc(Inside(front, a), t, b);
      } else {
        assert Inside(times, a) == Inside(front, a) && Inside(times, b) == Inside(front, b);
      }
    }
  }

  lemma InsideSnoc(times: seq<int>, t: int, cutoff: int)
    ensures Inside(times + [t], cutoff) == Inside(times, cutoff) + if t > cutoff then [t] else []
  {
    assert (times + [t])[..|times|] == times;
  }

  lemma InsideIsPart(times: seq<int>, cutoff: int, t: int)
    ensures t in Inside(times, cutoff) <==> t in times && t > cutoff
  {
    if times != [] {
      InsideIsPart(times[..|times| - 1], cutoff, t);
      assert times == times[..|times| - 1] + [times[|times| - 1]];
    }
  }

  ghost predicate Sorted(times: seq<int>) {
    forall i, j :: 0 <= i < j < |times| ==> times[i] <= times[j]
  }

  lemma {:induction false} InsideSorted(times: seq<int>, cutoff: int)
    requires Sorted(times)
    ensures Sorted(Inside(times, cutoff))
    decreases |times|
  {
    if times != [] {
      var front := times[..|times| - 1];
      InsideSorted(front, cutoff);
      var r := Inside(front, cutoff);
      forall i | 0 <= i < |r| ensures r[i] <= times[|times| - 1] {
        InsideIsPart(front, cutoff, r[i]);
      }
    }
  }

  /** The loop over pruned := times[:0], which overwrites the slice it reads: it is a pure filter. */
  method PruneInPlace(a: array<int>, cutoff: int) returns (m: nat)
    modifies a
    ensures m <= a.Length && a[..m] == Inside(old(a[..]), cutoff)
  {
    hide Inside;
    ghost var was := a[..];
    m := 0;
    InsideOfNone(cutoff);
    for k := 0 to a.Length
      invariant m <= k
      invariant a[..m] == Inside(was[..k], cutoff)
      invariant forall j :: k <= j < a.Length ==> a[j] == was[j]
    {
      assert was[..k + 1] == was[..k] + [was[k]];
      InsideSnoc(was[..k], was[k], cutoff);
      if a[k] > cutoff {
        ghost var front := a[..m];
        a[m] := a[k];
        assert a[..m + 1] == front + [was[k]];
        m := m + 1;
      }
    }
    assert was[..a.Length] == was;
  }

  // ---------------------------------------------------------------------------
  // The blacklist
  // ---------------------------------------------------------------------------

  /** The stored times of an address are its kept probes, pruned when the last of them came. */
  function Stored(rules: Rules, probes: seq<int>): (r: seq<int>)
  {
    if probes == [] then [] else Inside(probes, probes[|probes| - 1] - rules.window)
  }

  function TimesOf(counts: Counts, ip: string): (r: seq<int>)
  {
    if ip in counts then counts[ip] else []
  }

  function UntilOf(blocked: Blocks, ip: string): (r: Option<int>)
  {
    if ip in blocked then Some(blocked[ip]) else None
  }

  /** The two maps hold exactly the kept view of this address as of time now. */
  ghost predicate Holds(rules: Rules, counts: Counts, blocked: Blocks, ip: string, v: View) {
    UntilOf(blocked, ip) == v.until && TimesOf(counts, ip) == Stored(rules, v.probes)
  }

  /** What holds of a kept view at a time not before its last event. */
  ghost predicate Sane(rules: Rules, v: View, now: int) {
    && Sorted(v.probes) && (v.probes != [] ==> v.probes[|v.probes| - 1] <= now)
    && |Stored(rules, v.probes)| < rules.threshold
    && (v.until.Some? && v.probes != [] ==> v.until.value <= now)
  }

  /** Adding a probe to the stored times and pruning is adding it to all probes and pruning. */
  lemma StoredStep(rules: Rules, probes: seq<int>, now: int)
    requires rules.window > 0 && (probes != [] ==> probes[|probes| - 1] <= now)
    ensures Inside(Stored(rules, probes), now - rules.window) + [now] == Inside(probes + [now], now - rules.window)
    ensures Inside(probes + [now], now - rules.window) == Stored(rules, probes + [now])
  {
    hide Inside, Stored;
    InsideStored(rules, probes, now);
    InsideSnoc(probes, now, now - rules.window);
    StoredOfSnoc(rules, probes, now);
  }

  lemma InsideStored(rules: Rules, probes: seq<int>, now: int)
    requires probes != [] ==> probes[|probes| - 1] <= now
    ensures Inside(Stored(rules, probes), now - rules.window) == Inside(probes, now - rules.window)
  {
    hide Inside;
    if probes != [] { InsideTwice(probes, probes[|probes| - 1] - rules.window, now - rules.window); }
  }

  lemma StoredOfSnoc(rules: Rules, probes: seq<int>, now: int)
    ensures Stored(rules, probes + [now]) == Inside(probes + [now], now - rules.window)
  {
    hide Inside;
    assert (probes + [now])[|probes|] == now;
  }

  lemma SaneStep(rules: Rules, v: View, now: int, e: Event)
    requires rules.threshold > 0 && rules.window > 0 && Sane(rules, v, now) && now <= e.now
    ensures Sane(rules, Keep(rules, v, e), e.now)
  {
    hide Inside, Stored;
    var w := Expire(v, e.now);
    StoredOfNone(rules);
    StoredStep(rules, w.probes, e.now);
  }

  lemma InsideOfNone(cutoff: int)
    ensures Inside([], cutoff) == []
  {}

  lemma StoredOfNone(rules: Rules)
    ensures Stored(rules, []) == []
  {}

  class Blacklist {
    const rules: Rules
    var counts: Counts
    var blocked: Blocks
    ghost var history: seq<Event>

    constructor (threshold: nat, durationSec: int, windowSec: int)
      requires threshold > 0
      ensures rules.threshold == threshold
      ensures rules.duration == SECOND * if durationSec <= 0 then 3600 else durationSec
      ensures rules.window == SECOND * if windowSec <= 0 then 600 else windowSec
      ensures Valid() && history == []
    {
      var duration: nat := if durationSec <= 0 then 3600 else durationSec;
      var window: nat := if windowSec <= 0 then 600 else windowSec;
      rules := Rules(threshold, SECOND * duration, SECOND * window);
      counts, blocked, history := map[], map[], [];
    }

    /** The maps hold, for every address, what is kept of its history as of the latest call. */
    ghost predicate Valid()
      reads this
    {
      && rules.threshold > 0 && rules.duration > 0 && rules.window >= SECOND && Ordered(history)
      && AllHold(history, counts, blocked, Latest(history, 0))
    }

    /** Every address as held by the maps, when its view is expired at now. */
    ghost predicate AllHold(h: seq<Event>, cs: Counts, bs: Blocks, now: int)
    {
      forall ip {:trigger Kept(rules, h, ip)} ::
        Holds(rules, cs, bs, ip, Expire(Kept(rules, h, ip), now)) && Sane(rules, Kept(rules, h, ip), now)
    }

    /** purgeExpiredLocked: forgets every address whose block has ended before now. */
    method PurgeExpired(now: int)
      modifies this`counts, this`blocked
      ensures blocked == map ip | ip in old(blocked) && now <= old(blocked)[ip] :: old(blocked)[ip]
      ensures counts == map ip | ip in old(counts) && !(ip in old(blocked) && now > old(blocked)[ip]) :: old(counts)[ip]
    {
      var todo := blocked.Keys;
      while todo != {}
        invariant todo <= blocked.Keys <= old(blocked).Keys && counts.Keys <= old(counts).Keys
        invariant forall ip :: ip in blocked ==> blocked[ip] == old(blocked)[ip]
        invariant forall ip :: ip in counts ==> counts[ip] == old(counts)[ip]
        invariant forall ip :: ip in old(blocked) && ip !in todo ==> (ip in blocked <==> now <= old(blocked)[ip])
        invariant forall ip :: ip in old(counts) ==>
                    (ip in counts <==> !(ip in old(blocked) && ip !in todo && now > old(blocked)[ip]))
        decreases |todo|
      {
        var ip :| ip in todo;
        todo := todo - {ip};
        if now > blocked[ip] {
          blocked := blocked - {ip};
          counts := counts - {ip};
        }
      }
    }

    /** The purge moves every view on to now. */
    lemma Purged(h: seq<Event>, cs: Counts, bs: Blocks, cs': Counts, bs': Blocks, now: int)
      requires AllHold(h, cs, bs, Latest(h, 0)) && (h != [] ==> Latest(h, now) <= now)
      requires bs' == map ip | ip in bs && now <= bs[ip] :: bs[ip]
      requires cs' == map ip | ip in cs && !(ip in bs && now > bs[ip]) :: cs[ip]
      ensures AllHold(h, cs', bs', now)
    {
      hide Stored, Sorted;
      StoredOfNone(rules);
      forall ip
        ensures Holds(rules, cs', bs', ip, Expire(Kept(rules, h, ip), now)) && Sane(rules, Kept(rules, h, ip), now)
      {
        var v := Kept(rules, h, ip);
        assert Holds(rules, cs, bs, ip, Expire(v, Latest(h, 0))) && Sane(rules, v, Latest(h, 0));
      }
    }

    lemma AfterQuery(v: View, cs: Counts, bs: Blocks, cs': Counts, bs': Blocks, e: Event)
      requires !e.probe && Holds(rules, cs, bs, e.ip, Expire(v, e.now))
      requires if e.ip in bs && e.now >= bs[e.ip] then cs' == cs - {e.ip} && bs' == bs - {e.ip} else cs' == cs && bs' == bs
      ensures Holds(rules, cs', bs', e.ip, Expire(Keep(rules, v, e), e.now))
      ensures e.ip in bs && e.now < bs[e.ip] <==> Blocked(Expire(v, e.now), e.now)
    {
      StoredOfNone(rules);
    }

    /** A call changes the view of its own address only. */
    lemma Stepped(h: seq<Event>, e: Event, cs: Counts, bs: Blocks, cs': Counts, bs': Blocks)
      requires rules.threshold > 0 && rules.window > 0
      requires Ordered(h) && (h != [] ==> Latest(h, e.now) <= e.now) && AllHold(h, cs, bs, e.now)
      requires Holds(rules, cs', bs', e.ip, Expire(Keep(rules, Kept(rules, h, e.ip), e), e.now))
      requires forall ip :: ip != e.ip ==> TimesOf(cs', ip) == TimesOf(cs, ip) && UntilOf(bs', ip) == UntilOf(bs, ip)
      ensures Ordered(h + [e]) && Latest(h + [e], 0) == e.now && AllHold(h + [e], cs', bs', e.now)
    {
      hide Keep, Expire, Sane;
      assert (h + [e])[..|h|] == h;
      SaneStep(rules, Kept(rules, h, e.ip), e.now, e);
      forall ip
        ensures Holds(rules, cs', bs', ip, Expire(Kept(rules, h + [e], ip), e.now)) && Sane(rules, Kept(rules, h + [e], ip), e.now)
      {
        assert Holds(rules, cs, bs, ip, Expire(Kept(rules, h, ip), e.now)) && Sane(rules, Kept(rules, h, ip), e.now);
      }
    }

    /** IsBlocked answers from what is kept, for every history, and as promised off the edge. */
    method IsBlocked(ip: string, now: int) returns (r: bool)
      requires Valid() && (history != [] ==> Latest(history, now) <= now)
      modifies this`counts, this`blocked, this`history
      ensures Valid()
      ensures ip == "" ==> !r && history == old(history)
      ensures ip != "" ==>
                && history == old(history) + [Event(ip, now, false)]
                && r == Blocked(Expire(Kept(rules, old(history), ip), now), now)
                && (Harmless(rules, old(history), ip) ==> r == Blocked(Promised(rules, old(history), ip), now))
    {
      hide Kept, Keep, Ordered, Expire, Holds, Sane, Harmless, Promised;
      if ip == "" { return false; }
      if Harmless(rules, history, ip) { AnswersAsPromised(rules, history, ip, now); }
      ghost var h, cs, bs := history, counts, blocked;
      PurgeExpired(now);
      ghost var e := Event(ip, now, false);
      Purged(h, cs, bs, counts, blocked, now);
      ghost var cs', bs' := counts, blocked;
      assert Holds(rules, cs', bs', ip, Expire(Kept(rules, h, ip), now));
      r := false;
      if ip in blocked {
        if now < blocked[ip] {
          r := true;
        } else {
          blocked := blocked - {ip};
          counts := counts - {ip};
        }
      }
      AfterQuery(Kept(rules, h, ip), cs', bs', counts, blocked, e);
      history := history + [e];
      Stepped(h, e, cs', bs', counts, blocked);
    }

    /** RecordProbe answers from what is kept, for every history, and as promised off the edge. */
    method RecordProbe(ip: string, now: int) returns (r: bool)
      requires Valid() && (history != [] ==> Latest(history, now) <= now)
      modifies this`counts, this`blocked, this`history
      ensures Valid()
      ensures ip == "" ==> !r && history == old(history)
      ensures ip != "" ==>
                && history == old(history) + [Event(ip, now, true)]
                && r == ShouldBlock(rules, Expire(Kept(rules, old(history), ip), now), now)
                && (Harmless(rules, old(history), ip) ==> r == ShouldBlock(rules, Promised(rules, old(history), ip), now))
    {
      hide Kept, Keep, Ordered, Expire, Holds, Sane, Inside, Stored, ShouldBlock, Harmless, Promised;
      if ip == "" { return false; }
      if Harmless(rules, history, ip) { AnswersAsPromised(rules, history, ip, now); }
      ghost var h, cs, bs := history, counts, blocked;
      PurgeExpired(now);
      ghost var e := Event(ip, now, true);
      Purged(h, cs, bs, counts, blocked, now);
      ghost var cs', bs', v := counts, blocked, Kept(rules, h, ip);
      assert Holds(rules, cs', bs', ip, Expire(v, now)) && Sane(rules, v, now);
      history := history + [e];
      if ip in blocked && now < blocked[ip] {
        UnderBlock(v, cs', bs', e);
        Stepped(h, e, cs', bs', counts, blocked);
        return true;
      }
      var pruned := Prune(TimesOf(counts, ip), now - rules.window);
      pruned := pruned + [now];
      OutsideBlock(v, cs', bs', e);
      counts := counts[ip := pruned];
      r := false;
      if |pruned| >= rules.threshold {
        blocked := blocked[ip := now + rules.duration];
        counts := counts - {ip};
        r := true;
      }
      Stepped(h, e, cs', bs', counts, blocked);
    }

    lemma UnderBlock(v: View, cs: Counts, bs: Blocks, e: Event)
      requires e.probe && Holds(rules, cs, bs, e.ip, Expire(v, e.now)) && e.ip in bs && e.now < bs[e.ip]
      ensures Holds(rules, cs, bs, e.ip, Expire(Keep(rules, v, e), e.now))
      ensures ShouldBlock(rules, Expire(v, e.now), e.now)
    {
      hide Stored, Reaches;
    }

    lemma OutsideBlock(v: View, cs: Counts, bs: Blocks, e: Event)
      requires rules.window > 0 && rules.duration > 0
      requires e.probe && Holds(rules, cs, bs, e.ip, Expire(v, e.now)) && !(e.ip in bs && e.now < bs[e.ip])
      requires Sane(rules, v, e.now)
      ensures var pruned := Inside(TimesOf(cs, e.ip), e.now - rules.window) + [e.now];
              var full := |pruned| >= rules.threshold;
              && (full <==> ShouldBlock(rules, Expire(v, e.now), e.now))
              && Holds(
                   rules,
                   if full then cs[e.ip := pruned] - {e.ip} else cs[e.ip := pruned],
                   if full then bs[e.ip := e.now + rules.duration] else bs,
                   e.ip, Expire(Keep(rules, v, e), e.now))
    {
      hide Stored, Inside;
      var w := Expire(v, e.now);
      StoredStep(rules, w.probes, e.now);
      StoredOfNone(rules);
    }

    /** The maps in every reachable state; a blocked address has times only at the instant its block ends. */
    lemma StoredTimes(ip: string)
      requires Valid()
      ensures Sorted(TimesOf(counts, ip)) && |TimesOf(counts, ip)| < rules.threshold
      ensures ip in blocked && TimesOf(counts, ip) != [] ==> blocked[ip] == Latest(history, 0)
    {
      var v := Kept(rules, history, ip);
      var w := Expire(v, Latest(history, 0));
      assert Holds(rules, counts, blocked, ip, w) && Sane(rules, v, Latest(history, 0));
      StoredOfNone(rules);
      if w.probes != [] { InsideSorted(w.probes, w.probes[|w.probes| - 1] - rules.window); }
    }
  }

  /** NewBlacklist: without a positive threshold there is no blacklist, and nothing is ever blocked. */
  method NewBlacklist(threshold: int, durationSec: int, windowSec: int) returns (b: Blacklist?)
    ensures b == null <==> threshold <= 0
    ensures b != null ==>
              && fresh(b) && b.Valid() && b.history == []
              && b.rules.threshold == threshold
              && b.rules.duration == 1_000_000_000 * (if durationSec <= 0 then 3600 else durationSec)
              && b.rules.window == 1_000_000_000 * (if windowSec <= 0 then 600 else windowSec)
  {
    if threshold <= 0 { return null; }
    b := new Blacklist(threshold, durationSec, windowSec);
  }

  /** The pruning of a stored slice. */
  method Prune(times: seq<int>, cutoff: int) returns (r: seq<int>)
    ensures r == Inside(times, cutoff)
  {
    var a := new int[|times|](i requires 0 <= i < |times| => times[i]);
    assert a[..] == times;
    var m := PruneInPlace(a, cutoff);
    r := a[..m];
  }

  // ---------------------------------------------------------------------------
  // The edge
  // ---------------------------------------------------------------------------

  function Probes(ip: string, now: int, n: nat): (h: seq<Event>)
    ensures |h| == n && forall i :: 0 <= i < n ==> h[i] == Event(ip, now, true)
  {
    seq(n, _ => Event(ip, now, true))
  }

  function Times(now: int, n: nat): (times: seq<int>)
    ensures |times| == n && forall i :: 0 <= i < n ==> times[i] == now
  {
    seq(n, _ => now)
  }

  lemma {:induction false} AllInside(times: seq<int>, cutoff: int)
    requires forall i :: 0 <= i < |times| ==> times[i] > cutoff
    ensures Inside(times, cutoff) == times
    decreases |times|
  {
    if times != [] {
      AllInside(times[..|times| - 1], cutoff);
      assert times == times[..|times| - 1] + [times[|times| - 1]];
    }
  }

  /** Whether a probe reaches the threshold when all the earlier ones are in the window with it. */
  lemma ReachesAll(rules: Rules, probes: seq<int>, now: int)
    requires rules.window > 0 && forall i :: 0 <= i < |probes| ==> probes[i] > now - rules.window
    ensures Reaches(rules, probes, now) <==> |probes| + 1 >= rules.threshold
  {
    AllInside(probes + [now], now - rules.window);
  }

  /** After a probe at the end t of a block, the blacklist misses it for as long as the promise counts it. */
  lemma {:induction false} MissedProbe(rules: Rules, h: seq<Event>, ip: string, t: int, m: nat)
    requires rules.window > 1 && m + 2 <= rules.threshold
    requires Kept(rules, h, ip) == Promised(rules, h, ip) == View(Some(t), [t])
    ensures var g := h + Probes(ip, t + 1, m);
            && Expire(Kept(rules, g, ip), t + 1) == View(None, Times(t + 1, m))
            && Promised(rules, g, ip) == View(Some(t), [t] + Times(t + 1, m))
    decreases m
  {
    hide Kept, Promised, Reaches;
    if m == 0 {
      assert h + Probes(ip, t + 1, 0) == h && [t] + Times(t + 1, 0) == [t];
    } else {
      MissedProbe(rules, h, ip, t, m - 1);
      var g, e := h + Probes(ip, t + 1, m - 1), Event(ip, t + 1, true);
      assert h + Probes(ip, t + 1, m) == g + [e];
      ViewsSnoc(rules, g, e);
      ReachesAll(rules, Times(t + 1, m - 1), t + 1);
      ReachesAll(rules, [t] + Times(t + 1, m - 1), t + 1);
      assert Times(t + 1, m - 1) + [t + 1] == Times(t + 1, m);
      assert [t] + Times(t + 1, m - 1) + [t + 1] == [t] + Times(t + 1, m);
    }
  }

  /** The address is at the end t of a block that has not been looked up at t. */
  ghost predicate AtTheEdge(rules: Rules, h: seq<Event>, ip: string, t: int) {
    Follows(h, t) && Promised(rules, h, ip).until == Some(t) && Event(ip, t, false) !in h
  }

  lemma EdgeViews(rules: Rules, h: seq<Event>, ip: string, t: int)
    requires rules.threshold >= 2 && rules.duration > 0 && rules.window > 1
    requires OffTheEdge(rules, h, ip) && AtTheEdge(rules, h, ip, t)
    ensures var g := h + [Event(ip, t, true)]; Kept(rules, g, ip) == Promised(rules, g, ip) == View(Some(t), [t])
  {
    hide Kept, Promised, Reaches, OffTheEdge;
    OffTheEdgeAgree(rules, h, ip);
    ViewsSnoc(rules, h, Event(ip, t, true));
    ReachesAll(rules, [], t);
  }

  /**
    Whatever the history and the threshold from two on: after a probe at the edge and threshold - 2 probes just
    behind it, the next one should start a block, and it does not.
    */
  lemma EdgeProbeMisleads(rules: Rules, h: seq<Event>, ip: string, t: int)
    requires rules.threshold >= 2 && rules.duration > 0 && rules.window > 1
    requires OffTheEdge(rules, h, ip) && AtTheEdge(rules, h, ip, t)
    ensures var g := h + [Event(ip, t, true)] + Probes(ip, t + 1, rules.threshold - 2);
            && ShouldBlock(rules, Promised(rules, g, ip), t + 1)
            && !ShouldBlock(rules, Expire(Kept(rules, g, ip), t + 1), t + 1)
  {
    hide Kept, Promised, Reaches, OffTheEdge, AtTheEdge, Expire;
    EdgeViews(rules, h, ip, t);
    var n := rules.threshold - 2;
    MissedProbe(rules, h + [Event(ip, t, true)], ip, t, n);
    ReachesAll(rules, Times(t + 1, n), t + 1);
    ReachesAll(rules, [t] + Times(t + 1, n), t + 1);
  }

  /** The probes just behind the edge are on no edge themselves. */
  lemma BehindTheEdge(rules: Rules, h: seq<Event>, ip: string, t: int)
    requires rules.threshold >= 2 && rules.window > 1 && Follows(h, t)
    requires Kept(rules, h, ip) == Promised(rules, h, ip) == View(Some(t), [t])
    ensures Continues(rules, h, Probes(ip, t + 1, rules.threshold - 2), ip)
    ensures Follows(h + Probes(ip, t + 1, rules.threshold - 2), t + 1)
  {
    hide Kept, Promised, Expire;
    var c := Probes(ip, t + 1, rules.threshold - 2);
    forall i | |h| <= i < |h + c| ensures !EdgeProbe(rules, h + c, ip, i) {
      assert (h + c)[..i] == h + Probes(ip, t + 1, i - |h|);
      MissedProbe(rules, h, ip, t, i - |h|);
    }
  }

  /** c may follow h, and adds no probe on the edge. */
  ghost predicate Continues(rules: Rules, h: seq<Event>, c: seq<Event>, ip: string) {
    Ordered(h + c) && OffTheEdgeFrom(rules, h + c, ip, |h|)
  }

  /** Whatever happens after h, off the edge, is answered as promised. */
  ghost predicate StaysTruthful(rules: Rules, h: seq<Event>, ip: string) {
    forall c, now :: Continues(rules, h, c, ip) && Follows(h + c, now) ==> Truthful(rules, h + c, ip, now)
  }

  /**
    The exact condition: from every point of a history on, all that may follow off the edge is answered as
    promised, if and only if the threshold is one or no probe of the history was on the edge.
    */
  lemma TruthfulExactlyOffTheEdge(rules: Rules, h: seq<Event>, ip: string)
    requires rules.threshold > 0 && rules.duration > 0 && rules.window > 1 && Ordered(h)
    ensures Harmless(rules, h, ip) <==> forall k :: 0 <= k <= |h| ==> StaysTruthful(rules, h[..k], ip)
  {
    hide Truthful, OffTheEdgeFrom, Ordered, StaysTruthful;
    if Harmless(rules, h, ip) {
      forall k | 0 <= k <= |h| ensures StaysTruthful(rules, h[..k], ip) { HarmlessStaysTruthful(rules, h, ip, k); }
    } else {
      assert h[..|h|] == h;
      var k := FirstEdge(rules, h, ip, |h|);
      EdgeEndsTruth(rules, h, ip, k);
    }
  }

  lemma HarmlessStaysTruthful(rules: Rules, h: seq<Event>, ip: string, k: nat)
    requires rules.threshold > 0 && rules.duration > 0 && rules.window > 0 && k <= |h| && Harmless(rules, h, ip)
    ensures StaysTruthful(rules, h[..k], ip)
  {
    hide Truthful, OffTheEdgeFrom, Ordered;
    var g := h[..k];
    if OffTheEdge(rules, h, ip) { OffTheEdgeBefore(rules, h, ip, k); }
    forall c, now | Continues(rules, g, c, ip) && Follows(g + c, now) ensures Truthful(rules, g + c, ip, now) {
      if OffTheEdge(rules, h, ip) { OffTheEdgeJoin(rules, g, c, ip); }
      AnswersAsPromised(rules, g + c, ip, now);
    }
  }

  lemma OffTheEdgeJoin(rules: Rules, h: seq<Event>, c: seq<Event>, ip: string)
    requires OffTheEdge(rules, h, ip) && OffTheEdgeFrom(rules, h + c, ip, |h|)
    ensures OffTheEdge(rules, h + c, ip)
  {
    hide Promised;
    forall i | 0 <= i < |h + c| ensures !EdgeProbe(rules, h + c, ip, i) {
      if i < |h| { assert (h + c)[..i] == h[..i] && !EdgeProbe(rules, h, ip, i); }
    }
  }

  /** The first probe on the edge. */
  lemma {:induction false} FirstEdge(rules: Rules, h: seq<Event>, ip: string, n: nat) returns (k: nat)
    requires n <= |h| && !OffTheEdge(rules, h[..n], ip)
    ensures k < |h| && EdgeProbe(rules, h, ip, k) && OffTheEdge(rules, h[..k], ip)
    decreases n
  {
    hide Promised;
    var i :| 0 <= i < n && EdgeProbe(rules, h[..n], ip, i);
    assert h[..n][..i] == h[..i];
    if OffTheEdge(rules, h[..i], ip) { k := i; } else { k := FirstEdge(rules, h, ip, i); }
  }

  lemma EdgeEndsTruth(rules: Rules, h: seq<Event>, ip: string, k: nat)
    requires rules.threshold >= 2 && rules.duration > 0 && rules.window > 1 && Ordered(h)
    requires k < |h| && EdgeProbe(rules, h, ip, k) && OffTheEdge(rules, h[..k], ip)
    ensures !StaysTruthful(rules, h[..k + 1], ip)
  {
    hide Kept, Promised, ShouldBlock, Blocked, OffTheEdge, Continues;
    var t := h[k].now;
    var g, c := h[..k] + [Event(ip, t, true)], Probes(ip, t + 1, rules.threshold - 2);
    assert h[..k + 1] == g;
    EdgeViews(rules, h[..k], ip, t);
    EdgeProbeMisleads(rules, h[..k], ip, t);
    BehindTheEdge(rules, g, ip, t);
    assert !Truthful(rules, g + c, ip, t + 1);
  }

  /** The same run on a blacklist in any state at the edge: the last probe is not reported as a block. */
  method EdgeProbeIsForgotten(b: Blacklist, ip: string, t: int) returns (r: bool)
    requires ip != "" && b.Valid() && b.rules.threshold >= 2
    requires OffTheEdge(b.rules, b.history, ip) && AtTheEdge(b.rules, b.history, ip, t)
    modifies b
    ensures b.Valid()
    ensures b.history == old(b.history) + [Event(ip, t, true)] + Probes(ip, t + 1, b.rules.threshold - 2) + [Event(ip, t + 1, true)]
    ensures !r && ShouldBlock(b.rules, Promised(b.rules, b.history[..|b.history| - 1], ip), t + 1)
  {
    hide Kept, Promised, ShouldBlock, Expire, OffTheEdge, Harmless, Blacklist.AllHold, Ordered;
    EdgeProbeMisleads(b.rules, b.history, ip, t);
    var edge := b.RecordProbe(ip, t);
    ghost var h := b.history;
    for k := 0 to b.rules.threshold - 2
      invariant b.Valid() && b.history == h + Probes(ip, t + 1, k)
    {
      assert Probes(ip, t + 1, k) + [Event(ip, t + 1, true)] == Probes(ip, t + 1, k + 1);
      var counted := b.RecordProbe(ip, t + 1);
    }
    ghost var g := b.history;
    r := b.RecordProbe(ip, t + 1);
    assert b.history[..|b.history| - 1] == g;
  }

  /** A block's worth of probes at once, on an address that was never seen. */
  lemma {:induction false} FreshProbes(rules: Rules, ip: string, t: int, m: nat)
    requires rules.window > 0 && m <= rules.threshold && rules.threshold > 0
    ensures Promised(rules, Probes(ip, t, m), ip)
         == if m < rules.threshold then View(None, Times(t, m)) else View(Some(t + rules.duration), [])
    decreases m
  {
    hide Promised, Reaches;
    if m == 0 {
      ViewsBefore(rules, ip);
      assert Probes(ip, t, 0) == [] && Times(t, 0) == [];
    } else {
      FreshProbes(rules, ip, t, m - 1);
      assert Probes(ip, t, m) == Probes(ip, t, m - 1) + [Event(ip, t, true)];
      ViewsSnoc(rules, Probes(ip, t, m - 1), Event(ip, t, true));
      ReachesAll(rules, Times(t, m - 1), t);
      assert Times(t, m - 1) + [t] == Times(t, m);
    }
  }

  lemma FreshBlockEnds(rules: Rules, ip: string, t: int)
    requires rules.window > 0 && rules.threshold > 0
    ensures var h := Probes(ip, t, rules.threshold); OffTheEdge(rules, h, ip) && AtTheEdge(rules, h, ip, t + rules.duration)
  {
    hide Promised;
    var h := Probes(ip, t, rules.threshold);
    FreshProbes(rules, ip, t, rules.threshold);
    forall i | 0 <= i < |h| ensures !EdgeProbe(rules, h, ip, i) {
      assert h[..i] == Probes(ip, t, i);
      FreshProbes(rules, ip, t, i);
    }
  }

  /** Such a state is reached with every threshold from two on, every duration and every window. */
  method EdgeIsReached(ip: string, t: int, threshold: int, durationSec: int, windowSec: int) returns (b: Blacklist, r: bool)
    requires ip != "" && threshold >= 2
    ensures fresh(b) && b.Valid() && b.rules.threshold == threshold
    ensures var last := |b.history| - 1;
            last > 0 && !r && ShouldBlock(b.rules, Promised(b.rules, b.history[..last], ip), b.history[last].now)
  {
    hide Kept, Promised, ShouldBlock, Expire, OffTheEdge, Harmless, AtTheEdge, Blacklist.AllHold, Ordered;
    var made := NewBlacklist(threshold, durationSec, windowSec);
    b := made;
    assert Probes(ip, t, 0) == [];
    for k := 0 to threshold
      invariant fresh(b) && b.Valid() && b.history == Probes(ip, t, k)
    {
      assert Probes(ip, t, k) + [Event(ip, t, true)] == Probes(ip, t, k + 1);
      var blocked := b.RecordProbe(ip, t);
    }
    FreshBlockEnds(b.rules, ip, t);
    r := EdgeProbeIsForgotten(b, ip, t + b.rules.duration);
  }
}
