/**
 * What one `Update` does, exactly: which entries of the four tables are left and in which
 * order, and which completions, observer calls and cached answers it produces.
 */
module CommandTimeouts {
  import opened Bytes
  import opened CommandCodec
  import opened CommandFragments
  import opened CommandModel
  import opened CommandRuns
  import opened Tables

  /** The events a caller hears about: completions, observer calls and remembered answers. */
  function Reported(): Event -> bool { (e: Event) => e.Completed? || e.Answered? || e.Stored? }

  ghost function Heard(log: Log): Log { Filter(log, Reported()) }

  lemma HeardOne(log: Log, e: Event)
    ensures Heard(log + [e]) == if Reported()(e) then Heard(log) + [e] else Heard(log)
  {
    FilterLast(log, e, Reported());
  }

  /** Events that all count, or all do not, append as a block. */
  lemma {:induction false} HeardMore(log: Log, es: Log, all: bool)
    requires forall i :: 0 <= i < |es| ==> (Reported()(es[i]) <==> all)
    ensures Heard(log + es) == if all then Heard(log) + es else Heard(log)
  {
    hide Heard;
    if es == [] {
      assert log + es == log;
    } else {
      var front, last := es[..|es| - 1], es[|es| - 1];
      HeardMore(log, front, all);
      HeardOne(log + front, last);
      assert log + es == (log + front) + [last];
    }
  }

  // ---------------------------------------------------------------- the cache as a window

  /** The last `n` entries. */
  function Newest<T>(xs: seq<T>, n: nat): seq<T> { if |xs| <= n then xs else xs[|xs| - n..] }

  /** The cached answers of requests that ran out of time, in the order they were accepted. */
  ghost function LateAnswers(xs: seq<Inbound>, now: nat): (cs: seq<Cached>)
    ensures |cs| == |xs|
  {
    seq(|xs|, i requires 0 <= i < |xs| => Cached(xs[i].context.key, now, ResponseBytes(INBOUND_TIMED_OUT)))
  }

  /** What is reported about requests that ran out of time. */
  ghost function LateReports(c: Config, xs: seq<Inbound>): Log {
    if xs == [] then []
    else
      var context := xs[|xs| - 1].context;
      LateReports(c, xs[..|xs| - 1]) + [Answered(context, INBOUND_TIMED_OUT)]
      + if Answerable(c, INBOUND_TIMED_OUT) then [Stored(context.key, INBOUND_TIMED_OUT)] else []
  }

  lemma LateAnswerable(c: Config)
    ensures Answerable(c, INBOUND_TIMED_OUT) <==> c.maxMessage >= 48
  {
  }

  lemma NewestStep<T>(a: seq<T>, x: T, n: nat)
    requires n > 0
    ensures Newest(Newest(a, n) + [x], n) == Newest(a + [x], n)
  {
  }

  lemma SendHeard(s: State, env: Env, to: Addr, m: Message)
    ensures var t := SendPayload(s, env, to, m).state; Heard(t.log) == Heard(s.log) && t == s.(log := t.log)
  {
    hide Filter;
    var es := SendShape(s, env, to, m);
    HeardMore(s.log, es, false);
  }

  lemma StoreHeard(s: State, key: Key, result: CommandResult, now: nat)
    requires s.config.maxDuplicates > 0 && |s.duplicates| <= s.config.maxDuplicates
    ensures var t := Store(s, key, result, now);
            && Heard(t.log) == Heard(s.log) + [Stored(key, result)]
            && t.duplicates == Newest(s.duplicates + [Cached(key, now, ResponseBytes(result))], s.config.maxDuplicates)
            && t == s.(log := t.log, duplicates := t.duplicates)
  {
    hide Heard, ResponseBytes;
    var stored := Event.Stored(key, result);
    if |s.duplicates| >= s.config.maxDuplicates {
      var lost := Forgot(s.duplicates[0].key, Evicted);
      HeardOne(s.log, lost);
      HeardOne(s.log + [lost], stored);
    } else {
      assert s.log + [] == s.log;
      HeardOne(s.log, stored);
    }
  }

  lemma RespondHeard(s: State, env: Env, key: Key, result: CommandResult, now: nat)
    requires s.config.maxDuplicates > 0 && |s.duplicates| <= s.config.maxDuplicates
    ensures var t := Respond(s, env, key, result, now).state;
            && t == s.(log := t.log, duplicates := t.duplicates) && |t.duplicates| <= s.config.maxDuplicates
            && if Answerable(s.config, result) then
                 && Heard(t.log) == Heard(s.log) + [Stored(key, result)]
                 && t.duplicates == Newest(s.duplicates + [Cached(key, now, ResponseBytes(result))],
                                           s.config.maxDuplicates)
               else Heard(t.log) == Heard(s.log) && t.duplicates == s.duplicates
  {
    hide Heard, ResponseBytes, SendPayload, Store;
    if Answerable(s.config, result) {
      StoreHeard(s, key, result, now);
      SendHeard(Store(s, key, result, now), env, key.peer, Message(Response, key.id, ResponseBytes(result)));
    } else {
      HeardOne(s.log, Forgot(key, Unanswerable));
    }
  }

  /** Answering the expired requests: their reports in order, their answers pushed through the cache. */
  lemma {:induction false} ExpireInboundExact(s: State, env: Env, xs: seq<Inbound>, now: nat)
    requires s.config.maxDuplicates > 0 && |s.duplicates| <= s.config.maxDuplicates
    ensures var t := ExpireInbound(s, env, xs, now);
            && t == s.(log := t.log, duplicates := t.duplicates) && |t.duplicates| <= s.config.maxDuplicates
            && Heard(t.log) == Heard(s.log) + LateReports(s.config, xs)
            && t.duplicates == if Answerable(s.config, INBOUND_TIMED_OUT)
                               then Newest(s.duplicates + LateAnswers(xs, now), s.config.maxDuplicates)
                               else s.duplicates
  {
    hide Heard, ResponseBytes, Respond, Answerable, Newest, LateAnswers;
    if xs == [] {
      LateNone(s, now);
    } else {
      var front, last := xs[..|xs| - 1], xs[|xs| - 1];
      ExpireInboundExact(s, env, front, now);
      LateStep(s.duplicates, front, last, now, s.config.maxDuplicates);
      AnswerLate(ExpireInbound(s, env, front, now), env, last.context, now);
      assert xs == front + [last];
    }
  }

  lemma LateNone(s: State, now: nat)
    requires |s.duplicates| <= s.config.maxDuplicates
    ensures Newest(s.duplicates + LateAnswers([], now), s.config.maxDuplicates) == s.duplicates
  {
    assert s.duplicates + [] == s.duplicates;
  }

  /** One expired request: observed, then cached if its answer has a wire form. */
  lemma AnswerLate(u: State, env: Env, context: Context, now: nat)
    requires u.config.maxDuplicates > 0 && |u.duplicates| <= u.config.maxDuplicates
    ensures var v := Emit(u, [Answered(context, INBOUND_TIMED_OUT)]);
            var t := Respond(v, env, context.key, INBOUND_TIMED_OUT, now).state;
            var late := Cached(context.key, now, ResponseBytes(INBOUND_TIMED_OUT));
            && t == u.(log := t.log, duplicates := t.duplicates) && |t.duplicates| <= u.config.maxDuplicates
            && Heard(t.log) == Heard(u.log) + [Answered(context, INBOUND_TIMED_OUT)]
                 + (if Answerable(u.config, INBOUND_TIMED_OUT) then [Stored(context.key, INBOUND_TIMED_OUT)] else [])
            && t.duplicates == if Answerable(u.config, INBOUND_TIMED_OUT)
                               then Newest(u.duplicates + [late], u.config.maxDuplicates) else u.duplicates
  {
    hide Heard, ResponseBytes, Respond, Answerable, Newest;
    HeardOne(u.log, Answered(context, INBOUND_TIMED_OUT));
    RespondHeard(Emit(u, [Answered(context, INBOUND_TIMED_OUT)]), env, context.key, INBOUND_TIMED_OUT, now);
  }

  lemma LateStep(d: seq<Cached>, front: seq<Inbound>, last: Inbound, now: nat, n: nat)
    requires n > 0
    ensures Newest(Newest(d + LateAnswers(front, now), n) + [LateAnswer(last, now)], n)
         == Newest(d + LateAnswers(front + [last], now), n)
  {
    hide ResponseBytes;
    var late := Cached(last.context.key, now, ResponseBytes(INBOUND_TIMED_OUT));
    assert LateAnswers(front + [last], now) == LateAnswers(front, now) + [late];
    assert d + LateAnswers(front + [last], now) == d + LateAnswers(front, now) + [late];
    NewestStep(d + LateAnswers(front, now), late, n);
  }

  // ---------------------------------------------------------------- the sweep

  /** The cache just before its own expiry: timeout answers have pushed the oldest entries out. */
  ghost function CacheAfterAnswers(s: State, now: nat): seq<Cached> {
    var expired := Filter(s.inbound, Not(InboundLive(now, s.config)));
    if Answerable(s.config, INBOUND_TIMED_OUT)
      then Newest(s.duplicates + LateAnswers(expired, now), s.config.maxDuplicates)
    else s.duplicates
  }

  /**
   * Timeout sweep exactness. The live entries of all four tables remain, in order; each
   * expired pending request is completed once with code 4, each expired inbound request is
   * observed once and, when its answer fits the message limit, cached once; nothing else
   * is reported, and the reports come in table order. What is live is stated by plain
   * subtraction of times, with each table's own limit.
   */
  lemma SweepExact(s: State, env: Env, now: nat)
    requires TablesOk(s) && s.initialized
    ensures var t := Sweep(s, env, now);
            && t.pending == Filter(s.pending, PendingLive(now, s.config))
            && t.inbound == Filter(s.inbound, InboundLive(now, s.config))
            && t.slots == Filter(s.slots, SlotLive(now, s.config))
            && t.duplicates == Filter(CacheAfterAnswers(s, now), CachedLive(now, s.config))
            && Heard(t.log) == Heard(s.log)
                 + Completions(Filter(s.pending, Not(PendingLive(now, s.config))), TIMED_OUT, ByTimeout)
                 + LateReports(s.config, Filter(s.inbound, Not(InboundLive(now, s.config))))
            && t == s.(pending := t.pending, inbound := t.inbound, slots := t.slots, duplicates := t.duplicates,
                       log := t.log)
    ensures var t, c := Sweep(s, env, now), s.config;
            && (forall p :: p in t.pending <==> p in s.pending && Within(now, p.started, c.requestTimeout))
            && (forall x :: x in t.inbound <==> x in s.inbound && Within(now, x.accepted, c.inboundTimeout))
            && (forall x :: x in t.slots <==> x in s.slots && Within(now, x.updated, c.reassemblyTimeout))
            && (forall d :: d in t.duplicates <==>
                  d in CacheAfterAnswers(s, now) && Within(now, d.created, c.duplicateLifetime))
  {
    hide Sweep, Filter, CacheAfterAnswers, Completions, LateReports, TablesOk, Heard, Within, PendingLive, InboundLive,
         SlotLive, CachedLive;
    SweepOrder(s, env, now);
    LiveEntries(s.pending, s.inbound, now, s.config);
    LiveRecords(s.slots, CacheAfterAnswers(s, now), now, s.config);
  }

  lemma LiveEntries(ps: seq<Pending>, xs: seq<Inbound>, now: nat, c: Config)
    ensures forall p :: p in Filter(ps, PendingLive(now, c)) <==> p in ps && Within(now, p.started, c.requestTimeout)
    ensures forall x :: x in Filter(xs, InboundLive(now, c)) <==> x in xs && Within(now, x.accepted, c.inboundTimeout)
  {
    hide Filter;
  }

  lemma LiveRecords(ss: seq<Slot>, ds: seq<Cached>, now: nat, c: Config)
    ensures forall x :: x in Filter(ss, SlotLive(now, c)) <==> x in ss && Within(now, x.updated, c.reassemblyTimeout)
    ensures forall d :: d in Filter(ds, CachedLive(now, c)) <==> d in ds && Within(now, d.created, c.duplicateLifetime)
  {
    hide Filter;
  }

  lemma SweepOrder(s: State, env: Env, now: nat)
    requires TablesOk(s) && s.initialized
    ensures var t := Sweep(s, env, now);
            && t.pending == Filter(s.pending, PendingLive(now, s.config))
            && t.inbound == Filter(s.inbound, InboundLive(now, s.config))
            && t.slots == Filter(s.slots, SlotLive(now, s.config))
            && t.duplicates == Filter(CacheAfterAnswers(s, now), CachedLive(now, s.config))
            && Heard(t.log) == Heard(s.log)
                 + Completions(Filter(s.pending, Not(PendingLive(now, s.config))), TIMED_OUT, ByTimeout)
                 + LateReports(s.config, Filter(s.inbound, Not(InboundLive(now, s.config))))
            && t == s.(pending := t.pending, inbound := t.inbound, slots := t.slots, duplicates := t.duplicates,
                       log := t.log)
  {
    hide Heard, Filter, Completions, ExpireInbound, LateReports, LateAnswers, Answerable, Newest;
    var c := s.config;
    var ends := Completions(Filter(s.pending, Not(PendingLive(now, c))), TIMED_OUT, ByTimeout);
    HeardMore(s.log, ends, true);
    var s1 := s.(pending := Filter(s.pending, PendingLive(now, c)), log := s.log + ends);
    var expired := Filter(s.inbound, Not(InboundLive(now, c)));
    ExpireInboundExact(s1.(inbound := Filter(s.inbound, InboundLive(now, c))), env, expired, now);
    var s2 := ExpireInbound(s1.(inbound := Filter(s.inbound, InboundLive(now, c))), env, expired, now);
    var losses := Losses(CachedKeys(Filter(s2.duplicates, Not(CachedLive(now, c)))), Expired);
    HeardMore(s2.log, losses, false);
  }

  /** An expired inbound request can no longer be completed by its handler. */
  lemma ExpiredCannotComplete(s: State, env: Env, now: nat, x: Inbound, env2: Env, result: CommandResult, now2: nat)
    requires TablesOk(s) && s.initialized && x in s.inbound && Elapsed(now, x.accepted) >= s.config.inboundTimeout
    ensures var t := Sweep(s, env, now);
            Complete(t, env2, x.context.key, result, now2) == Outcome(t, false)
  {
    hide Sweep, Filter, Respond, Answerable, CacheAfterAnswers;
    SweepExact(s, env, now);
    var t := Sweep(s, env, now);
    forall i | 0 <= i < |t.inbound| ensures t.inbound[i].context.key != x.context.key {
      assert t.inbound[i] in t.inbound;
      KeysDiffer(s.inbound, x, t.inbound[i]);
    }
  }

  lemma KeysDiffer(xs: seq<Inbound>, x: Inbound, y: Inbound)
    requires DistinctInbound(xs) && x in xs && y in xs && x != y
    ensures x.context.key != y.context.key
  {
  }

  ghost function ExpiredRequests(s: State, now: nat): seq<Inbound> {
    Filter(s.inbound, Not(InboundLive(now, s.config)))
  }

  function LateAnswer(x: Inbound, now: nat): Cached { Cached(x.context.key, now, ResponseBytes(INBOUND_TIMED_OUT)) }

  /**
   * The timeout answer of the `i`-th expired request is in the cache after the sweep exactly
   * when it has a wire form, the cache keeps entries at all, and fewer than its capacity
   * expired after it.
   */
  lemma LateAnswerIsCached(s: State, env: Env, now: nat, i: nat)
    requires TablesOk(s) && s.initialized && i < |ExpiredRequests(s, now)|
    ensures var expired := ExpiredRequests(s, now);
            LateAnswer(expired[i], now) in Sweep(s, env, now).duplicates
            <==> s.config.maxMessage >= 48 && s.config.duplicateLifetime > 0 && |expired| - i <= s.config.maxDuplicates
  {
    hide Sweep, ResponseBytes, Filter, CacheAfterAnswers, LateAnswers, Newest, Answerable, DistinctInbound;
    SweepExact(s, env, now);
    LateAnswerable(s.config);
    var expired := ExpiredRequests(s, now);
    var late := LateAnswer(expired[i], now);
    assert CachedLive(now, s.config)(late) <==> s.config.duplicateLifetime > 0;
    ExpiredApart(s, now, i);
    if Answerable(s.config, INBOUND_TIMED_OUT) {
      assert CacheAfterAnswers(s, now) == Newest(s.duplicates + LateAnswers(expired, now), s.config.maxDuplicates) by {
        CacheIs(s, now);
      }
      LateInWindow(s.duplicates, expired, now, i, s.config.maxDuplicates);
    } else {
      assert CacheAfterAnswers(s, now) == s.duplicates by { CacheIs(s, now); }
    }
  }

  lemma CacheIs(s: State, now: nat)
    ensures CacheAfterAnswers(s, now)
         == if Answerable(s.config, INBOUND_TIMED_OUT)
            then Newest(s.duplicates + LateAnswers(ExpiredRequests(s, now), now), s.config.maxDuplicates)
            else s.duplicates
  {
    hide Answerable, Newest, LateAnswers, Filter;
  }

  /** An expired request has no cached answer yet, and no other expired request shares its key. */
  lemma ExpiredApart(s: State, now: nat, i: nat)
    requires TablesOk(s) && i < |ExpiredRequests(s, now)|
    ensures var expired := ExpiredRequests(s, now);
            && LateAnswer(expired[i], now) !in s.duplicates
            && forall j :: 0 <= j < |expired| && j != i ==> expired[j].context.key != expired[i].context.key
  {
    hide Filter, ResponseBytes;
    var expired, p := ExpiredRequests(s, now), Not(InboundLive(now, s.config));
    var x := expired[i];
    assert x in expired;
    var a :| 0 <= a < |s.inbound| && s.inbound[a] == x;
    assert InboundHas(s.inbound, x.context.key);
    forall j | 0 <= j < |expired| && j != i ensures expired[j].context.key != x.context.key {
      var u, v := FilterPair(s.inbound, p, if i < j then i else j, if i < j then j else i);
    }
  }

  /** Among the newest `n` of `d` and the late answers, an answer is there if it is one of the last `n`. */
  lemma LateInWindow(d: seq<Cached>, expired: seq<Inbound>, now: nat, i: nat, n: nat)
    requires i < |expired| && LateAnswer(expired[i], now) !in d
    requires forall j :: 0 <= j < |expired| && j != i ==> expired[j].context.key != expired[i].context.key
    ensures LateAnswer(expired[i], now) in Newest(d + LateAnswers(expired, now), n) <==> |expired| - i <= n
  {
    hide ResponseBytes, Newest;
    var late, answers := LateAnswer(expired[i], now), LateAnswers(expired, now);
    var all := d + answers;
    assert all[|d| + i] == late;
    forall j | 0 <= j < |all| && j != |d| + i ensures all[j] != late {
      if j < |d| {
        assert all[j] in d;
      } else {
        assert all[j] == answers[j - |d|];
      }
    }
    NewestHas(all, |d| + i, n);
  }

  /** An entry that occurs once is among the newest `n` exactly when fewer than `n` follow it. */
  lemma NewestHas<T>(all: seq<T>, p: nat, n: nat)
    requires p < |all| && forall j :: 0 <= j < |all| && j != p ==> all[j] != all[p]
    ensures all[p] in Newest(all, n) <==> |all| - p <= n
  {
    var newest := Newest(all, n);
    var cut := |all| - |newest|;
    assert forall j :: 0 <= j < |newest| ==> newest[j] == all[cut + j];
    if |all| - p <= n { assert newest[p - cut] == all[p]; }
  }
}
