/**
 * The four-timestamp clock exchange (src/ESPressio_ESPNowClockSynchronizer.hpp:140-170, 218-374,
 * 520-589). The sequence counter and the pending sequence are atomics: every load and store
 * is a step of its own, requests may be made by any number of callers, responses are
 * processed by the one receive worker. Steps carry the true time at which they happen.
 */
module ClockExchange {
  import opened Bytes

  const WRAP: nat := 0x1_0000_0000

  /** `RecoverSystemTimestamp`: the system time at which a frame was received. */
  function Recover(nowMonotonic: nat, nowSystem: nat, received: nat): nat {
    if nowMonotonic <= received then nowSystem
    else if nowSystem >= nowMonotonic - received then nowSystem - (nowMonotonic - received)
    else 0
  }

  /**
   * What is recovered, whatever the clocks: the reading when the frame is not older than it,
   * else the reading less the frame's age, and never less than nothing.
   */
  lemma RecoverExactly(nowMonotonic: nat, nowSystem: nat, received: nat)
    ensures nowMonotonic <= received ==> Recover(nowMonotonic, nowSystem, received) == nowSystem
    ensures received < nowMonotonic && nowMonotonic - received <= nowSystem ==>
              Recover(nowMonotonic, nowSystem, received) + (nowMonotonic - received) == nowSystem
    ensures received < nowMonotonic && nowMonotonic - received > nowSystem ==>
              Recover(nowMonotonic, nowSystem, received) == 0
  {
  }

  /**
   * On clocks at constant offsets the true arrival is recovered, late by exactly the time
   * between the two readings; read at one instant they give the arrival itself.
   */
  lemma RecoversArrival(monotonic: nat, system: nat, arrived: nat, a: nat, b: nat)
    requires arrived <= a <= b
    ensures Recover(a + monotonic, b + system, arrived + monotonic) == arrived + system + (b - a)
    ensures Recover(a + monotonic, a + system, arrived + monotonic) == arrived + system
  {
    RecoverExactly(a + monotonic, b + system, arrived + monotonic);
    RecoverExactly(a + monotonic, a + system, arrived + monotonic);
  }

  /**
   * Between the frame's arrival and the reading of the clocks, however far apart the two
   * readings: the reading less the frame's age.
   */
  lemma RecoverBounds(monotonic: nat, system: nat, arrived: nat, a: nat, b: nat)
    requires arrived <= a <= b
    ensures arrived + system <= Recover(a + monotonic, b + system, arrived + monotonic) <= b + system
    ensures Recover(a + monotonic, b + system, arrived + monotonic) == (b + system) - (a - arrived)
  {
  }

  /** Client and reference clocks, at constant offsets from true time. */
  datatype Clocks = Clocks(clientMonotonic: nat, clientSystem: nat, referenceMonotonic: nat, referenceSystem: nat)

  datatype Response = Response(seqNo: nat, t1: nat, t2: nat, t3: nat)
  datatype Sample = Sample(seqNo: nat, t1: nat, t2: nat, t3: nat, t4: nat)

  /** A response on the air, with the true times of the request's arrival and of its own third timestamp. */
  datatype Sent = Sent(response: Response, received: nat, gap: nat, at: nat)

  /** A submitted sample, with the true time of the response's arrival; `gap` is the time between two readings. */
  datatype Taken = Taken(sample: Sample, arrived: nat, gap: nat)

  /** A request on the air, with the true time of its first timestamp. */
  datatype Request = Request(seqNo: nat, t1: nat, at: nat)

  datatype Caller = Idle | Drawn(seqNo: nat, t1: nat, at: nat) | Published(seqNo: nat, t1: nat, at: nat) | Refused
  datatype Handler = Waiting | Matched(response: Response, arrived: nat) | Consumed(response: Response, arrived: nat)

  /** `published` are the sequences whose store to the pending atomic has been done. */
  datatype State = State(
    now: nat, next: nat, drawn: nat, pending: nat, callers: map<nat, Caller>, handler: Handler,
    published: set<nat>, requests: set<Request>, responses: set<Sent>, samples: seq<Taken>)

  datatype Step =
    | Draw(who: nat, at: nat)
    | Publish(who: nat, at: nat)
    | SendRequest(who: nat, ok: bool, at: nat)
    | Clear(who: nat, at: nat)
    | Answer(request: Request, arrived: nat, first: nat, second: nat, at: nat)
    | Load(response: Response, arrived: nat, at: nat)
    | Consume(at: nat)
    | Submit(first: nat, second: nat, at: nat)
    | Reset(at: nat)

  function Initial(): State { State(0, 1, 0, 0, map[], Waiting, {}, {}, {}, []) }

  function CallerOf(s: State, who: nat): Caller { if who in s.callers then s.callers[who] else Idle }

  function Apply(c: Clocks, s: State, step: Step): State {
    if step.at < s.now then s
    else
      var t := s.(now := step.at);
      match step
      case Draw(who, at) =>
        if !CallerOf(s, who).Idle? then t
        else t.(next := (s.next + 1) % WRAP, drawn := s.drawn + 1,
                callers := s.callers[who := Drawn(s.next, at + c.clientSystem, at)])
      case Publish(who, at) =>
        var k := CallerOf(s, who);
        if !k.Drawn? then t
        else t.(pending := k.seqNo, published := s.published + {k.seqNo},
                callers := s.callers[who := Published(k.seqNo, k.t1, k.at)])
      case SendRequest(who, ok, at) =>
        var k := CallerOf(s, who);
        if !k.Published? then t
        else if ok then t.(requests := s.requests + {Request(k.seqNo, k.t1, k.at)}, callers := s.callers[who := Idle])
        else t.(callers := s.callers[who := Refused])
      case Clear(who, at) =>
        if !CallerOf(s, who).Refused? then t else t.(pending := 0, callers := s.callers[who := Idle])
      case Answer(r, arrived, first, second, at) =>
        if r in s.requests && r.at <= arrived <= first <= second <= at then
          var t2 := Recover(first + c.referenceMonotonic, second + c.referenceSystem, arrived + c.referenceMonotonic);
          var response := Response(r.seqNo, r.t1, t2, at + c.referenceSystem);
          t.(responses := s.responses + {Sent(response, arrived, second - first, at)})
        else t
      case Load(response, arrived, at) =>
        if s.handler.Waiting? && s.pending != 0 && response.seqNo == s.pending then
          t.(handler := Matched(response, arrived))
        else t
      case Consume(at) =>
        if s.handler.Matched? then t.(pending := 0, handler := Consumed(s.handler.response, s.handler.arrived)) else t
      case Submit(first, second, at) =>
        if s.handler.Consumed? && s.handler.arrived <= first <= second <= at then
          var r := s.handler.response;
          var t4 := Recover(first + c.clientMonotonic, second + c.clientSystem, s.handler.arrived + c.clientMonotonic);
          var sample := Sample(r.seqNo, r.t1, r.t2, r.t3, t4);
          t.(handler := Waiting, samples := s.samples + [Taken(sample, s.handler.arrived, second - first)])
        else t
      case Reset(at) => t.(pending := 0)
  }

  function Run(c: Clocks, steps: seq<Step>): State {
    if steps == [] then Initial() else Apply(c, Run(c, steps[..|steps| - 1]), steps[|steps| - 1])
  }

  // ---------------------------------------------------------------- one sample per sequence

  ghost predicate Sampled(samples: seq<Taken>, n: nat) {
    exists i :: 0 <= i < |samples| && samples[i].sample.seqNo == n
  }

  /** Drawn sequences are not yet published, and each by one caller. */
  ghost predicate CallersOk(s: State) {
    && (forall w :: w in s.callers && s.callers[w].Drawn? ==>
         s.callers[w].seqNo !in s.published && s.callers[w].seqNo <= s.drawn)
    && forall v, w :: v in s.callers && w in s.callers && s.callers[v].Drawn? && s.callers[w].Drawn? && v != w ==>
         s.callers[v].seqNo != s.callers[w].seqNo
  }

  ghost predicate Once(s: State) {
    && s.next == (s.drawn + 1) % WRAP && CallersOk(s)
    && (forall n :: n in s.published ==> n <= s.drawn)
    && (s.pending != 0 ==> s.pending in s.published && !Sampled(s.samples, s.pending))
    && (s.handler.Matched? ==> s.handler.response.seqNo in s.published && !Sampled(s.samples, s.handler.response.seqNo))
    && (s.handler.Consumed? ==> s.handler.response.seqNo in s.published && !Sampled(s.samples, s.handler.response.seqNo)
                                && s.pending != s.handler.response.seqNo && s.handler.response.seqNo != 0)
    && (s.handler.Matched? ==> s.handler.response.seqNo != 0)
    && (forall i :: 0 <= i < |s.samples| ==> s.samples[i].sample.seqNo in s.published)
    && forall i, j :: 0 <= i < j < |s.samples| ==> s.samples[i].sample.seqNo != s.samples[j].sample.seqNo
  }

  lemma DrawKeeps(c: Clocks, s: State, who: nat, at: nat)
    requires Once(s) && s.drawn + 1 < WRAP
    ensures Once(Apply(c, s, Draw(who, at)))
  {
    hide Sampled;
  }

  lemma PublishKeeps(c: Clocks, s: State, who: nat, at: nat)
    requires Once(s)
    ensures Once(Apply(c, s, Publish(who, at)))
  {
    var k := CallerOf(s, who);
    if at >= s.now && k.Drawn? {
      assert k.seqNo !in s.published;
      assert !Sampled(s.samples, k.seqNo);
    }
  }

  lemma SubmitKeeps(c: Clocks, s: State, first: nat, second: nat, at: nat)
    requires Once(s)
    ensures Once(Apply(c, s, Submit(first, second, at)))
  {
    var t := Apply(c, s, Submit(first, second, at));
    if |t.samples| > |s.samples| {
      var n := s.handler.response.seqNo;
      assert forall i :: 0 <= i < |s.samples| ==> s.samples[i].sample.seqNo != n;
      assert t.pending != 0 ==> !Sampled(t.samples, t.pending);
    }
  }

  lemma OtherKeeps(c: Clocks, s: State, step: Step)
    requires Once(s) && !step.Draw? && !step.Publish? && !step.Submit?
    ensures Once(Apply(c, s, step))
  {
    hide Sampled, Recover;
  }

  lemma StepKeeps(c: Clocks, s: State, step: Step)
    requires Once(s) && Apply(c, s, step).drawn < WRAP
    ensures Once(Apply(c, s, step))
  {
    hide Once;
    match step
    case Draw(who, at) =>
      if at >= s.now && CallerOf(s, who).Idle? {
        DrawKeeps(c, s, who, at);
      } else {
        TimeOnly(s, if at >= s.now then at else s.now);
      }
    case Publish(who, at) => PublishKeeps(c, s, who, at);
    case Submit(first, second, at) => SubmitKeeps(c, s, first, second, at);
    case _ => OtherKeeps(c, s, step);
  }

  lemma TimeOnly(s: State, at: nat)
    requires Once(s)
    ensures Once(s.(now := at))
  {
  }

  lemma DrawnGrows(c: Clocks, s: State, step: Step)
    ensures s.drawn <= Apply(c, s, step).drawn
  {
    hide Recover;
  }

  lemma {:induction false} RunOnce(c: Clocks, steps: seq<Step>)
    requires Run(c, steps).drawn < WRAP
    ensures Once(Run(c, steps))
  {
    hide Apply;
    if steps != [] {
      var front, last := steps[..|steps| - 1], steps[|steps| - 1];
      DrawnGrows(c, Run(c, front), last);
      RunOnce(c, front);
      StepKeeps(c, Run(c, front), last);
    }
  }

  /**
   * At most one sample per sequence number, in every interleaving and whatever responses
   * arrive, as long as the 32-bit counter has not wrapped.
   */
  lemma AtMostOneSample(c: Clocks, steps: seq<Step>, i: nat, j: nat)
    requires Run(c, steps).drawn < WRAP && i < j < |Run(c, steps).samples|
    ensures Run(c, steps).samples[i].sample.seqNo != Run(c, steps).samples[j].sample.seqNo
  {
    RunOnce(c, steps);
  }

  // ---------------------------------------------------------------- honest exchanges

  /** The reference answered a request that was sent: T2 and T3 are its true times on the reference's clock. */
  ghost predicate Answered(c: Clocks, q: Request, p: Sent) {
    && p.response == Response(q.seqNo, q.at + c.clientSystem, p.received + c.referenceSystem + p.gap,
                              p.at + c.referenceSystem)
    && q.at <= p.received && p.received + p.gap <= p.at
  }

  /** The sample is made of that answer and of the true time of its arrival on the client's clock. */
  ghost predicate Exchange(c: Clocks, q: Request, p: Sent, x: Taken) {
    && Answered(c, q, p) && p.at <= x.arrived
    && x.sample == Sample(p.response.seqNo, p.response.t1, p.response.t2, p.response.t3,
                          x.arrived + c.clientSystem + x.gap)
  }

  ghost predicate Bounded(c: Clocks, s: State, p: Sent) { exists q :: q in s.requests && Answered(c, q, p) }

  /** A sample whose exchange really took place. */
  ghost predicate Real(c: Clocks, s: State, x: Taken) {
    exists q, p :: q in s.requests && p in s.responses && Exchange(c, q, p, x)
  }

  ghost predicate FromReference(s: State, r: Response, arrived: nat) {
    exists p :: p in s.responses && p.response == r && p.at <= arrived
  }

  ghost predicate Truthful(c: Clocks, s: State) {
    && (forall w :: w in s.callers && (s.callers[w].Drawn? || s.callers[w].Published?) ==>
          s.callers[w].t1 == s.callers[w].at + c.clientSystem)
    && (forall q :: q in s.requests ==> q.t1 == q.at + c.clientSystem)
    && (forall p :: p in s.responses ==> Bounded(c, s, p))
    && (!s.handler.Waiting? ==> FromReference(s, s.handler.response, s.handler.arrived))
    && forall x :: x in s.samples ==> Real(c, s, x)
  }

  /** Only responses of the reference arrive, after they were sent. */
  ghost predicate HonestStep(s: State, step: Step) {
    step.Load? ==> FromReference(s, step.response, step.arrived)
  }

  lemma MoreRequests(c: Clocks, s: State, t: State)
    requires s.requests <= t.requests && s.responses <= t.responses
    ensures forall p :: Bounded(c, s, p) ==> Bounded(c, t, p)
    ensures forall x :: Real(c, s, x) ==> Real(c, t, x)
  {
    hide Answered, Exchange;
    forall p | Bounded(c, s, p) ensures Bounded(c, t, p) {
      var q :| q in s.requests && Answered(c, q, p);
      assert q in t.requests;
    }
    forall x | Real(c, s, x) ensures Real(c, t, x) {
      var q, p :| q in s.requests && p in s.responses && Exchange(c, q, p, x);
      assert q in t.requests && p in t.responses;
    }
  }

  lemma AnswerTruthful(c: Clocks, s: State, step: Step)
    requires Truthful(c, s) && step.Answer?
    ensures Truthful(c, Apply(c, s, step))
  {
    hide Recover, Bounded, Real;
    var t := Apply(c, s, step);
    MoreRequests(c, s, t);
    var q := step.request;
    if t.responses != s.responses {
      RecoversArrival(c.referenceMonotonic, c.referenceSystem, step.arrived, step.first, step.second);
      var t2 := step.arrived + c.referenceSystem + (step.second - step.first);
      var response := Response(q.seqNo, q.t1, t2, step.at + c.referenceSystem);
      var p := Sent(response, step.arrived, step.second - step.first, step.at);
      assert Bounded(c, t, p) by { AnswerBounded(c, t, q, p); }
    }
  }

  lemma AnswerBounded(c: Clocks, s: State, q: Request, p: Sent)
    requires q in s.requests && Answered(c, q, p)
    ensures Bounded(c, s, p)
  {
  }

  lemma SubmitTruthful(c: Clocks, s: State, step: Step)
    requires Truthful(c, s) && step.Submit?
    ensures Truthful(c, Apply(c, s, step))
  {
    hide Recover, Bounded, Real;
    var t := Apply(c, s, step);
    MoreRequests(c, s, t);
    if t.samples != s.samples {
      var r, arrived := s.handler.response, s.handler.arrived;
      RecoversArrival(c.clientMonotonic, c.clientSystem, arrived, step.first, step.second);
      var p :| p in s.responses && p.response == r && p.at <= arrived;
      assert Bounded(c, s, p);
      var x := t.samples[|s.samples|];
      assert Real(c, t, x) by { SampleReal(c, t, p, x); }
    }
  }

  lemma SampleReal(c: Clocks, s: State, p: Sent, x: Taken)
    requires p in s.responses && Bounded(c, s, p) && p.at <= x.arrived
    requires x.sample == Sample(p.response.seqNo, p.response.t1, p.response.t2, p.response.t3,
                                x.arrived + c.clientSystem + x.gap)
    ensures Real(c, s, x)
  {
    var q :| q in s.requests && Answered(c, q, p);
    assert Exchange(c, q, p, x);
  }

  lemma StepTruthful(c: Clocks, s: State, step: Step)
    requires Truthful(c, s) && HonestStep(s, step)
    ensures Truthful(c, Apply(c, s, step))
  {
    hide Recover, Bounded, Real;
    if step.Answer? {
      AnswerTruthful(c, s, step);
    } else if step.Submit? {
      SubmitTruthful(c, s, step);
    } else {
      MoreRequests(c, s, Apply(c, s, step));
    }
  }

  ghost predicate HonestRun(c: Clocks, steps: seq<Step>) {
    forall i :: 0 <= i < |steps| ==> HonestStep(Run(c, steps[..i]), steps[i])
  }

  lemma {:induction false} HonestRunTruthful(c: Clocks, steps: seq<Step>)
    requires HonestRun(c, steps)
    ensures Truthful(c, Run(c, steps))
  {
    hide Apply, HonestStep;
    if steps != [] {
      var n := |steps| - 1;
      var front := steps[..n];
      forall i | 0 <= i < n ensures HonestStep(Run(c, front[..i]), front[i]) {
        assert front[..i] == steps[..i];
      }
      HonestRunTruthful(c, front);
      StepTruthful(c, Run(c, front), steps[n]);
    }
  }

  /**
   * Honest samples. With a reference that answers as the source does and clocks at constant
   * offsets, every submitted sample belongs to one request and one answer that were sent; its
   * four timestamps are the true times of sending, arrival, sending and arrival, T2 and T4
   * late by exactly the time between the two clock readings. So T1 <= T4, T2 <= T3 and
   * T4 - T1 >= T3 - T2, and what the exchange measures differs from the true time on the air
   * by the two reading times at most.
   */
  lemma HonestSamples(c: Clocks, steps: seq<Step>, x: Taken) returns (q: Request, p: Sent)
    requires HonestRun(c, steps) && x in Run(c, steps).samples
    ensures q in Run(c, steps).requests && p in Run(c, steps).responses
    ensures q.at <= p.received <= p.at <= x.arrived
    ensures x.sample.seqNo == q.seqNo && x.sample.t1 == q.at + c.clientSystem
    ensures x.sample.t2 == p.received + c.referenceSystem + p.gap && x.sample.t3 == p.at + c.referenceSystem
    ensures x.sample.t4 == x.arrived + c.clientSystem + x.gap
    ensures x.sample.t1 <= x.sample.t4 && x.sample.t2 <= x.sample.t3
    ensures x.sample.t4 - x.sample.t1 >= x.sample.t3 - x.sample.t2
    ensures var measured := (x.sample.t4 - x.sample.t1) - (x.sample.t3 - x.sample.t2);
            var onAir := (p.received - q.at) + (x.arrived - p.at);
            measured == onAir + p.gap + x.gap
  {
    hide Run;
    HonestRunTruthful(c, steps);
    assert Real(c, Run(c, steps), x);
    q, p :| q in Run(c, steps).requests && p in Run(c, steps).responses && Exchange(c, q, p, x);
  }

  /**
   * An exchange that nothing disturbs gives a sample: the request with the next sequence, the
   * four timestamps in order, T2 and T4 at the true arrivals late by the time between the
   * two readings on their side; and then nothing is pending.
   */
  lemma ExchangeCompletes(c: Clocks, s: State, who: nat, asks: nat, received: nat, first: nat, second: nat,
                          answers: nat, arrived: nat, third: nat, fourth: nat)
    requires CallerOf(s, who).Idle? && s.handler.Waiting? && s.next != 0 && s.now <= asks
    requires asks <= received <= first <= second <= answers <= arrived <= third <= fourth
    ensures var published := Apply(c, Apply(c, s, Draw(who, asks)), Publish(who, asks));
            var asked := Apply(c, published, SendRequest(who, true, asks));
            var t2 := received + c.referenceSystem + (second - first);
            var response := Response(s.next, asks + c.clientSystem, t2, answers + c.referenceSystem);
            var request := Request(s.next, asks + c.clientSystem, asks);
            var answered := Apply(c, asked, Answer(request, received, first, second, answers));
            var consumed := Apply(c, Apply(c, answered, Load(response, arrived, third)), Consume(third));
            var taken := Apply(c, consumed, Submit(third, fourth, fourth));
            && Sent(response, received, second - first, answers) in answered.responses
            && asked.pending == s.next && taken.pending == 0 && taken.handler.Waiting?
            && taken.samples
               == s.samples + [Taken(Sample(s.next, response.t1, t2, response.t3,
                                            arrived + c.clientSystem + (fourth - third)), arrived, fourth - third)]
  {
    hide Recover;
    RecoversArrival(c.referenceMonotonic, c.referenceSystem, received, first, second);
    RecoversArrival(c.clientMonotonic, c.clientSystem, arrived, third, fourth);
  }

  // ---------------------------------------------------------------- the synchronizer

  /** The synchronizer's own sequence of steps, one call at a time; `m` is the exchange it takes part in. */
  class Synchronizer {
    const clocks: Clocks
    var initialized: bool
    var isClient: bool
    var isReference: bool
    var referencePeer: Addr
    var intervalNanoseconds: nat
    var nextSequence: nat
    var pendingSequence: nat
    var lastRequest: nat
    ghost var m: State

    ghost predicate Valid()
      reads this
    {
      nextSequence == m.next && pendingSequence == m.pending && m.handler.Waiting?
    }

    constructor (c: Clocks)
      ensures Valid() && m == Initial() && clocks == c && !initialized && lastRequest == 0
    {
      clocks, initialized, isClient, isReference, referencePeer, intervalNanoseconds := c, false, false, false, 0, 0;
      nextSequence, pendingSequence, lastRequest, m := 1, 0, 0, Initial();
    }

    /** Draws, publishes, sends, and takes the publication back when the send is refused. */
    method RequestSynchronization(who: nat, at: nat, accepted: bool) returns (sent: bool)
      requires Valid() && at >= m.now && CallerOf(m, who).Idle?
      modifies this`nextSequence, this`pendingSequence, this`lastRequest, this`m
      ensures Valid()
      ensures if initialized && isClient && referencePeer != 0 then
                && sent == accepted && lastRequest == at + clocks.clientMonotonic
                && m == (var published := Apply(clocks, Apply(clocks, old(m), Draw(who, at)), Publish(who, at));
                         var asked := Apply(clocks, published, SendRequest(who, accepted, at));
                         if accepted then asked else Apply(clocks, asked, Clear(who, at)))
                && pendingSequence == (if accepted then old(nextSequence) else 0)
              else !sent && m == old(m) && lastRequest == old(lastRequest)
    {
      if !initialized || !isClient || referencePeer == 0 { return false; }
      var drawnSequence := nextSequence;
      nextSequence := (nextSequence + 1) % WRAP;
      m := Apply(clocks, m, Draw(who, at));
      pendingSequence := drawnSequence;
      m := Apply(clocks, m, Publish(who, at));
      lastRequest := at + clocks.clientMonotonic;
      m := Apply(clocks, m, SendRequest(who, accepted, at));
      if !accepted {
        pendingSequence := 0;
        m := Apply(clocks, m, Clear(who, at));
      }
      sent := accepted;
    }

    /** Takes a response only from the reference peer, only for the pending sequence, and only once. */
    method ProcessResponse(source: Addr, r: Response, arrived: nat, first: nat, second: nat, at: nat)
      returns (taken: bool)
      requires Valid() && m.now <= at && arrived <= first <= second <= at
      modifies this`pendingSequence, this`m
      ensures Valid()
      ensures taken <==> isClient && (referencePeer == 0 || source == referencePeer) && old(pendingSequence) != 0
                         && r.seqNo == old(pendingSequence)
      ensures if taken then
                && pendingSequence == 0
                && m == Apply(clocks, Apply(clocks, Apply(clocks, old(m), Load(r, arrived, at)), Consume(at)),
                              Submit(first, second, at))
                && m.samples == old(m).samples + [Taken(Sample(r.seqNo, r.t1, r.t2, r.t3,
                                                               arrived + clocks.clientSystem + (second - first)),
                                                        arrived, second - first)]
              else m == old(m) && pendingSequence == old(pendingSequence)
    {
      if !isClient || (referencePeer != 0 && source != referencePeer) { return false; }
      if pendingSequence == 0 || r.seqNo != pendingSequence { return false; }
      RecoversArrival(clocks.clientMonotonic, clocks.clientSystem, arrived, first, second);
      m := Apply(clocks, m, Load(r, arrived, at));
      pendingSequence := 0;
      m := Apply(clocks, m, Consume(at));
      m := Apply(clocks, m, Submit(first, second, at));
      taken := true;
    }

    /** The reference's side: echoes sequence and T1, recovers T2, reads T3 last. */
    method ProcessRequest(q: Request, arrived: nat, first: nat, second: nat, at: nat, peerExists: bool)
      returns (response: Option<Response>)
      requires Valid() && m.now <= at && arrived <= first <= second <= at
      modifies this`m
      ensures Valid()
      ensures response.Some? <==> isReference && peerExists
      ensures response.Some? ==>
                var r := response.value;
                && r.seqNo == q.seqNo && r.t1 == q.t1 && r.t2 <= r.t3 == at + clocks.referenceSystem
                && r.t2 == arrived + clocks.referenceSystem + (second - first)
      ensures response.Some? ==> m == Apply(clocks, old(m), Answer(q, arrived, first, second, at))
      ensures response.Some? && q in old(m).requests && q.at <= arrived ==>
                Sent(response.value, arrived, second - first, at) in m.responses
      ensures response.None? ==> m == old(m)
    {
      if !isReference { return None; }
      var t2 := Recover(first + clocks.referenceMonotonic, second + clocks.referenceSystem,
                        arrived + clocks.referenceMonotonic);
      RecoversArrival(clocks.referenceMonotonic, clocks.referenceSystem, arrived, first, second);
      if !peerExists { return None; }
      var t3 := at + clocks.referenceSystem;
      m := Apply(clocks, m, Answer(q, arrived, first, second, at));
      response := Some(Response(q.seqNo, q.t1, t2, t3));
    }

    /** `Update`: attempts, refused or not, are at least one interval apart. */
    method Update(who: nat, at: nat, accepted: bool) returns (attempted: bool)
      requires Valid() && at >= m.now && CallerOf(m, who).Idle? && lastRequest <= at + clocks.clientMonotonic
      modifies this`nextSequence, this`pendingSequence, this`lastRequest, this`m
      ensures Valid()
      ensures attempted ==> lastRequest == at + clocks.clientMonotonic
      ensures attempted && old(lastRequest) != 0 ==> lastRequest - old(lastRequest) >= intervalNanoseconds > 0
      ensures !attempted ==> m == old(m) && lastRequest == old(lastRequest)
    {
      if !initialized || !isClient || intervalNanoseconds == 0 || referencePeer == 0 { return false; }
      var now := at + clocks.clientMonotonic;
      if lastRequest == 0 || now - lastRequest >= intervalNanoseconds {
        var sent := RequestSynchronization(who, at, accepted);
        return true;
      }
      return false;
    }
  }
}
