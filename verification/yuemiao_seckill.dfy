/**
 * The YM (约苗) channel's `SecKill`: pick the configured slot among the
 * sniffed candidates, count down against the server clock with a tiered
 * sleep, then launch subscription attempts until ten seconds past the start.
 */
module YuemiaoSecKill {
  import opened Domain

  // ---------------------------------------------------------------- target

  /** The first candidate whose seckill id is `seckillId`. */
  function Target(candidates: seq<Candidate>, seckillId: string): (r: Option<Candidate>)
    ensures r.None? <==> forall k :: 0 <= k < |candidates| ==> candidates[k].seckill != seckillId
    ensures r.Some? ==> exists k :: (0 <= k < |candidates| && candidates[k] == r.value &&
      r.value.seckill == seckillId && forall j :: 0 <= j < k ==> candidates[j].seckill != seckillId)
  {
    if |candidates| == 0 then None
    else if candidates[0].seckill == seckillId then Some(candidates[0])
    else
      var r := Target(candidates[1..], seckillId);
      assert forall k :: 1 <= k < |candidates| ==> candidates[1..][k - 1] == candidates[k];
      r
  }

  /** The matching loop of `SecKill`: no candidate with the configured id is an error. */
  method SelectTarget(candidates: seq<Candidate>, seckillId: string) returns (r: Result<Candidate>)
    ensures r.Failure? <==> forall k :: 0 <= k < |candidates| ==> candidates[k].seckill != seckillId
    ensures r.Failure? ==> r.error == TargetNotFound
    ensures r.Success? ==> Target(candidates, seckillId) == Some(r.value)
  {
    var i := 0;
    while i < |candidates|
      invariant 0 <= i <= |candidates|
      invariant forall k :: 0 <= k < i ==> candidates[k].seckill != seckillId
    {
      if candidates[i].seckill == seckillId {
        ghost var t := Target(candidates, seckillId).value;
        ghost var k :| 0 <= k < |candidates| && candidates[k] == t && t.seckill == seckillId &&
          forall j :: 0 <= j < k ==> candidates[j].seckill != seckillId;
        assert k == i;
        return Success(candidates[i]);
      }
      i := i + 1;
    }
    return Failure(TargetNotFound);
  }

  // ------------------------------------------------------------- countdown

  /** How close to the start, in milliseconds, the countdown hands over to the burst. */
  const Tolerance := 400

  /** One step of the countdown. */
  datatype Decision = Passed | Dispatch | Sleep(ms: nat)

  /**
   * The tier table, keyed by `diff = server now - start` in milliseconds:
   * at or past the start is an error, within the tolerance dispatches, and
   * further out sleeps for a time that is always shorter than what remains.
   */
  function Decide(diff: int): (d: Decision)
    ensures d.Passed? <==> diff >= 0
    ensures d.Dispatch? <==> -Tolerance <= diff < 0
    ensures d.Sleep? ==> 0 < d.ms < -diff
  {
    if diff >= 0 then Passed
    else if diff >= -Tolerance then Dispatch
    else if diff >= -3 * Tolerance then Sleep(50)
    else if diff >= -3 * 1000 then Sleep(100)
    else if diff >= -10 * 1000 then Sleep(1000)
    else if diff >= -600 * 1000 then Sleep(5 * 1000)
    else if diff >= -3600 * 1000 then Sleep(5 * 60 * 1000)
    else Sleep(30 * 60 * 1000)
  }

  /** The tier boundaries, with no off-by-one: 400 ms before the start dispatches and 401 ms sleeps. */
  lemma TierBoundaries()
    ensures Decide(0) == Passed && Decide(-1) == Dispatch && Decide(-400) == Dispatch
    ensures Decide(-401) == Sleep(50) && Decide(-1200) == Sleep(50)
    ensures Decide(-1201) == Sleep(100) && Decide(-3000) == Sleep(100)
    ensures Decide(-3001) == Sleep(1000) && Decide(-10000) == Sleep(1000)
    ensures Decide(-10001) == Sleep(5000) && Decide(-600000) == Sleep(5000)
    ensures Decide(-600001) == Sleep(300000) && Decide(-3600000) == Sleep(300000)
    ensures Decide(-3600001) == Sleep(1800000)
  {
  }

  /** The closer the start, the shorter the sleep; once dispatching, a later sample before the start dispatches too. */
  lemma SleepShrinksTowardStart(d1: int, d2: int)
    requires d1 <= d2
    ensures Decide(d1).Sleep? && Decide(d2).Sleep? ==> Decide(d1).ms >= Decide(d2).ms
    ensures Decide(d1).Dispatch? && d2 < 0 ==> Decide(d2).Dispatch?
    ensures Decide(d1).Passed? ==> Decide(d2).Passed?
  {
  }

  /** A decoded reply of the server-time endpoint; `data` is 0 when the field is missing. */
  datatype ClockReply = ClockTransportError | ClockParseError | ClockEnvelope(code: string, data: int)

  /** One pass of the countdown loop: the server's reply and the local clock at that moment. */
  datatype ClockSample = ClockSample(reply: ClockReply, localMs: int)

  /**
   * The time a sample stands for: the server's time on code `0000`, the
   * local time on any other code, and an error, with no fallback, when the
   * request or its decoding failed.
   */
  function ServerNow(sample: ClockSample): (r: Result<int>)
    ensures r.Failure? <==> !sample.reply.ClockEnvelope?
    ensures r.Success? && sample.reply.code == OkCode ==> r.value == sample.reply.data
    ensures r.Success? && sample.reply.code != OkCode ==> r.value == sample.localMs
  {
    match sample.reply
    case ClockTransportError => Failure(TransportError("server time"))
    case ClockParseError => Failure(ParseError("server time"))
    case ClockEnvelope(code, data) => Success(if code == OkCode then data else sample.localMs)
  }

  /** How the countdown ends over a finite run of samples, with the sleeps taken on the way. */
  datatype Countdown =
    | Fired(at: nat, sleeps: seq<nat>)       // sample `at` fell within the tolerance
    | Aborted(error: Error, sleeps: seq<nat>)
    | Waiting(sleeps: seq<nat>)              // the samples ran out while still sleeping

  /** `c` preceded by the sleeps `earlier`, one per sample. */
  function After(earlier: seq<nat>, c: Countdown): Countdown
  {
    match c
    case Fired(at, s) => Fired(|earlier| + at, earlier + s)
    case Aborted(e, s) => Aborted(e, earlier + s)
    case Waiting(s) => Waiting(earlier + s)
  }

  lemma AfterAfter(a: seq<nat>, b: seq<nat>, c: Countdown)
    ensures After(a, After(b, c)) == After(a + b, c)
  {
    match c
    case Fired(at, s) => assert a + (b + s) == (a + b) + s;
    case Aborted(e, s) => assert a + (b + s) == (a + b) + s;
    case Waiting(s) => assert a + (b + s) == (a + b) + s;
  }

  lemma AfterNothing(c: Countdown)
    ensures After([], c) == c
  {
    match c
    case Fired(at, s) => assert [] + s == s;
    case Aborted(e, s) => assert [] + s == s;
    case Waiting(s) => assert [] + s == s;
  }

  /** The countdown over the samples, one decision per sample. */
  function RunCountdown(startMs: int, samples: seq<ClockSample>): Countdown
  {
    if |samples| == 0 then Waiting([])
    else match ServerNow(samples[0])
      case Failure(e) => Aborted(e, [])
      case Success(now) =>
        match Decide(now - startMs)
        case Passed => Aborted(DeadlinePassed, [])
        case Dispatch => Fired(0, [])
        case Sleep(ms) => After([ms], RunCountdown(startMs, samples[1..]))
  }

  /** The difference a successful sample shows to the start. */
  function Diff(sample: ClockSample, startMs: int): int
    requires ServerNow(sample).Success?
  {
    ServerNow(sample).value - startMs
  }

  /**
   * The countdown fires on the first sample within the tolerance before the
   * start and never earlier: every sample before it was read without error
   * and was further out, and each of them slept for its tier's time.
   */
  lemma {:induction false} FiresOnlyInWindow(startMs: int, samples: seq<ClockSample>)
    ensures RunCountdown(startMs, samples).Fired? ==>
      var at := RunCountdown(startMs, samples).at;
      at < |samples| && ServerNow(samples[at]).Success? &&
      -Tolerance <= Diff(samples[at], startMs) < 0 &&
      |RunCountdown(startMs, samples).sleeps| == at &&
      forall j :: 0 <= j < at ==>
        (ServerNow(samples[j]).Success? &&
         Diff(samples[j], startMs) < -Tolerance &&
         RunCountdown(startMs, samples).sleeps[j] == Decide(Diff(samples[j], startMs)).ms)
  {
    if |samples| > 0 && ServerNow(samples[0]).Success? {
      var d := Decide(Diff(samples[0], startMs));
      if d.Sleep? {
        var rest := RunCountdown(startMs, samples[1..]);
        FiresOnlyInWindow(startMs, samples[1..]);
        assert forall j :: 1 <= j < |samples| ==> samples[1..][j - 1] == samples[j];
        if rest.Fired? {
          assert RunCountdown(startMs, samples).sleeps == [d.ms] + rest.sleeps;
        }
      }
    }
  }

  /** A sample at or past the start ends the countdown with `DeadlinePassed`, whatever follows. */
  lemma {:induction false} PassedIsTerminal(startMs: int, samples: seq<ClockSample>, k: nat)
    requires k < |samples| && ServerNow(samples[k]).Success? && Diff(samples[k], startMs) >= 0
    requires forall j :: 0 <= j < k ==> ServerNow(samples[j]).Success? && Diff(samples[j], startMs) < -Tolerance
    ensures RunCountdown(startMs, samples).Aborted? && RunCountdown(startMs, samples).error == DeadlinePassed
  {
    if k > 0 {
      assert forall j :: 0 <= j < k - 1 ==> samples[1..][j] == samples[j + 1];
      PassedIsTerminal(startMs, samples[1..], k - 1);
    }
  }

  /** The worked scenario: 5000 ms before the start sleeps one second, 350 ms before fires. */
  lemma CountdownScenario(t: int)
    ensures var samples := [ClockSample(ClockEnvelope(OkCode, t - 5000), 0), ClockSample(ClockEnvelope(OkCode, t - 350), 0)];
      RunCountdown(t, samples) == Fired(1, [1000])
  {
    var samples := [ClockSample(ClockEnvelope(OkCode, t - 5000), 0), ClockSample(ClockEnvelope(OkCode, t - 350), 0)];
    assert samples[1..] == [ClockSample(ClockEnvelope(OkCode, t - 350), 0)];
  }

  /** The countdown from sample `i` on is decided by that sample, and by the later ones only after a sleep. */
  lemma CountdownAt(startMs: int, samples: seq<ClockSample>, i: nat)
    requires i < |samples|
    ensures RunCountdown(startMs, samples[i..]) ==
      match ServerNow(samples[i])
      case Failure(e) => Aborted(e, [])
      case Success(now) =>
        match Decide(now - startMs)
        case Passed => Aborted(DeadlinePassed, [])
        case Dispatch => Fired(0, [])
        case Sleep(ms) => After([ms], RunCountdown(startMs, samples[i + 1..]))
  {
    assert samples[i..][0] == samples[i] && samples[i..][1..] == samples[i + 1..];
  }

  /**
   * The polling loop of `SecKill`: one clock sample per pass, a transport
   * or decoding error or a passed start ends it with that error, the
   * tolerance window ends it ready to dispatch, and any other pass sleeps.
   */
  method CountDown(startMs: int, samples: seq<ClockSample>) returns (outcome: Countdown)
    ensures outcome == RunCountdown(startMs, samples)
  {
    var sleeps: seq<nat> := [];
    var i := 0;
    AfterNothing(RunCountdown(startMs, samples));
    while i < |samples|
      invariant 0 <= i <= |samples|
      invariant |sleeps| == i
      invariant RunCountdown(startMs, samples) == After(sleeps, RunCountdown(startMs, samples[i..]))
    {
      var sample := samples[i];
      CountdownAt(startMs, samples, i);
      if sample.reply.ClockTransportError? {
        return Aborted(TransportError("server time"), sleeps);
      }
      if sample.reply.ClockParseError? {
        return Aborted(ParseError("server time"), sleeps);
      }
      var serverMs := sample.localMs;
      if sample.reply.code == OkCode {
        serverMs := sample.reply.data;
      }
      match Decide(serverMs - startMs)
      case Passed =>
        assert sleeps + [] == sleeps;
        return Aborted(DeadlinePassed, sleeps);
      case Dispatch =>
        assert sleeps + [] == sleeps;
        return Fired(i, sleeps);
      case Sleep(ms) =>
        AfterAfter(sleeps, [ms], RunCountdown(startMs, samples[i + 1..]));
        sleeps := sleeps + [ms];
        i := i + 1;
    }
    assert samples[i..] == [];
    assert sleeps + [] == sleeps;
    return Waiting(sleeps);
  }

  // ----------------------------------------------------------------- burst

  /** The burst stops once `now` (seconds) is more than ten seconds past the start. */
  predicate BurstOver(nowSec: int, startSec: int)
  {
    startSec - nowSec < -10
  }

  /** One pass of the burst loop: whether the limiter admitted an attempt, and the clock in seconds. */
  datatype Tick = Tick(admitted: bool, nowSec: int)

  /** What the burst did: the attempts launched, and whether it reached its stop condition. */
  datatype Burst = Burst(launched: nat, finished: bool)

  /** The burst over a finite run of passes: each pass may launch, then tests the stop condition. */
  function RunBurst(startSec: int, ticks: seq<Tick>): Burst
  {
    if |ticks| == 0 then Burst(0, false)
    else
      var launched := if ticks[0].admitted then 1 else 0;
      if BurstOver(ticks[0].nowSec, startSec) then Burst(launched, true)
      else
        var rest := RunBurst(startSec, ticks[1..]);
        Burst(launched + rest.launched, rest.finished)
  }

  /** The number of admitted passes. */
  function Admitted(ticks: seq<Tick>): nat
  {
    if |ticks| == 0 then 0 else (if ticks[0].admitted then 1 else 0) + Admitted(ticks[1..])
  }

  /**
   * The burst ends on the first pass more than ten seconds after the start
   * (an attempt admitted on that very pass is still launched), and each
   * admitted pass up to it launches exactly one attempt.
   */
  lemma {:induction false} BurstEndsAfterGrace(startSec: int, ticks: seq<Tick>, k: nat)
    requires k < |ticks| && ticks[k].nowSec > startSec + 10
    requires forall j :: 0 <= j < k ==> ticks[j].nowSec <= startSec + 10
    ensures RunBurst(startSec, ticks) == Burst(Admitted(ticks[..k + 1]), true)
  {
    if k > 0 {
      assert forall j :: 0 <= j < k - 1 ==> ticks[1..][j] == ticks[j + 1];
      BurstEndsAfterGrace(startSec, ticks[1..], k - 1);
      assert ticks[1..][..k] == ticks[..k + 1][1..];
    } else {
      assert ticks[..1][1..] == [];
    }
  }

  /** Up to ten seconds after the start the burst goes on, launching on every admitted pass. */
  lemma {:induction false} BurstRunsWithinGrace(startSec: int, ticks: seq<Tick>)
    requires forall j :: 0 <= j < |ticks| ==> ticks[j].nowSec <= startSec + 10
    ensures RunBurst(startSec, ticks) == Burst(Admitted(ticks), false)
  {
    if |ticks| > 0 {
      assert forall j :: 0 <= j < |ticks| - 1 ==> ticks[1..][j] == ticks[j + 1];
      BurstRunsWithinGrace(startSec, ticks[1..]);
    }
  }

  /** The dispatch loop of `SecKill`: launch when admitted, then stop once past the grace period. */
  method BurstDispatch(startSec: int, ticks: seq<Tick>) returns (b: Burst)
    ensures b == RunBurst(startSec, ticks)
  {
    var launched := 0;
    var i := 0;
    while i < |ticks|
      invariant 0 <= i <= |ticks|
      invariant RunBurst(startSec, ticks) ==
        var rest := RunBurst(startSec, ticks[i..]); Burst(launched + rest.launched, rest.finished)
    {
      assert ticks[i..][0] == ticks[i] && ticks[i..][1..] == ticks[i + 1..];
      if ticks[i].admitted {
        launched := launched + 1;
      }
      if BurstOver(ticks[i].nowSec, startSec) {
        return Burst(launched, true);
      }
      i := i + 1;
    }
    assert ticks[i..] == [];
    return Burst(launched, false);
  }

  // -------------------------------------------------------------- attempts

  const BusyMessage := "操作过于频繁,请稍后再试!"
  const SessionExpiredMessage := "用户登录超时,请重新登入!"
  const MissedMessage := "很抱歉 没抢到"

  /** A decoded reply of the subscribe endpoint. */
  datatype SubmitReply = SubmitTransportError | SubmitParseError | SubmitEnvelope(code: string, msg: string)

  /** How one subscription attempt ended. */
  datatype Attempt =
    | NotSent            // the request failed
    | Undecodable        // the body was not JSON
    | Answered           // code `0000`
    | RateLimited
    | SessionExpired
    | Missed
    | Refused(msg: string)

  /** The classification `subscribeVaccine` applies to a reply. */
  function Classify(reply: SubmitReply): (a: Attempt)
    ensures a.Answered? <==> reply.SubmitEnvelope? && reply.code == OkCode
    ensures a.RateLimited? || a.SessionExpired? || a.Missed? || a.Refused? <==>
      reply.SubmitEnvelope? && reply.code != OkCode
  {
    match reply
    case SubmitTransportError => NotSent
    case SubmitParseError => Undecodable
    case SubmitEnvelope(code, msg) =>
      if code == OkCode then Answered
      else if msg == BusyMessage then RateLimited
      else if msg == SessionExpiredMessage then SessionExpired
      else if msg == MissedMessage then Missed
      else Refused(msg)
  }

  /** The pause the attempt takes after its reply, in milliseconds. */
  function Pause(a: Attempt): nat
  {
    match a
    case RateLimited => 125
    case SessionExpired => 2000
    case Missed => 2000
    case _ => 0
  }

  /**
   * Only a rejection pauses: 125 ms when throttled, 2 s when the session
   * expired or the slot was missed; a `0000` reply, any other message, and
   * a failed or undecodable request do not pause.
   */
  lemma PauseForReply(reply: SubmitReply)
    ensures Pause(Classify(reply)) == 125 <==>
      reply.SubmitEnvelope? && reply.code != OkCode && reply.msg == BusyMessage
    ensures Pause(Classify(reply)) == 2000 <==>
      reply.SubmitEnvelope? && reply.code != OkCode &&
      (reply.msg == SessionExpiredMessage || reply.msg == MissedMessage)
    ensures Pause(Classify(reply)) == 0 <==>
      !(reply.SubmitEnvelope? && reply.code != OkCode &&
        (reply.msg == BusyMessage || reply.msg == SessionExpiredMessage || reply.msg == MissedMessage))
  {
  }

  // ---------------------------------------------------------------- seckill

  /** How `SecKill` ends over finite runs of clock samples and burst passes. */
  datatype SecKillReport =
    | Stopped(error: Error)                               // `SecKill` returns this error
    | CountingDown(sleeps: seq<nat>)                      // still in the countdown when the samples ran out
    | Bursting(sleeps: seq<nat>, launched: nat)           // still launching when the passes ran out
    | Done(sleeps: seq<nat>, launched: nat)               // the grace period ended; `SecKill` returns nil

  /**
   * `SecKill`: the sniffed candidates (or the sniff's error), the configured
   * id, the clock samples of the countdown and the passes of the burst.
   */
  method SecKill(sniffed: Result<seq<Candidate>>, seckillId: string, toEpoch: string -> int,
                 samples: seq<ClockSample>, ticks: seq<Tick>)
    returns (report: SecKillReport)
    ensures sniffed.Failure? ==> report == Stopped(sniffed.error)
    ensures sniffed.Success? && Target(sniffed.value, seckillId).None? ==> report == Stopped(TargetNotFound)
    ensures sniffed.Success? && Target(sniffed.value, seckillId).Some? ==>
      var startSec := toEpoch(Target(sniffed.value, seckillId).value.startTime);
      match RunCountdown(startSec * 1000, samples)
      case Aborted(e, _) => report == Stopped(e)
      case Waiting(s) => report == CountingDown(s)
      case Fired(_, s) =>
        var b := RunBurst(startSec, ticks);
        report == if b.finished then Done(s, b.launched) else Bursting(s, b.launched)
  {
    if sniffed.Failure? {
      return Stopped(sniffed.error);
    }
    var target := SelectTarget(sniffed.value, seckillId);
    if target.Failure? {
      return Stopped(target.error);
    }
    var startSec := toEpoch(target.value.startTime);
    var countdown := CountDown(startSec * 1000, samples);
    match countdown
    case Aborted(e, _) => return Stopped(e);
    case Waiting(s) => return CountingDown(s);
    case Fired(_, s) =>
      var b := BurstDispatch(startSec, ticks);
      return if b.finished then Done(s, b.launched) else Bursting(s, b.launched);
  }
}
