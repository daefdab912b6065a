/**
 The frequency-scaling controller: a four-sample sliding window over the core's load and two
 rate limits that decide when to move between the three frequency scales.
 */
module Freq {
  import opened Machine

  const MAX_SCALE: nat := 3
  const SAMPLES: nat := 4
  const RATE_LIMIT_UP: nat := 2
  const RATE_LIMIT_DOWN: nat := 60000
  const MESSAGE_RATE_LIMIT: nat := 15000
  const ACK_FINISHED: int := 1

  /** The load band of one frequency. */
  datatype Scale = Scale(minimum: nat, maximum: nat)

  /** nss_runtime_sampling and the auto-scale switch of nss_cmd_buffer. */
  datatype State = State(scales: seq<Scale>, index: nat, ready: bool, up: nat, down: nat,
                         buffer: seq<nat>, next: nat, sum: nat, count: nat, average: nat, message: nat,
                         initialized: bool, autoScale: bool)

  predicate Sane(s: State) {
    && |s.scales| == MAX_SCALE && s.index < MAX_SCALE
    && |s.buffer| == SAMPLES && s.next < SAMPLES && s.count <= SAMPLES
    && s.up <= RATE_LIMIT_UP && s.down <= RATE_LIMIT_DOWN
    && (s.initialized <==> s.count == SAMPLES) && (s.autoScale <==> s.count == SAMPLES)
  }

  /** nss_init.c leaves everything but the middle scale at zero. */
  function Boot(scales: seq<Scale>): (s: State)
    requires |scales| == MAX_SCALE
    ensures Sane(s)
  {
    State(scales, 1, false, 0, 0, [0, 0, 0, 0], 0, 0, 0, 0, 0, false, false)
  }

  /** A load sample, with whether queueing a frequency change would succeed; or an acknowledgement. */
  datatype Event = Sample(load: nat, queued: bool) | Ack(ack: int)

  predicate HasRing(s: State) {
    |s.buffer| == SAMPLES && s.next < SAMPLES
  }

  /** The window after one more sample. */
  function Slide(s: State, load: nat): (s': State)
    requires HasRing(s)
    ensures HasRing(s')
  {
    var sum := U32(U32(s.sum - s.buffer[s.next]) + U32(load));
    s.(buffer := s.buffer[s.next := U32(load)], sum := sum, next := (s.next + 1) % SAMPLES)
  }

  /** What kind of turn a sample causes. */
  datatype Turn = Ignored | Warming | Unready | UpCheck | Tick | DownCheck

  function TurnOf(s: State): Turn {
    if !s.autoScale && s.initialized then Ignored
    else if s.count < SAMPLES then Warming
    else if !s.ready || !s.autoScale then Unready
    else if s.up >= RATE_LIMIT_UP then UpCheck
    else if s.down >= RATE_LIMIT_DOWN then DownCheck
    else Tick
  }

  function Average(s: State, load: nat): nat
    requires Sane(s)
  {
    Slide(s, load).sum / SAMPLES
  }

  predicate Overloaded(s: State, load: nat)
    requires Sane(s)
  {
    Average(s, load) > s.scales[s.index].maximum
  }

  predicate Idle(s: State, load: nat)
    requires Sane(s)
  {
    Average(s, load) < s.scales[s.index].minimum
  }

  /** What a sample does to the scale index. */
  function IndexAfter(s: State, e: Event): nat
    requires Sane(s)
  {
    if e.Sample? && e.queued && TurnOf(s) == UpCheck && Overloaded(s, e.load) && s.index < MAX_SCALE - 1
    then s.index + 1
    else if e.Sample? && e.queued && TurnOf(s) == DownCheck && Idle(s, e.load) && s.index > 0 then s.index - 1
    else s.index
  }

  /** Whether a sample asks for a change, even one that cannot be queued. */
  predicate Requests(s: State, e: Event)
    requires Sane(s)
  {
    && e.Sample?
    && ((TurnOf(s) == UpCheck && Overloaded(s, e.load) && s.index < MAX_SCALE - 1)
        || (TurnOf(s) == DownCheck && Idle(s, e.load) && s.index > 0))
  }

  /** The free-running counter that paces the trace output. */
  function MessageAfter(message: nat): nat {
    if message >= MESSAGE_RATE_LIMIT then 0 else message + 1
  }

  /** The fourth sample switches scaling on. */
  function Warm(w: State): State {
    var full := w.count + 1 == SAMPLES;
    w.(count := w.count + 1, ready := full || w.ready, initialized := full, autoScale := full)
  }

  /** The counters, the index and the ready flag after a full-window sample that found `s` and left window `m`. */
  function Scaled(s: State, e: Event, m: State): State
    requires Sane(s) && e.Sample?
  {
    var turn := TurnOf(s);
    if turn.UpCheck? then
      m.(up := 0, down := if Overloaded(s, e.load) then 0 else s.down,
         index := IndexAfter(s, e), ready := !Requests(s, e))
    else if turn.DownCheck? then
      m.(up := s.up + 1, down := 0, index := IndexAfter(s, e), ready := !Requests(s, e))
    else if turn.Tick? then m.(up := s.up + 1, down := s.down + 1)
    else m
  }

  /** The controller's reaction to one event. */
  function Step(s: State, e: Event): (s': State)
    requires Sane(s)
    ensures Sane(s')
  {
    match e
    case Ack(ack) => if ack == ACK_FINISHED then s.(ready := true) else s
    case Sample(load, queued) =>
      var turn := TurnOf(s);
      if turn.Ignored? then s
      else if turn.Warming? then Warm(Slide(s, load))
      else Scaled(s, e, Slide(s, load).(average := Average(s, load), message := MessageAfter(s.message)))
  }

  /** The state after a whole run. */
  function Run(scales: seq<Scale>, es: seq<Event>): (s: State)
    requires |scales| == MAX_SCALE
    ensures Sane(s)
  {
    if es == [] then Boot(scales) else Step(Run(scales, es[..|es| - 1]), es[|es| - 1])
  }

  // ---------------------------------------------------------------- runs

  lemma RunAppend(scales: seq<Scale>, es: seq<Event>, e: Event)
    requires |scales| == MAX_SCALE
    ensures Run(scales, es + [e]) == Step(Run(scales, es), e)
  {
    assert (es + [e])[..|es|] == es;
  }

  /** The state before event `i` of a run. */
  function At(scales: seq<Scale>, es: seq<Event>, i: nat): (s: State)
    requires |scales| == MAX_SCALE && i <= |es|
    ensures Sane(s)
  {
    Run(scales, es[..i])
  }

  lemma AtNext(scales: seq<Scale>, es: seq<Event>, i: nat)
    requires |scales| == MAX_SCALE && i < |es|
    ensures At(scales, es, i + 1) == Step(At(scales, es, i), es[i])
  {
    assert es[..i + 1] == es[..i] + [es[i]];
    RunAppend(scales, es[..i], es[i]);
  }

  /** The index stays in range and moves by at most one scale per event; acknowledgements never move it. */
  lemma IndexMovesByOne(scales: seq<Scale>, es: seq<Event>, i: nat)
    requires |scales| == MAX_SCALE && i < |es|
    ensures var a, b := At(scales, es, i).index, At(scales, es, i + 1).index;
            && a < MAX_SCALE && b < MAX_SCALE && a - 1 <= b <= a + 1
            && (a != b ==> es[i].Sample? && Requests(At(scales, es, i), es[i]))
  {
    AtNext(scales, es, i);
  }

  /** Once a change was asked for, nothing is asked for until a finished acknowledgement arrives. */
  lemma {:induction false} FrozenUntilAck(scales: seq<Scale>, es: seq<Event>, i: nat, j: nat)
    requires |scales| == MAX_SCALE && i < j <= |es|
    requires Requests(At(scales, es, i), es[i])
    requires forall k :: i < k < j ==> es[k] != Ack(ACK_FINISHED)
    ensures var s := At(scales, es, j);
            !s.ready && s.count == SAMPLES && s.index == At(scales, es, i + 1).index
    decreases j
  {
    AtNext(scales, es, j - 1);
    if i < j - 1 {
      FrozenUntilAck(scales, es, i, j - 1);
    }
  }

  /** Between any two requests lies a finished acknowledgement. */
  lemma AckBetweenRequests(scales: seq<Scale>, es: seq<Event>, i: nat, j: nat)
    requires |scales| == MAX_SCALE && i < j < |es|
    requires Requests(At(scales, es, i), es[i]) && Requests(At(scales, es, j), es[j])
    ensures exists k :: i < k < j && es[k] == Ack(ACK_FINISHED)
  {
    if forall k :: i < k < j ==> es[k] != Ack(ACK_FINISHED) {
      FrozenUntilAck(scales, es, i, j);
    }
  }

  /** A change asked for before event `j` has not been acknowledged yet. */
  ghost predicate Unacknowledged(scales: seq<Scale>, es: seq<Event>, i: nat, j: nat)
    requires |scales| == MAX_SCALE && i < j <= |es|
  {
    Requests(At(scales, es, i), es[i]) && forall k :: i < k < j ==> es[k] != Ack(ACK_FINISHED)
  }

  ghost predicate AwaitsAck(scales: seq<Scale>, es: seq<Event>, j: nat)
    requires |scales| == MAX_SCALE && j <= |es|
  {
    exists i: nat :: i < j && Unacknowledged(scales, es, i, j)
  }

  /** What one event does to the ready flag of a full window. */
  lemma StepReady(s: State, e: Event)
    requires Sane(s) && s.count == SAMPLES
    ensures var s' := Step(s, e);
            && s'.count == SAMPLES
            && s'.ready == (e == Ack(ACK_FINISHED) || (s.ready && !Requests(s, e)))
            && (Requests(s, e) ==> s.ready && e.Sample?)
  {
  }

  /** The sample that fills the window makes the controller ready, and asks for nothing. */
  lemma StepWarm(s: State, e: Event)
    requires Sane(s) && s.count < SAMPLES
    ensures Step(s, e).count == SAMPLES ==> Step(s, e).ready
    ensures !Requests(s, e)
  {
  }

  /**
   Once the window is full the controller is frozen exactly while a change it asked for -- queued
   or not -- is unacknowledged; the first finished acknowledgement releases it.
   */
  lemma {:induction false} FrozenIff(scales: seq<Scale>, es: seq<Event>, j: nat)
    requires |scales| == MAX_SCALE && j <= |es| && At(scales, es, j).count == SAMPLES
    ensures !At(scales, es, j).ready <==> AwaitsAck(scales, es, j)
    decreases j
  {
    hide Step, Requests, At;
    if j == 0 {
      NothingAtBoot(scales, es);
    } else {
      var s, e := At(scales, es, j - 1), es[j - 1];
      AtNext(scales, es, j - 1);
      if s.count == SAMPLES {
        StepReady(s, e);
        FrozenIff(scales, es, j - 1);
        FrozenStep(scales, es, j);
      } else {
        StepWarm(s, e);
        NoRequestWhileWarming(scales, es, j);
      }
    }
  }

  lemma NothingAtBoot(scales: seq<Scale>, es: seq<Event>)
    requires |scales| == MAX_SCALE
    ensures At(scales, es, 0).count == 0
  {
  }

  /** The unacknowledged requests before event `j` are those before `j - 1`, unless it ends or starts one. */
  lemma FrozenStep(scales: seq<Scale>, es: seq<Event>, j: nat)
    requires |scales| == MAX_SCALE && 0 < j <= |es|
    ensures AwaitsAck(scales, es, j)
       <==> Requests(At(scales, es, j - 1), es[j - 1])
            || (es[j - 1] != Ack(ACK_FINISHED) && AwaitsAck(scales, es, j - 1))
  {
    hide Requests, At;
    if Requests(At(scales, es, j - 1), es[j - 1]) {
      assert Unacknowledged(scales, es, j - 1, j);
    } else {
      if AwaitsAck(scales, es, j) {
        var i: nat :| i < j && Unacknowledged(scales, es, i, j);
        assert Unacknowledged(scales, es, i, j - 1);
      }
      if es[j - 1] != Ack(ACK_FINISHED) && AwaitsAck(scales, es, j - 1) {
        var i: nat :| i < j - 1 && Unacknowledged(scales, es, i, j - 1);
        assert Unacknowledged(scales, es, i, j);
      }
    }
  }

  /** Before the window is full nothing is asked for. */
  lemma {:induction false} NoRequestWhileWarming(scales: seq<Scale>, es: seq<Event>, j: nat)
    requires |scales| == MAX_SCALE && 0 < j <= |es| && At(scales, es, j - 1).count < SAMPLES
    ensures forall i: nat :: i < j ==> !Requests(At(scales, es, i), es[i])
    decreases j
  {
    hide Step, Requests, At;
    StepWarm(At(scales, es, j - 1), es[j - 1]);
    if j > 1 {
      AtNext(scales, es, j - 2);
      CountGrows(At(scales, es, j - 2), es[j - 2]);
      NoRequestWhileWarming(scales, es, j - 1);
    }
  }

  lemma CountGrows(s: State, e: Event)
    requires Sane(s)
    ensures s.count <= Step(s, e).count
  {
  }

  /** Samples of one load, with no memory to queue a change. */
  function Unqueued(n: nat, load: nat): (es: seq<Event>)
    ensures |es| == n && forall i :: 0 <= i < n ==> es[i] == Sample(load, false)
  {
    if n == 0 then [] else Unqueued(n - 1, load) + [Sample(load, false)]
  }

  function RingOf(n: nat, load: nat): seq<nat> {
    if n == 0 then [0, 0, 0, 0] else if n == 1 then [load, 0, 0, 0]
    else if n == 2 then [load, load, 0, 0] else if n == 3 then [load, load, load, 0]
    else [load, load, load, load]
  }

  function SumOf(n: nat, load: nat): nat {
    if n == 0 then 0 else if n == 1 then load else if n == 2 then 2 * load else if n == 3 then 3 * load
    else 4 * load
  }

  function AfterUnqueued(scales: seq<Scale>, n: nat, load: nat): State
    requires n <= 6
  {
    var full := n >= 4;
    var ticks := if full then n - 4 else 0;
    State(scales, 1, full, ticks, ticks, RingOf(if full then 4 else n, load), n % 4, SumOf(if full then 4 else n, load),
          if full then 4 else n, if n > 4 then load else 0, ticks, full, full)
  }

  /** The window of a steady load. */
  lemma SlideSteady(scales: seq<Scale>, n: nat, load: nat)
    requires |scales| == MAX_SCALE && n < 6 && load < 0x4000_0000
    ensures var s, s' := AfterUnqueued(scales, n, load), AfterUnqueued(scales, n + 1, load);
            Sane(s) && Slide(s, load) == s.(buffer := s'.buffer, sum := s'.sum, next := s'.next)
  {
    hide U32, RingOf, SumOf;
    var s := AfterUnqueued(scales, n, load);
    RingTurns(n, load);
    U32Small(s.sum - s.buffer[n % 4]);
    U32Small(load);
    U32Small(s.sum - s.buffer[n % 4] + load);
  }

  lemma RingTurns(n: nat, load: nat)
    requires n < 6 && load < 0x4000_0000
    ensures var m, m' := if n < 4 then n else 4, if n < 3 then n + 1 else 4;
            && |RingOf(m, load)| == SAMPLES && RingOf(m, load)[n % 4 := load] == RingOf(m', load)
            && RingOf(m, load)[n % 4] == (if n < 4 then 0 else load) <= SumOf(m, load)
            && SumOf(m, load) - RingOf(m, load)[n % 4] + load == SumOf(m', load) < 0x1_0000_0000
  {
  }

  lemma U32Small(x: int)
    requires 0 <= x < 0x1_0000_0000
    ensures U32(x) == x
  {
  }

  lemma StepUnqueued(scales: seq<Scale>, n: nat, load: nat)
    requires |scales| == MAX_SCALE && n < 6 && load < 0x4000_0000
    ensures var s := AfterUnqueued(scales, n, load);
            Sane(s) && Step(s, Sample(load, false)) == AfterUnqueued(scales, n + 1, load)
  {
    hide Slide, RingOf;
    SlideSteady(scales, n, load);
  }

  lemma {:induction false} RunUnqueued(scales: seq<Scale>, n: nat, load: nat)
    requires |scales| == MAX_SCALE && n <= 6 && load < 0x4000_0000
    ensures Run(scales, Unqueued(n, load)) == AfterUnqueued(scales, n, load)
  {
    if n > 0 {
      RunUnqueued(scales, n - 1, load);
      RunAppend(scales, Unqueued(n - 1, load), Sample(load, false));
      StepUnqueued(scales, n - 1, load);
    }
  }

  lemma SeventhRequests(scales: seq<Scale>, load: nat)
    requires |scales| == MAX_SCALE && scales[1].maximum < load < 0x4000_0000
    ensures var s := AfterUnqueued(scales, 6, load);
            Sane(s) && Requests(s, Sample(load, false)) && Step(s, Sample(load, false)).index == 1
  {
  }

  /**
   The failing run, for any bands and any steady load above the middle one: the change asked for by
   the seventh sample is never queued, so the scale stays where it is and, whatever follows, nothing
   moves it before a finished acknowledgement.
   */
  lemma {:induction false} UnqueuedChangeFreezes(scales: seq<Scale>, load: nat, more: seq<Event>)
    requires |scales| == MAX_SCALE && scales[1].maximum < load < 0x4000_0000
    requires forall k :: 0 <= k < |more| ==> more[k] != Ack(ACK_FINISHED)
    ensures var s := Run(scales, Unqueued(7, load) + more);
            !s.ready && s.index == 1
  {
    hide Step, Requests, Run, AfterUnqueued;
    var es := Unqueued(7, load) + more;
    RunUnqueued(scales, 6, load);
    SeventhRequests(scales, load);
    assert es[..6] == Unqueued(6, load);
    AtNext(scales, es, 6);
    FrozenUntilAck(scales, es, 6, |es|);
    assert es[..|es|] == es;
  }

  /** The bands of the 110, 600 and 800 MHz table. */
  function IpqBands(): (b: seq<Scale>)
    ensures |b| == MAX_SCALE
  {
    [Scale(0x3000, 0x7000), Scale(0x7000, 0x8000), Scale(0x7000, 0x25000)]
  }

  /** With these bands a steady load just above the middle one is enough. */
  lemma IpqFreezes(more: seq<Event>)
    requires forall k :: 0 <= k < |more| ==> more[k] != Ack(ACK_FINISHED)
    ensures var s := Run(IpqBands(), Unqueued(7, 0x8001) + more);
            !s.ready && s.index == 1
  {
    UnqueuedChangeFreezes(IpqBands(), 0x8001, more);
  }

  /** Event `i` is a sample that counts towards slowing down. */
  predicate CountsDown(scales: seq<Scale>, es: seq<Event>, i: nat)
    requires |scales| == MAX_SCALE && i < |es|
  {
    es[i].Sample? && (TurnOf(At(scales, es, i)) == Tick || TurnOf(At(scales, es, i)) == DownCheck)
  }

  /** Event `i` is an up-check that finds the core overloaded. */
  predicate FindsOverload(scales: seq<Scale>, es: seq<Event>, i: nat)
    requires |scales| == MAX_SCALE && i < |es|
  {
    es[i].Sample? && TurnOf(At(scales, es, i)) == UpCheck && Overloaded(At(scales, es, i), es[i].load)
  }

  /** How many events of `[lo, hi)` count towards slowing down. */
  function DownCounts(scales: seq<Scale>, es: seq<Event>, lo: nat, hi: nat): nat
    requires |scales| == MAX_SCALE && lo <= hi <= |es|
    decreases hi - lo
  {
    if lo == hi then 0
    else DownCounts(scales, es, lo, hi - 1) + if CountsDown(scales, es, hi - 1) then 1 else 0
  }

  /** What one event does to the count towards slowing down. */
  lemma StepDown(s: State, e: Event)
    requires Sane(s)
    ensures Step(s, e).down
            == if e.Ack? then s.down
               else match TurnOf(s)
                 case DownCheck => 0
                 case Tick => s.down + 1
                 case UpCheck => if Overloaded(s, e.load) then 0 else s.down
                 case _ => s.down
  {
  }

  lemma BootDown(scales: seq<Scale>, es: seq<Event>)
    requires |scales| == MAX_SCALE
    ensures At(scales, es, 0).down == 0
  {
  }

  /** Where the present count towards slowing down began. */
  lemma {:induction false} QuietStretch(scales: seq<Scale>, es: seq<Event>, n: nat) returns (start: nat)
    requires |scales| == MAX_SCALE && n <= |es|
    ensures start <= n && DownCounts(scales, es, start, n) == At(scales, es, n).down
    ensures forall i :: start <= i < n ==> !FindsOverload(scales, es, i)
    decreases n
  {
    hide Step, At, TurnOf, Overloaded;
    if n == 0 {
      start := 0;
      BootDown(scales, es);
    } else {
      start := QuietStretch(scales, es, n - 1);
      AtNext(scales, es, n - 1);
      var s, e := At(scales, es, n - 1), es[n - 1];
      StepDown(s, e);
      if e.Sample? && (TurnOf(s) == DownCheck || FindsOverload(scales, es, n - 1)) {
        start := n;
      }
    }
  }

  /**
   The controller slows down only at the 60001st counted sample of a stretch in which no
   up-check found the core overloaded -- and hence no step up was made.
   */
  lemma SlowsDownOnlyWhenQuiet(scales: seq<Scale>, es: seq<Event>, n: nat) returns (start: nat)
    requires |scales| == MAX_SCALE && n < |es|
    requires At(scales, es, n + 1).index < At(scales, es, n).index
    ensures start <= n && DownCounts(scales, es, start, n + 1) == RATE_LIMIT_DOWN + 1
    ensures forall i :: start <= i <= n ==> !FindsOverload(scales, es, i)
    ensures forall i :: start <= i <= n ==> At(scales, es, i + 1).index <= At(scales, es, i).index
  {
    AtNext(scales, es, n);
    start := QuietStretch(scales, es, n);
    forall i | start <= i <= n
      ensures !FindsOverload(scales, es, i) && At(scales, es, i + 1).index <= At(scales, es, i).index
    {
      AtNext(scales, es, i);
    }
  }

  // ---------------------------------------------------------------- the sliding window

  /** The loads of a run, as the 32-bit counter carries them. */
  function Loads(es: seq<Event>): seq<nat> {
    if es == [] then []
    else
      var l, e := Loads(es[..|es| - 1]), es[|es| - 1];
      if e.Sample? then l + [U32(e.load)] else l
  }

  /** The last four loads, oldest first; before there are four, zeros stand for the missing ones. */
  function LastLoads(loads: seq<nat>): (l: seq<nat>)
    ensures |l| == SAMPLES
  {
    ([0, 0, 0, 0] + loads)[|loads|..]
  }

  /** The sample ring read from the slot that is overwritten next. */
  function Oldest(s: State): (r: seq<nat>)
    requires HasRing(s)
    ensures |r| == SAMPLES
  {
    s.buffer[s.next..] + s.buffer[..s.next]
  }

  function Total(l: seq<nat>): nat
    requires |l| == SAMPLES
  {
    l[0] + l[1] + l[2] + l[3]
  }

  ghost predicate WindowOf(s: State, loads: seq<nat>)
    requires Sane(s)
  {
    && s.count == (if |loads| < SAMPLES then |loads| else SAMPLES)
    && Oldest(s) == LastLoads(loads)
    && s.sum == U32(Total(LastLoads(loads)))
  }

  /** Overwriting slot `i` of a ring and reading on from the next slot drops the oldest element. */
  lemma RotatedOverwrite(b: seq<nat>, i: nat, x: nat)
    requires i < |b|
    ensures var b', n := b[i := x], if i + 1 == |b| then 0 else i + 1;
            b'[n..] + b'[..n] == (b[i..] + b[..i])[1..] + [x]
  {
    var b' := b[i := x];
    assert (b[i..] + b[..i])[1..] == b[i + 1..] + b[..i];
    if i + 1 == |b| {
      assert b' == b[..i] + [x];
    } else {
      assert b'[i + 1..] == b[i + 1..] && b'[..i + 1] == b[..i] + [x];
    }
  }

  /** One sample pushes the oldest load out of the ring and the newest in. */
  lemma SlideOldest(s: State, load: nat)
    requires HasRing(s)
    ensures Oldest(Slide(s, load)) == Oldest(s)[1..] + [U32(load)]
  {
    hide U32;
    RotatedOverwrite(s.buffer, s.next, U32(load));
    assert Slide(s, load).next == if s.next + 1 == SAMPLES then 0 else s.next + 1;
  }

  lemma SlideSum(s: State, load: nat)
    requires Sane(s) && s.sum == U32(Total(Oldest(s)))
    ensures Slide(s, load).sum == U32(Total(Oldest(s)[1..] + [U32(load)]))
  {
    var o := Oldest(s);
    var gone: int := o[0];
    assert gone == s.buffer[s.next];
    U32Add(Total(o), -gone);
    U32Add(Total(o) - gone, U32(load));
    assert Total(o[1..] + [U32(load)]) == Total(o) - o[0] + U32(load);
  }

  lemma LastLoadsAppend(loads: seq<nat>, x: nat)
    ensures LastLoads(loads + [x]) == LastLoads(loads)[1..] + [x]
  {
    assert [0, 0, 0, 0] + (loads + [x]) == ([0, 0, 0, 0] + loads) + [x];
  }

  /** A sample shifts the window by one load. */
  lemma StepWindow(s: State, e: Event, loads: seq<nat>)
    requires Sane(s) && e.Sample? && WindowOf(s, loads)
    ensures WindowOf(Step(s, e), loads + [U32(e.load)])
  {
    SlideOldest(s, e.load);
    SlideSum(s, e.load);
    LastLoadsAppend(loads, U32(e.load));
    StepSlides(s, e);
  }

  lemma StepSlides(s: State, e: Event)
    requires Sane(s) && e.Sample?
    ensures var s', w := Step(s, e), Slide(s, e.load);
            && s'.buffer == w.buffer && s'.next == w.next && s'.sum == w.sum
            && s'.count == if s.count < SAMPLES then s.count + 1 else SAMPLES
  {
  }

  /** From boot on, the ring holds the last four loads in order and `sum` is their total modulo 2^32. */
  lemma {:induction false} WindowHolds(scales: seq<Scale>, es: seq<Event>)
    requires |scales| == MAX_SCALE
    ensures WindowOf(Run(scales, es), Loads(es))
  {
    hide Step, Slide, LastLoads, Oldest, Total;
    if es == [] {
      BootWindow(scales);
    } else {
      var init, e := es[..|es| - 1], es[|es| - 1];
      WindowHolds(scales, init);
      if e.Sample? {
        StepWindow(Run(scales, init), e, Loads(init));
      } else {
        AckKeepsWindow(Run(scales, init), e, Loads(init));
      }
    }
  }

  lemma BootWindow(scales: seq<Scale>)
    requires |scales| == MAX_SCALE
    ensures WindowOf(Boot(scales), [])
  {
  }

  lemma AckKeepsWindow(s: State, e: Event, loads: seq<nat>)
    requires Sane(s) && e.Ack? && WindowOf(s, loads)
    ensures WindowOf(Step(s, e), loads)
  {
  }

  /** The average the controller acts on is the floor of the mean of the last four loads, if they are below 2^30. */
  lemma AverageIsMean(scales: seq<Scale>, es: seq<Event>, load: nat)
    requires |scales| == MAX_SCALE && |Loads(es)| >= SAMPLES - 1
    requires load < 0x4000_0000 && SmallLoads(Loads(es))
    ensures var l := Loads(es);
            Average(Run(scales, es), load) == (load + l[|l| - 1] + l[|l| - 2] + l[|l| - 3]) / 4
  {
    hide Run, Slide, LastLoads, Loads, Total, Oldest;
    WindowHolds(scales, es);
    SlideSum(Run(scales, es), load);
    LastThree(Loads(es), load);
  }

  lemma LastThree(l: seq<nat>, load: nat)
    requires |l| >= SAMPLES - 1
    ensures Total(LastLoads(l)[1..] + [load]) == load + l[|l| - 1] + l[|l| - 2] + l[|l| - 3]
  {
    var o := LastLoads(l);
    assert o[1] == l[|l| - 3] && o[2] == l[|l| - 2] && o[3] == l[|l| - 1];
  }

  // ---------------------------------------------------------------- when the scale moves

  /** A sample the scale algorithm acts on: four loads came before it and no change is unacknowledged. */
  ghost predicate Counted(scales: seq<Scale>, es: seq<Event>, i: nat)
    requires |scales| == MAX_SCALE && i < |es|
  {
    es[i].Sample? && |Loads(es[..i])| >= SAMPLES && !AwaitsAck(scales, es, i)
  }

  /** How many such samples there were before event `n`. */
  ghost function CountedBefore(scales: seq<Scale>, es: seq<Event>, n: nat): nat
    requires |scales| == MAX_SCALE && n <= |es|
  {
    if n == 0 then 0 else CountedBefore(scales, es, n - 1) + if Counted(scales, es, n - 1) then 1 else 0
  }

  /** Every third of them is an up-check. */
  ghost predicate ChecksUp(scales: seq<Scale>, es: seq<Event>, i: nat)
    requires |scales| == MAX_SCALE && i < |es|
  {
    Counted(scales, es, i) && CountedBefore(scales, es, i) % 3 == 2
  }

  /** What the 32-bit average of the last four loads is when sample `i` is in. */
  function MeanAt(es: seq<Event>, i: nat): nat
    requires i < |es|
  {
    U32(Total(LastLoads(Loads(es[..i + 1])))) / SAMPLES
  }

  /**
   The others since an up-check last found the mean above the band, or since the last of them that was
   the 60001st.
   */
  ghost function QuietBefore(scales: seq<Scale>, es: seq<Event>, n: nat): nat
    requires |scales| == MAX_SCALE && n <= |es|
  {
    if n == 0 then 0
    else
      var before := QuietBefore(scales, es, n - 1);
      if ChecksUp(scales, es, n - 1) then
        if MeanAt(es, n - 1) > scales[At(scales, es, n - 1).index].maximum then 0 else before
      else if !Counted(scales, es, n - 1) then before
      else if before == RATE_LIMIT_DOWN then 0
      else before + 1
  }

  /** The 60001st of a quiet stretch is a down-check. */
  ghost predicate ChecksDown(scales: seq<Scale>, es: seq<Event>, i: nat)
    requires |scales| == MAX_SCALE && i < |es|
  {
    && Counted(scales, es, i) && !ChecksUp(scales, es, i)
    && QuietBefore(scales, es, i) == RATE_LIMIT_DOWN
  }

  lemma {:induction false} BandsKept(scales: seq<Scale>, es: seq<Event>, i: nat)
    requires |scales| == MAX_SCALE && i <= |es|
    ensures At(scales, es, i).scales == scales
    decreases i
  {
    if i > 0 {
      BandsKept(scales, es, i - 1);
      AtNext(scales, es, i - 1);
    }
  }

  /** A sample is counted exactly when the controller looks at the scale at all. */
  lemma CountedIff(scales: seq<Scale>, es: seq<Event>, i: nat)
    requires |scales| == MAX_SCALE && i < |es| && es[i].Sample?
    ensures var turn := TurnOf(At(scales, es, i));
            Counted(scales, es, i) <==> turn == UpCheck || turn == Tick || turn == DownCheck
  {
    hide Run, Loads, AwaitsAck, LastLoads, Total, Oldest;
    WindowHolds(scales, es[..i]);
    var s := At(scales, es, i);
    assert Sane(s);
    if s.count == SAMPLES {
      FrozenIff(scales, es, i);
    }
  }

  /** What one event does to the count towards the next up-check. */
  lemma StepUp(s: State, e: Event)
    requires Sane(s)
    ensures Step(s, e).up
            == if e.Ack? then s.up
               else match TurnOf(s)
                 case UpCheck => 0
                 case Tick => s.up + 1
                 case DownCheck => s.up + 1
                 case _ => s.up
  {
  }

  lemma {:induction false} UpIsThird(scales: seq<Scale>, es: seq<Event>, n: nat)
    requires |scales| == MAX_SCALE && n <= |es|
    ensures At(scales, es, n).up == CountedBefore(scales, es, n) % 3
    decreases n
  {
    hide Step, At, Counted;
    if n == 0 {
      BootCounts(scales, es);
    } else {
      UpIsThird(scales, es, n - 1);
      AtNext(scales, es, n - 1);
      StepUp(At(scales, es, n - 1), es[n - 1]);
      if es[n - 1].Sample? {
        CountedIff(scales, es, n - 1);
      } else {
        AcksUncounted(scales, es, n - 1);
      }
      NextThird(CountedBefore(scales, es, n - 1));
    }
  }

  lemma NextThird(c: nat)
    ensures (c + 1) % 3 == if c % 3 == 2 then 0 else c % 3 + 1
  {
  }

  lemma BootCounts(scales: seq<Scale>, es: seq<Event>)
    requires |scales| == MAX_SCALE
    ensures At(scales, es, 0).up == 0 && At(scales, es, 0).down == 0
  {
  }

  lemma AcksUncounted(scales: seq<Scale>, es: seq<Event>, i: nat)
    requires |scales| == MAX_SCALE && i < |es| && es[i].Ack?
    ensures !Counted(scales, es, i)
  {
  }

  /** Up-checks in the terms of the run. */
  lemma ChecksUpIff(scales: seq<Scale>, es: seq<Event>, i: nat)
    requires |scales| == MAX_SCALE && i < |es| && es[i].Sample?
    ensures ChecksUp(scales, es, i) <==> TurnOf(At(scales, es, i)) == UpCheck
  {
    hide At, Counted, CountedBefore;
    CountedIff(scales, es, i);
    UpIsThird(scales, es, i);
  }

  /** The average the controller acts on is that of the last four loads, as far as 32 bits carry their sum. */
  lemma AverageAt(scales: seq<Scale>, es: seq<Event>, i: nat)
    requires |scales| == MAX_SCALE && i < |es| && es[i].Sample?
    ensures Average(At(scales, es, i), es[i].load) == MeanAt(es, i)
  {
    hide Run, Slide, LastLoads, Total, Oldest;
    WindowHolds(scales, es[..i]);
    SlideSum(At(scales, es, i), es[i].load);
    LastLoadsAppend(Loads(es[..i]), U32(es[i].load));
    assert es[..i + 1][..i] == es[..i];
  }

  predicate SmallLoads(loads: seq<nat>) {
    forall k :: 0 <= k < |loads| ==> loads[k] < 0x4000_0000
  }

  /** With loads below 2^30 that is the floor of their mean. */
  lemma MeanIsMean(es: seq<Event>, i: nat)
    requires i < |es| && |Loads(es[..i + 1])| >= SAMPLES && SmallLoads(Loads(es[..i + 1]))
    ensures var l := Loads(es[..i + 1]);
            MeanAt(es, i) == (l[|l| - 1] + l[|l| - 2] + l[|l| - 3] + l[|l| - 4]) / 4
  {
    hide Loads;
    var l := Loads(es[..i + 1]);
    var o := LastLoads(l);
    assert o[0] == l[|l| - 4] && o[1] == l[|l| - 3] && o[2] == l[|l| - 2] && o[3] == l[|l| - 1];
  }

  /** The average shown is that of the last sample. */
  lemma AverageShown(scales: seq<Scale>, es: seq<Event>, i: nat)
    requires |scales| == MAX_SCALE && i < |es| && es[i].Sample? && At(scales, es, i).count == SAMPLES
    ensures At(scales, es, i + 1).average == MeanAt(es, i)
  {
    hide At, MeanAt, Average;
    AtNext(scales, es, i);
    AverageAt(scales, es, i);
    StepAverage(At(scales, es, i), es[i]);
  }

  lemma StepAverage(s: State, e: Event)
    requires Sane(s) && e.Sample? && s.count == SAMPLES
    ensures Step(s, e).average == Average(s, e.load)
  {
  }

  /** The down counter is the length of the quiet stretch. */
  lemma {:induction false} DownIsQuiet(scales: seq<Scale>, es: seq<Event>, n: nat)
    requires |scales| == MAX_SCALE && n <= |es|
    ensures At(scales, es, n).down == QuietBefore(scales, es, n)
    decreases n
  {
    hide Step, At, Counted, ChecksUp, TurnOf, MeanAt, Average;
    if n == 0 {
      BootCounts(scales, es);
    } else {
      DownIsQuiet(scales, es, n - 1);
      AtNext(scales, es, n - 1);
      var s, e := At(scales, es, n - 1), es[n - 1];
      StepDown(s, e);
      BandsKept(scales, es, n - 1);
      if e.Sample? {
        CountedIff(scales, es, n - 1);
        ChecksUpIff(scales, es, n - 1);
        AverageAt(scales, es, n - 1);
        DownTurn(s);
      } else {
        AcksUncounted(scales, es, n - 1);
        assert !ChecksUp(scales, es, n - 1) by { UncountedNoCheck(scales, es, n - 1); }
      }
    }
  }

  lemma UncountedNoCheck(scales: seq<Scale>, es: seq<Event>, i: nat)
    requires |scales| == MAX_SCALE && i < |es| && !Counted(scales, es, i)
    ensures !ChecksUp(scales, es, i)
  {
  }

  lemma DownTurn(s: State)
    requires Sane(s)
    ensures TurnOf(s) == Tick ==> s.down < RATE_LIMIT_DOWN
    ensures TurnOf(s) == DownCheck ==> s.down == RATE_LIMIT_DOWN
  {
  }

  /** What one event does to the scale, and when it asks for a change. */
  lemma StepIndex(s: State, e: Event)
    requires Sane(s)
    ensures Step(s, e).index == IndexAfter(s, e)
  {
  }

  /**
   The scale rises -- by one -- exactly when a queued up-check finds the mean of the last four loads
   above the band, below the top scale.
   */
  lemma RisesIff(scales: seq<Scale>, es: seq<Event>, i: nat)
    requires |scales| == MAX_SCALE && i < |es|
    ensures var a, b := At(scales, es, i).index, At(scales, es, i + 1).index;
            && (b > a <==> && ChecksUp(scales, es, i) && es[i].queued && a < MAX_SCALE - 1
                           && MeanAt(es, i) > scales[a].maximum)
            && (b > a ==> b == a + 1)
  {
    hide Step, At, ChecksUp, TurnOf, MeanAt, Average, Counted;
    AtNext(scales, es, i);
    StepIndex(At(scales, es, i), es[i]);
    BandsKept(scales, es, i);
    if es[i].Sample? {
      ChecksUpIff(scales, es, i);
      AverageAt(scales, es, i);
    } else {
      AcksUncounted(scales, es, i);
      UncountedNoCheck(scales, es, i);
    }
  }

  lemma ChecksDownIff(scales: seq<Scale>, es: seq<Event>, i: nat)
    requires |scales| == MAX_SCALE && i < |es| && es[i].Sample?
    ensures ChecksDown(scales, es, i) <==> TurnOf(At(scales, es, i)) == DownCheck
  {
    hide At, Counted, ChecksUp, QuietBefore;
    CountedIff(scales, es, i);
    ChecksUpIff(scales, es, i);
    DownIsQuiet(scales, es, i);
  }

  /**
   The scale falls -- by one -- exactly when a queued down-check finds the mean below the band, above
   the bottom scale.
   */
  lemma FallsIff(scales: seq<Scale>, es: seq<Event>, i: nat)
    requires |scales| == MAX_SCALE && i < |es|
    ensures var a, b := At(scales, es, i).index, At(scales, es, i + 1).index;
            && (b < a <==> && ChecksDown(scales, es, i) && es[i].queued && a > 0
                           && MeanAt(es, i) < scales[a].minimum)
            && (b < a ==> b == a - 1)
  {
    hide Step, At, ChecksDown, TurnOf, MeanAt, Average, Counted;
    AtNext(scales, es, i);
    StepIndex(At(scales, es, i), es[i]);
    BandsKept(scales, es, i);
    if es[i].Sample? {
      ChecksDownIff(scales, es, i);
      AverageAt(scales, es, i);
    } else {
      AcksUncounted(scales, es, i);
      NoDownCheck(scales, es, i);
    }
  }

  lemma NoDownCheck(scales: seq<Scale>, es: seq<Event>, i: nat)
    requires |scales| == MAX_SCALE && i < |es| && !Counted(scales, es, i)
    ensures !ChecksDown(scales, es, i)
  {
  }

  /** A change is asked for, queued or not, exactly when a check finds the mean outside the band and a scale beyond. */
  lemma RequestsIff(scales: seq<Scale>, es: seq<Event>, i: nat)
    requires |scales| == MAX_SCALE && i < |es|
    ensures var a := At(scales, es, i).index;
            Requests(At(scales, es, i), es[i])
            <==> || (ChecksUp(scales, es, i) && a < MAX_SCALE - 1 && MeanAt(es, i) > scales[a].maximum)
                 || (ChecksDown(scales, es, i) && a > 0 && MeanAt(es, i) < scales[a].minimum)
  {
    hide At, ChecksDown, ChecksUp, TurnOf, MeanAt, Average, Counted;
    BandsKept(scales, es, i);
    if es[i].Sample? {
      ChecksUpIff(scales, es, i);
      ChecksDownIff(scales, es, i);
      AverageAt(scales, es, i);
    } else {
      AcksUncounted(scales, es, i);
      NoDownCheck(scales, es, i);
      UncountedNoCheck(scales, es, i);
    }
  }

  // ---------------------------------------------------------------- resetting the window

  /** What switching scaling off does to the samples: the total is cleared, the ring is not. */
  function Reset(s: State): State {
    s.(next := 0, sum := 0, average := 0, count := 0, message := 0, down := 0)
  }

  /** The window after several more samples. */
  function SlideAll(s: State, loads: seq<nat>): (s': State)
    requires HasRing(s)
    ensures HasRing(s')
  {
    if loads == [] then s else Slide(SlideAll(s, loads[..|loads| - 1]), loads[|loads| - 1])
  }

  /** By how much `sum` falls short of the ring's total. */
  function Skew(s: State): nat
    requires HasRing(s)
  {
    U32(Total(Oldest(s)) - s.sum)
  }

  lemma WrapDifference(a: int, b: int)
    ensures U32(a - U32(b)) == U32(a - b)
  {
  }

  /** No sample ever repairs, or adds to, the skew. */
  lemma SlideKeepsSkew(s: State, load: nat)
    requires HasRing(s)
    ensures Skew(Slide(s, load)) == Skew(s)
  {
    hide U32, Slide, Oldest;
    SlideOldest(s, load);
    var o, x := Oldest(s), U32(load);
    var gone: int, sum: int := o[0], s.sum;
    SlideTotal(s, load);
    U32Add(sum - gone, x);
    WrapDifference(Total(o) - gone + x, sum - gone + x);
    assert Total(o[1..] + [x]) == Total(o) - gone + x;
  }

  lemma SlideTotal(s: State, load: nat)
    requires HasRing(s)
    ensures Slide(s, load).sum == U32(U32(s.sum - Oldest(s)[0]) + U32(load))
  {
  }

  lemma {:induction false} SlidesKeepSkew(s: State, loads: seq<nat>)
    requires HasRing(s)
    ensures Skew(SlideAll(s, loads)) == Skew(s)
  {
    if loads != [] {
      SlidesKeepSkew(s, loads[..|loads| - 1]);
      SlideKeepsSkew(SlideAll(s, loads[..|loads| - 1]), loads[|loads| - 1]);
    }
  }

  /**
   After a reset `sum` is the total of the ring again -- however many samples follow -- if and
   only if the samples thrown away added up to zero modulo 2^32.
   */
  lemma WindowSurvivesReset(s: State, loads: seq<nat>)
    requires HasRing(s)
    ensures var s' := SlideAll(Reset(s), loads);
            s'.sum == U32(Total(Oldest(s'))) <==> U32(Total(s.buffer)) == 0
  {
    hide U32, Total, SlideAll, Oldest;
    var s' := SlideAll(Reset(s), loads);
    SlidesKeepSkew(Reset(s), loads);
    OldestAfterReset(s);
    SumWraps(Reset(s), loads);
    NoDifference(Total(Oldest(s')), s'.sum);
  }

  lemma OldestAfterReset(s: State)
    requires HasRing(s)
    ensures Oldest(Reset(s)) == s.buffer
  {
    assert s.buffer[0..] + s.buffer[..0] == s.buffer;
  }

  lemma NoDifference(a: int, b: int)
    requires 0 <= b < 0x1_0000_0000
    ensures U32(a - b) == 0 <==> b == U32(a)
  {
  }

  lemma SumWraps(s: State, loads: seq<nat>)
    requires HasRing(s) && s.sum < 0x1_0000_0000
    ensures SlideAll(s, loads).sum < 0x1_0000_0000
  {
  }

  // ---------------------------------------------------------------- the handlers

  class Controller {
    const scales: seq<Scale>
    var index: nat
    var ready: bool
    var up: nat
    var down: nat
    var buffer: seq<nat>
    var next: nat
    var sum: nat
    var count: nat
    var average: nat
    var message: nat
    var initialized: bool
    var autoScale: bool
    ghost var events: seq<Event>

    ghost function View(): State
      reads this
    {
      State(scales, index, ready, up, down, buffer, next, sum, count, average, message, initialized, autoScale)
    }

    ghost predicate Valid()
      reads this
    {
      |scales| == MAX_SCALE && View() == Run(scales, events)
    }

    constructor (scales: seq<Scale>)
      requires |scales| == MAX_SCALE
      ensures Valid() && events == [] && this.scales == scales
    {
      this.scales := scales;
      index, ready, up, down := 1, false, 0, 0;
      buffer, next, sum, count := [0, 0, 0, 0], 0, 0, 0;
      average, message, initialized, autoScale := 0, 0, false, false;
      events := [];
    }

    /** nss_freq_handle_ack */
    method HandleAck(ack: int)
      requires Valid()
      modifies this
      ensures Valid() && events == old(events) + [Ack(ack)]
    {
      hide Run;
      RunAppend(scales, events, Ack(ack));
      if ack == ACK_FINISHED {
        ready := true;
      }
      events := events + [Ack(ack)];
    }

    /** The window update at the top of nss_freq_handle_core_stats. */
    method SlideIn(load: nat)
      requires Sane(View())
      modifies this`sum, this`buffer, this`next
      ensures View() == Slide(old(View()), load)
    {
      sum := U32(sum - buffer[next]);
      buffer := buffer[next := U32(load)];
      sum := U32(sum + buffer[next]);
      next := (next + 1) % SAMPLES;
    }

    /** nss_freq_handle_core_stats; `queued` is whether nss_freq_queue_work succeeds. */
    method HandleCoreStats(load: nat, queued: bool)
      requires Valid()
      modifies this
      ensures Valid() && events == old(events) + [Sample(load, queued)]
    {
      hide Run;
      RunAppend(scales, events, Sample(load, queued));
      Decide(load, queued);
      events := events + [Sample(load, queued)];
    }

    method Decide(load: nat, queued: bool)
      requires Sane(View())
      modifies this`index, this`ready, this`up, this`down, this`sum, this`buffer, this`next, this`count, this`average,
               this`message, this`initialized, this`autoScale
      ensures View() == Step(old(View()), Sample(load, queued))
    {
      if !autoScale && initialized {
        return;
      }
      SlideIn(load);
      if count < SAMPLES {
        count := count + 1;
        if count == SAMPLES {
          autoScale := true;
          ready := true;
          initialized := true;
        }
        return;
      }
      average := sum / count;
      message := if message >= MESSAGE_RATE_LIMIT then 0 else message + 1;
      if !ready || !autoScale {
        return;
      }
      Rescale(old(View()), load, queued);
    }

    /** The scale algorithm at the end of the handler, on a full window; `s` is the state the sample found. */
    method Rescale(ghost s: State, load: nat, queued: bool)
      requires Sane(s) && |scales| == MAX_SCALE && index < MAX_SCALE
      requires s.count == SAMPLES && s.ready && s.autoScale
      requires s.scales == scales && s.index == index && s.up == up && s.down == down
      requires average == Average(s, load) && ready
      modifies this`index, this`ready, this`up, this`down
      ensures View() == Scaled(s, Sample(load, queued), old(View()))
    {
      var upCheck := up >= RATE_LIMIT_UP;
      up := up + 1;
      if upCheck {
        var maximum := scales[index].maximum;
        if average > maximum && index < MAX_SCALE - 1 {
          index := index + 1;
          ready := false;
          if !queued {
            index := index - 1;
          }
        }
        if average > maximum {
          down := 0;
        }
        up := 0;
        return;
      }
      var downCheck := down >= RATE_LIMIT_DOWN;
      down := down + 1;
      if downCheck {
        var minimum := scales[index].minimum;
        if average < minimum && index > 0 {
          index := index - 1;
          ready := false;
          if !queued {
            index := index + 1;
          }
        }
        down := 0;
        return;
      }
    }
  }
}
