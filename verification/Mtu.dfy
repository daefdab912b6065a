/**
 How the MTUs of the physical interfaces decide the size of the buffers handed to the firmware.
 */
module Mtu {
  import opened Machine
  import opened RingIndex

  const INTERFACES: nat := 4
  const CORES: nat := 2
  const NORMAL_MTU: nat := 1500
  const MINI_JUMBO_MTU: nat := 1978
  const FULL_JUMBO_MTU: nat := 9600
  const ETH_HLEN: nat := 14
  const PAD_EXTRA: nat := 256
  const ETH_EXTRA: nat := 192

  /** The platform: log2 of the cache line, the normal payload size, and the core that serves each interface. */
  datatype Config = Config(lineOrder: nat, payload: nat, handler: seq<nat>) {
    predicate Valid() {
      && lineOrder <= MAX_RING_ORDER && payload >= 1792
      && |handler| == INTERFACES && forall i :: 0 <= i < INTERFACES ==> handler[i] < CORES
    }

    function Line(): (n: nat)
      ensures n > 0
    {
      Pow2(lineOrder)
    }
  }

  /** Per core: the MTU of every interface and the buffer size; shared by the cores: the last frame size needed. */
  datatype State = State(registered: seq<bool>, mtu: seq<seq<nat>>, maxBuf: seq<nat>, prev: nat)

  predicate Shaped(s: State) {
    && |s.registered| == INTERFACES && |s.mtu| == CORES && |s.maxBuf| == CORES
    && forall c :: 0 <= c < CORES ==> |s.mtu[c]| == INTERFACES
  }

  function Boot(cfg: Config): (s: State)
    ensures Shaped(s)
  {
    State([false, false, false, false], [[0, 0, 0, 0], [0, 0, 0, 0]], [cfg.payload, cfg.payload], NORMAL_MTU)
  }

  datatype Event =
    | Register(port: nat)
    | Unregister(port: nat)
    | Change(core: nat, port: nat, mtu: nat, acked: bool)
  {
    predicate Valid() {
      port < INTERFACES && (Change? ==> core < CORES)
    }
  }

  // ---------------------------------------------------------------- the frame size

  function MaxMtu(mtu: seq<nat>): (m: nat)
    requires mtu != []
    ensures m in mtu && forall i :: 0 <= i < |mtu| ==> mtu[i] <= m
  {
    if |mtu| == 1 then mtu[0]
    else
      var m := MaxMtu(mtu[..|mtu| - 1]);
      assert mtu[..|mtu| - 1] <= mtu;
      if m < mtu[|mtu| - 1] then mtu[|mtu| - 1] else m
  }

  /** The frame size the hardware must be able to receive; an MTU beyond the largest falls back to the smallest. */
  function FrameFor(mtu: nat): nat {
    if mtu <= NORMAL_MTU then NORMAL_MTU
    else if mtu <= MINI_JUMBO_MTU then MINI_JUMBO_MTU
    else if mtu <= FULL_JUMBO_MTU then FULL_JUMBO_MTU
    else NORMAL_MTU
  }

  predicate IsFrameSize(n: nat) {
    n == NORMAL_MTU || n == MINI_JUMBO_MTU || n == FULL_JUMBO_MTU
  }

  /** The frame size covers every MTU exactly when none exceeds the largest; it is then the least that does. */
  lemma FrameCovers(mtu: seq<nat>)
    requires mtu != []
    ensures var f := FrameFor(MaxMtu(mtu));
            && IsFrameSize(f)
            && ((forall i :: 0 <= i < |mtu| ==> mtu[i] <= f)
                <==> (forall i :: 0 <= i < |mtu| ==> mtu[i] <= FULL_JUMBO_MTU))
            && (forall g: nat :: IsFrameSize(g) && g < f ==> exists i :: 0 <= i < |mtu| && mtu[i] > g)
  {
    var m := MaxMtu(mtu);
    var k :| 0 <= k < |mtu| && mtu[k] == m;
  }

  /** `(x + line - 1) & ~(line - 1)` */
  function AlignUp(x: nat, line: nat): int
    requires line > 0
  {
    x + line - 1 - And(x + line - 1, line - 1)
  }

  /** Alignment gives the least multiple of the line size that holds `x`. */
  lemma AlignUpLeast(x: nat, order: nat)
    ensures var a, line := AlignUp(x, Pow2(order)), Pow2(order);
            x <= a < x + line && exists q: nat :: a == q * line
  {
    var line := Pow2(order);
    AndMask(x + line - 1, order);
    var q := SlotQuotient(x + line - 1, line);
    assert AlignUp(x, line) == q * line;
  }

  lemma {:induction false} SlotQuotient(k: nat, size: nat) returns (q: nat)
    requires size > 0
    ensures k == q * size + Slot(k, size)
  {
    if k < size {
      q := 0;
    } else {
      var p := SlotQuotient(k - size, size);
      q := p + 1;
      assert q * size == p * size + size;
    }
  }

  /** The buffer size for a frame size. */
  function BufFor(cfg: Config, frame: nat): nat {
    var size := AlignUp(frame + ETH_HLEN, cfg.Line()) + PAD_EXTRA;
    if size < cfg.payload then cfg.payload else size
  }

  lemma BufHolds(cfg: Config, frame: nat)
    ensures frame + ETH_HLEN + PAD_EXTRA <= BufFor(cfg, frame)
    ensures cfg.payload <= BufFor(cfg, frame)
    ensures BufFor(cfg, frame) < frame + ETH_HLEN + PAD_EXTRA + cfg.Line() || BufFor(cfg, frame) == cfg.payload
  {
    AlignUpLeast(frame + ETH_HLEN, cfg.lineOrder);
  }

  /** It is the frame and header in whole cache lines and the padding, or the payload size if that is more. */
  lemma BufIsLines(cfg: Config, frame: nat) returns (q: nat)
    ensures q * cfg.Line() - cfg.Line() < frame + ETH_HLEN <= q * cfg.Line()
    ensures BufFor(cfg, frame)
         == if q * cfg.Line() + PAD_EXTRA < cfg.payload then cfg.payload else q * cfg.Line() + PAD_EXTRA
  {
    AlignUpLeast(frame + ETH_HLEN, cfg.lineOrder);
    q :| AlignUp(frame + ETH_HLEN, cfg.Line()) == q * cfg.Line();
  }

  lemma BufMonotone(cfg: Config, f: nat, g: nat)
    requires f <= g
    ensures BufFor(cfg, f) <= BufFor(cfg, g)
  {
    var line := cfg.Line();
    AlignUpLeast(f + ETH_HLEN, cfg.lineOrder);
    AlignUpLeast(g + ETH_HLEN, cfg.lineOrder);
    var a, b := AlignUp(f + ETH_HLEN, line), AlignUp(g + ETH_HLEN, line);
    var p: nat :| a == p * line;
    var q: nat :| b == q * line;
    if b < a {
      Apart(q, p, line);
    }
  }

  lemma MulMonotone(p: nat, q: nat, line: nat)
    requires p <= q
    ensures p * line <= q * line
  {
    assert q * line == p * line + (q - p) * line;
  }

  /** Multiples of the line size are at least a line apart. */
  lemma Apart(q: nat, p: nat, line: nat)
    requires q * line < p * line
    ensures q * line + line <= p * line
  {
    if p <= q {
      MulMonotone(p, q, line);
    } else {
      MulMonotone(q + 1, p, line);
      assert (q + 1) * line == q * line + line;
    }
  }

  // ---------------------------------------------------------------- runs

  predicate Accepted(s: State, e: Event)
    requires Shaped(s) && e.Valid() && e.Change?
  {
    e.mtu <= FULL_JUMBO_MTU && s.registered[e.port] && e.acked
  }

  function Step(cfg: Config, s: State, e: Event): (s': State)
    requires cfg.Valid() && Shaped(s) && e.Valid()
    ensures Shaped(s')
  {
    match e
    case Register(i) =>
      var c := cfg.handler[i];
      var mtu: seq<nat> := s.mtu[c][i := NORMAL_MTU];
      s.(registered := s.registered[i := true], mtu := s.mtu[c := mtu])
    case Unregister(i) =>
      s.(registered := s.registered[i := false], mtu := [s.mtu[0][i := 0], s.mtu[1][i := 0]])
    case Change(c, i, m, _) =>
      if !Accepted(s, e) then s
      else
        var mtu: seq<nat> := s.mtu[c][i := m];
        var frame := FrameFor(MaxMtu(mtu));
        s.(mtu := s.mtu[c := mtu], maxBuf := s.maxBuf[c := BufFor(cfg, frame)], prev := frame)
  }

  /** Whether a change of MTU makes the firmware give its buffers back. */
  predicate Flushes(cfg: Config, s: State, e: Event)
    requires cfg.Valid() && Shaped(s) && e.Valid()
  {
    e.Change? && Accepted(s, e) && Step(cfg, s, e).prev > s.prev
  }

  predicate AllValid(es: seq<Event>) {
    forall i :: 0 <= i < |es| ==> es[i].Valid()
  }

  function Run(cfg: Config, es: seq<Event>): (s: State)
    requires cfg.Valid() && AllValid(es)
    ensures Shaped(s)
  {
    if es == [] then Boot(cfg) else Step(cfg, Run(cfg, es[..|es| - 1]), es[|es| - 1])
  }

  lemma RunAppend(cfg: Config, es: seq<Event>, e: Event)
    requires cfg.Valid() && AllValid(es) && e.Valid()
    ensures AllValid(es + [e]) && Run(cfg, es + [e]) == Step(cfg, Run(cfg, es), e)
  {
    assert (es + [e])[..|es|] == es;
  }

  /** Every core's buffers hold a full frame of every interface, and no MTU is beyond the largest. */
  ghost predicate Safe(cfg: Config, s: State)
    requires Shaped(s)
  {
    && (forall c :: 0 <= c < CORES ==> cfg.payload <= s.maxBuf[c])
    && forall c, i :: 0 <= c < CORES && 0 <= i < INTERFACES ==>
         s.mtu[c][i] <= FULL_JUMBO_MTU && s.mtu[c][i] + ETH_HLEN + PAD_EXTRA <= s.maxBuf[c]
  }

  lemma StepSafe(cfg: Config, s: State, e: Event)
    requires cfg.Valid() && Shaped(s) && e.Valid() && Safe(cfg, s)
    ensures Safe(cfg, Step(cfg, s, e))
  {
    hide BufFor, MaxMtu;
    if e.Change? && Accepted(s, e) {
      var mtu: seq<nat> := s.mtu[e.core][e.port := e.mtu];
      assert forall i :: 0 <= i < |mtu| ==> mtu[i] <= FULL_JUMBO_MTU;
      FrameCovers(mtu);
      var f := FrameFor(MaxMtu(mtu));
      assert forall i :: 0 <= i < |mtu| ==> mtu[i] <= f;
      BufHolds(cfg, f);
    }
  }

  /** Over all registrations, unregistrations and MTU changes the buffers hold a full frame of every interface. */
  lemma {:induction false} BuffersHoldEveryFrame(cfg: Config, es: seq<Event>)
    requires cfg.Valid() && AllValid(es)
    ensures Safe(cfg, Run(cfg, es))
  {
    if es != [] {
      BuffersHoldEveryFrame(cfg, es[..|es| - 1]);
      StepSafe(cfg, Run(cfg, es[..|es| - 1]), es[|es| - 1]);
    }
  }

  /** The least buffer size that an accepted change announces to the firmware fits the buffers it is left with. */
  lemma AnnouncedSizeFits(cfg: Config, es: seq<Event>, e: Event)
    requires cfg.Valid() && AllValid(es) && e.Valid() && e.Change? && Accepted(Run(cfg, es), e)
    ensures U16(e.mtu) + ETH_EXTRA <= Step(cfg, Run(cfg, es), e).maxBuf[e.core]
  {
    hide BufFor, MaxMtu, Run;
    RunAppend(cfg, es, e);
    BuffersHoldEveryFrame(cfg, es + [e]);
    assert Step(cfg, Run(cfg, es), e).mtu[e.core][e.port] == e.mtu;
  }

  /** The MTUs of a core once a change is accepted. */
  function NextTable(s: State, e: Event): (t: seq<nat>)
    requires Shaped(s) && e.Valid() && e.Change?
    ensures |t| == INTERFACES
  {
    s.mtu[e.core][e.port := e.mtu]
  }

  /** The frame size they need. */
  function NextFrame(s: State, e: Event): nat
    requires Shaped(s) && e.Valid() && e.Change?
  {
    FrameFor(MaxMtu(NextTable(s, e)))
  }

  // ---------------------------------------------------------------- the table of MTUs, told by the events

  /** Registered, and not unregistered since. */
  ghost predicate RegisteredIn(es: seq<Event>, i: nat) {
    exists k: nat :: RegistersAt(es, k, i) && forall j: nat :: k < j ==> !UnregistersAt(es, j, i)
  }

  predicate RegistersAt(es: seq<Event>, k: nat, i: nat) {
    k < |es| && es[k] == Register(i)
  }

  predicate UnregistersAt(es: seq<Event>, k: nat, i: nat) {
    k < |es| && es[k] == Unregister(i)
  }

  lemma {:induction false} RegisteredIff(cfg: Config, es: seq<Event>, i: nat)
    requires cfg.Valid() && AllValid(es) && i < INTERFACES
    ensures Run(cfg, es).registered[i] <==> RegisteredIn(es, i)
  {
    hide Run;
    if es == [] {
      NothingYet(cfg);
    } else {
      var init, n := es[..|es| - 1], |es| - 1;
      RegisteredIff(cfg, init, i);
      assert init + [es[n]] == es;
      RunAppend(cfg, init, es[n]);
      RegisteredStep(es, i);
      StepRegisters(cfg, Run(cfg, init), es[n], i);
    }
  }

  lemma NothingYet(cfg: Config)
    requires cfg.Valid()
    ensures Run(cfg, []) == Boot(cfg)
  {
  }

  lemma StepRegisters(cfg: Config, s: State, e: Event, i: nat)
    requires cfg.Valid() && Shaped(s) && e.Valid() && i < INTERFACES
    ensures Step(cfg, s, e).registered[i]
         == if e == Register(i) then true else if e == Unregister(i) then false else s.registered[i]
  {
    hide BufFor, MaxMtu, FrameFor;
  }

  lemma RegisteredStep(es: seq<Event>, i: nat)
    requires es != []
    ensures var init, e := es[..|es| - 1], es[|es| - 1];
            RegisteredIn(es, i) <==> e == Register(i) || (e != Unregister(i) && RegisteredIn(init, i))
  {
    var init, n := es[..|es| - 1], |es| - 1;
    assert forall k: nat :: k < n ==> (RegistersAt(init, k, i) <==> RegistersAt(es, k, i));
    assert forall k: nat :: k < n ==> (UnregistersAt(init, k, i) <==> UnregistersAt(es, k, i));
    if es[n] == Register(i) {
      assert RegistersAt(es, n, i);
    } else if RegisteredIn(init, i) {
      var k: nat :| RegistersAt(init, k, i) && forall j: nat :: k < j ==> !UnregistersAt(init, j, i);
      assert RegistersAt(es, k, i);
      assert UnregistersAt(es, n, i) || forall j: nat :: k < j ==> !UnregistersAt(es, j, i);
    }
    if k: nat :| RegistersAt(es, k, i) && forall j: nat :: k < j ==> !UnregistersAt(es, j, i) {
      assert k == n || RegistersAt(init, k, i);
      assert k < n ==> !UnregistersAt(es, n, i);
    }
  }

  /** Event `k` sets the entry of interface `i` on core `c`. */
  ghost predicate SetsAt(cfg: Config, es: seq<Event>, k: nat, c: nat, i: nat)
    requires cfg.Valid() && i < INTERFACES
  {
    && k < |es|
    && match es[k]
       case Register(p) => p == i && cfg.handler[i] == c
       case Unregister(p) => p == i
       case Change(core, p, m, acked) =>
         core == c && p == i && acked && m <= FULL_JUMBO_MTU && RegisteredIn(es[..k], i)
  }

  /** What it sets it to. */
  function SetTo(e: Event): nat {
    match e
    case Register(_) => NORMAL_MTU
    case Unregister(_) => 0
    case Change(_, _, m, _) => m
  }

  lemma StepSets(cfg: Config, es: seq<Event>, c: nat, i: nat)
    requires cfg.Valid() && AllValid(es) && es != [] && c < CORES && i < INTERFACES
    ensures var init := es[..|es| - 1];
            Run(cfg, es).mtu[c][i]
            == if SetsAt(cfg, es, |init|, c, i) then SetTo(es[|init|]) else Run(cfg, init).mtu[c][i]
  {
    hide BufFor, MaxMtu, FrameFor, RegisteredIn;
    RegisteredIff(cfg, es[..|es| - 1], i);
  }

  lemma SetsKept(cfg: Config, es: seq<Event>, k: nat, c: nat, i: nat)
    requires cfg.Valid() && i < INTERFACES && k + 1 < |es|
    ensures SetsAt(cfg, es[..|es| - 1], k, c, i) <==> SetsAt(cfg, es, k, c, i)
  {
    assert es[..|es| - 1][..k] == es[..k];
  }

  /** Every entry of the table is what was set last. */
  lemma {:induction false} TableHolds(cfg: Config, es: seq<Event>, k: nat, c: nat, i: nat)
    requires cfg.Valid() && AllValid(es) && c < CORES && i < INTERFACES
    requires SetsAt(cfg, es, k, c, i) && forall j: nat :: k < j ==> !SetsAt(cfg, es, j, c, i)
    ensures Run(cfg, es).mtu[c][i] == SetTo(es[k])
  {
    hide Run, RegisteredIn;
    StepSets(cfg, es, c, i);
    if k + 1 < |es| {
      var init := es[..|es| - 1];
      SetsKept(cfg, es, k, c, i);
      forall j: nat | k < j
        ensures !SetsAt(cfg, init, j, c, i)
      {
        if j < |init| {
          SetsKept(cfg, es, j, c, i);
        }
      }
      TableHolds(cfg, init, k, c, i);
    }
  }

  /** An entry never set is zero. */
  lemma {:induction false} TableEmpty(cfg: Config, es: seq<Event>, c: nat, i: nat)
    requires cfg.Valid() && AllValid(es) && c < CORES && i < INTERFACES
    requires forall j: nat :: !SetsAt(cfg, es, j, c, i)
    ensures Run(cfg, es).mtu[c][i] == 0
  {
    hide RegisteredIn;
    if es != [] {
      var init := es[..|es| - 1];
      StepSets(cfg, es, c, i);
      forall j: nat
        ensures !SetsAt(cfg, init, j, c, i)
      {
        if j < |init| {
          SetsKept(cfg, es, j, c, i);
        }
      }
      TableEmpty(cfg, init, c, i);
    }
  }

  /**
   An interface that was unregistered, and not set up again since, no longer counts: whatever frame
   size a change elsewhere calls for, some other interface needs it.
   */
  lemma UnregisteredStopsCounting(cfg: Config, es: seq<Event>, k: nat, i: nat, e: Event, g: nat)
    requires cfg.Valid() && AllValid(es) && i < INTERFACES && UnregistersAt(es, k, i)
    requires e.Valid() && e.Change? && e.port != i
    requires forall j: nat :: k < j ==> !SetsAt(cfg, es, j, e.core, i)
    requires IsFrameSize(g) && g < NextFrame(Run(cfg, es), e)
    ensures exists j :: 0 <= j < INTERFACES && j != i && NextTable(Run(cfg, es), e)[j] > g
  {
    hide Run, MaxMtu, FrameFor, RegisteredIn;
    TableHolds(cfg, es, k, e.core, i);
    FrameCovers(NextTable(Run(cfg, es), e));
  }

  // ---------------------------------------------------------------- flushing old buffers

  predicate OnlyCore(es: seq<Event>, core: nat) {
    forall i :: 0 <= i < |es| && es[i].Change? ==> es[i].core == core
  }

  /** A cache line of up to 512 bytes leaves the buffers of normal frames at the payload size. */
  lemma NormalFramesFit(cfg: Config)
    requires cfg.Valid() && cfg.lineOrder <= 9
    ensures BufFor(cfg, NORMAL_MTU) == cfg.payload
  {
    var line := cfg.Line();
    AlignUpLeast(NORMAL_MTU + ETH_HLEN, cfg.lineOrder);
    var q: nat :| AlignUp(NORMAL_MTU + ETH_HLEN, line) == q * line;
    var p := LineDivides(cfg.lineOrder);
    if p * line < q * line {
      Apart(p, q, line);
    }
  }

  lemma LineDivides(order: nat) returns (p: nat)
    requires order <= 9
    ensures p * Pow2(order) == 1536
    decreases 9 - order
  {
    if order == 9 {
      assert Pow2(9) == 2 * (2 * (2 * Pow2(6)));
      assert Pow2(6) == 2 * (2 * (2 * Pow2(3)));
      assert Pow2(3) == 8;
      p := 3;
    } else {
      var q := LineDivides(order + 1);
      p := 2 * q;
      assert q * (2 * Pow2(order)) == p * Pow2(order);
    }
  }

  predicate Grows(cfg: Config, s: State, e: Event)
    requires cfg.Valid() && Shaped(s) && e.Valid() && e.Change?
  {
    Step(cfg, s, e).maxBuf[e.core] > s.maxBuf[e.core]
  }

  /** A core's buffers grow unflushed exactly when they are too small but the shared frame size is not. */
  lemma UnflushedIff(cfg: Config, s: State, e: Event)
    requires cfg.Valid() && Shaped(s) && e.Valid() && e.Change? && Accepted(s, e)
    ensures Grows(cfg, s, e) && !Flushes(cfg, s, e)
       <==> s.maxBuf[e.core] < BufFor(cfg, NextFrame(s, e)) && NextFrame(s, e) <= s.prev
  {
  }

  predicate AcceptedAt(cfg: Config, es: seq<Event>, k: nat)
    requires cfg.Valid() && AllValid(es) && k < |es|
  {
    es[k].Change? && Accepted(Run(cfg, es[..k]), es[k])
  }

  /** The last accepted change on one of the cores, or -1. */
  function LastOn(cfg: Config, es: seq<Event>, cores: set<nat>): (k: int)
    requires cfg.Valid() && AllValid(es)
    ensures -1 <= k < |es|
    ensures k >= 0 ==> AcceptedAt(cfg, es, k) && es[k].core in cores
    ensures forall j :: k < j < |es| && AcceptedAt(cfg, es, j) ==> es[j].core !in cores
  {
    if es == [] then -1
    else if AcceptedAt(cfg, es, |es| - 1) && es[|es| - 1].core in cores then |es| - 1
    else
      var init := es[..|es| - 1];
      assert forall j :: 0 <= j < |init| ==> init[..j] == es[..j];
      LastOn(cfg, init, cores)
  }

  const BOTH: set<nat> := {0, 1}

  /** The frame size that the accepted change at `k` called for; a normal frame if there is none. */
  function FrameAt(cfg: Config, es: seq<Event>, k: int): nat
    requires cfg.Valid() && AllValid(es) && -1 <= k < |es| && (k >= 0 ==> es[k].Change?)
  {
    if k < 0 then NORMAL_MTU else NextFrame(Run(cfg, es[..k]), es[k])
  }

  lemma FrameAtKept(cfg: Config, es: seq<Event>, k: int)
    requires cfg.Valid() && AllValid(es) && -1 <= k < |es| - 1 && (k >= 0 ==> es[k].Change?)
    ensures FrameAt(cfg, es[..|es| - 1], k) == FrameAt(cfg, es, k)
  {
    if k >= 0 {
      assert es[..|es| - 1][..k] == es[..k];
    }
  }

  /** The shared frame size is the one called for by the last change accepted on either core. */
  lemma {:induction false} PrevIsLastFrame(cfg: Config, es: seq<Event>)
    requires cfg.Valid() && AllValid(es)
    ensures Run(cfg, es).prev == FrameAt(cfg, es, LastOn(cfg, es, BOTH))
  {
    hide MaxMtu, BufFor;
    if es != [] {
      var init := es[..|es| - 1];
      PrevIsLastFrame(cfg, init);
      if !AcceptedAt(cfg, es, |init|) {
        FrameAtKept(cfg, es, LastOn(cfg, init, BOTH));
      }
    }
  }

  /** A change asks for a flush exactly when it calls for a larger frame than the last one accepted on either core. */
  lemma FlushesIff(cfg: Config, es: seq<Event>, e: Event)
    requires cfg.Valid() && AllValid(es) && e.Valid() && e.Change?
    ensures Flushes(cfg, Run(cfg, es), e)
       <==> && e.mtu <= FULL_JUMBO_MTU && e.acked && RegisteredIn(es, e.port)
            && NextFrame(Run(cfg, es), e) > FrameAt(cfg, es, LastOn(cfg, es, BOTH))
  {
    hide Run, MaxMtu, BufFor, FrameFor, LastOn, FrameAt, RegisteredIn;
    PrevIsLastFrame(cfg, es);
    RegisteredIff(cfg, es, e.port);
  }

  /** A core's buffers are those of the last change accepted on that core. */
  lemma {:induction false} BufIsLastFrame(cfg: Config, es: seq<Event>, core: nat)
    requires cfg.Valid() && cfg.lineOrder <= 9 && AllValid(es) && core < CORES
    ensures Run(cfg, es).maxBuf[core] == BufFor(cfg, FrameAt(cfg, es, LastOn(cfg, es, {core})))
  {
    hide MaxMtu, BufFor;
    if es == [] {
      NormalFramesFit(cfg);
    } else {
      var init := es[..|es| - 1];
      BufIsLastFrame(cfg, init, core);
      if !(AcceptedAt(cfg, es, |init|) && es[|init|].core == core) {
        FrameAtKept(cfg, es, LastOn(cfg, init, {core}));
      }
    }
  }

  /**
   Over any run, a core's buffers grow unflushed exactly when the last change accepted before was
   on the other core and already called for a frame size as large.
   */
  lemma GrowthUnflushedIff(cfg: Config, es: seq<Event>, e: Event)
    requires cfg.Valid() && cfg.lineOrder <= 9 && AllValid(es) && e.Valid() && e.Change? && Accepted(Run(cfg, es), e)
    ensures var s, k := Run(cfg, es), LastOn(cfg, es, BOTH);
            Grows(cfg, s, e) && !Flushes(cfg, s, e)
            <==> k >= 0 && es[k].core != e.core && NextFrame(s, e) <= FrameAt(cfg, es, k)
                 && s.maxBuf[e.core] < BufFor(cfg, NextFrame(s, e))
  {
    hide Step, Run, BufFor, MaxMtu, FrameFor, Flushes, LastOn, FrameAt;
    var s, k, own := Run(cfg, es), LastOn(cfg, es, BOTH), LastOn(cfg, es, {e.core});
    UnflushedIff(cfg, s, e);
    PrevIsLastFrame(cfg, es);
    BufIsLastFrame(cfg, es, e.core);
    var f, g := NextFrame(s, e), FrameAt(cfg, es, own);
    if (k < 0 || es[k].core == e.core) && f <= s.prev {
      assert own == k;
      BufMonotone(cfg, f, g);
    }
  }

  /** While MTUs are changed on one core only, its buffers never grow without the old ones being flushed. */
  lemma GrowthIsFlushed(cfg: Config, es: seq<Event>, e: Event)
    requires cfg.Valid() && cfg.lineOrder <= 9 && AllValid(es) && e.Valid() && e.Change? && OnlyCore(es, e.core)
    requires Grows(cfg, Run(cfg, es), e)
    ensures Flushes(cfg, Run(cfg, es), e)
  {
    hide BufFor, MaxMtu, Run, LastOn, FrameAt;
    GrowthUnflushedIff(cfg, es, e);
  }

  /**
   The frame size is shared by the cores, so once both are used growth can go unnoticed: core 1's
   buffers grow to full-jumbo size and nothing is flushed, because core 0 got there first.
   */
  lemma SharedFrameSizeHidesGrowth(cfg: Config)
    requires cfg.Valid() && cfg.lineOrder <= 9 && cfg.payload < FULL_JUMBO_MTU
    ensures var e := Change(1, 1, FULL_JUMBO_MTU, true);
            var es := [Register(0), Register(1), Change(0, 0, FULL_JUMBO_MTU, true)];
            && Grows(cfg, Run(cfg, es), e)
            && !Flushes(cfg, Run(cfg, es), e)
  {
    hide BufFor, MaxMtu;
    var r0, r1 := Register(0), Register(1);
    var c0, e := Change(0, 0, FULL_JUMBO_MTU, true), Change(1, 1, FULL_JUMBO_MTU, true);
    RunAppend(cfg, [], r0);
    RunAppend(cfg, [r0], r1);
    RunAppend(cfg, [r0, r1], c0);
    assert [] + [r0] == [r0] && [r0] + [r1] == [r0, r1] && [r0, r1] + [c0] == [r0, r1, c0];
    var s := Run(cfg, [r0, r1]);
    assert s.registered == [true, true, false, false] && s.maxBuf == [cfg.payload, cfg.payload];
    var s' := Step(cfg, s, c0);
    FullJumboNeeded(s.mtu[0][0 := FULL_JUMBO_MTU], 0);
    FullJumboNeeded(s'.mtu[1][1 := FULL_JUMBO_MTU], 1);
    BufHolds(cfg, FULL_JUMBO_MTU);
  }

  lemma FullJumboNeeded(mtu: seq<nat>, k: nat)
    requires k < |mtu| && mtu[k] == FULL_JUMBO_MTU && forall i :: 0 <= i < |mtu| ==> mtu[i] <= FULL_JUMBO_MTU
    ensures FrameFor(MaxMtu(mtu)) == FULL_JUMBO_MTU
  {
  }

  // ---------------------------------------------------------------- the driver

  /** One core's context. */
  class Core {
    const mtu: array<nat>
    var maxBufSize: nat

    constructor (payload: nat)
      ensures mtu[..] == [0, 0, 0, 0] && maxBufSize == payload && fresh(mtu)
    {
      mtu := new nat[] [0, 0, 0, 0];
      maxBufSize := payload;
    }

    /** nss_phys_if_get_mtu_sz */
    method GetMtuSz() returns (size: nat)
      requires mtu.Length == INTERFACES
      ensures size == FrameFor(MaxMtu(mtu[..]))
    {
      size := NORMAL_MTU;
      var max := mtu[0];
      var i := 1;
      while i < INTERFACES
        invariant 1 <= i <= INTERFACES && max == MaxMtu(mtu[..i])
      {
        assert mtu[..i + 1][..i] == mtu[..i];
        if max < mtu[i] {
          max := mtu[i];
        }
        i := i + 1;
      }
      assert mtu[..] == mtu[..i];
      if max <= NORMAL_MTU {
        size := NORMAL_MTU;
      } else if max <= MINI_JUMBO_MTU {
        size := MINI_JUMBO_MTU;
      } else if max <= FULL_JUMBO_MTU {
        size := FULL_JUMBO_MTU;
      }
    }
  }

  /** The part of a change that the firmware accepted: the new MTU, the frame size it needs, and the buffer size. */
  method Resize(cfg: Config, c: Core, port: nat, mtu: nat) returns (size: nat)
    requires c.mtu.Length == INTERFACES && port < INTERFACES
    modifies c, c.mtu
    ensures c.mtu[..] == old(c.mtu[..])[port := U16(mtu)]
    ensures size == FrameFor(MaxMtu(c.mtu[..])) && c.maxBufSize == BufFor(cfg, size)
  {
    hide MaxMtu, And, U16;
    c.mtu[port] := U16(mtu);
    size := c.GetMtuSz();
    AlignUpLeast(size + ETH_HLEN, cfg.lineOrder);
    c.maxBufSize := AlignUp(size + ETH_HLEN, cfg.Line()) + PAD_EXTRA;
    if c.maxBufSize < cfg.payload {
      c.maxBufSize := cfg.payload;
    }
  }

  class PhysIf {
    const cfg: Config
    const core0: Core
    const core1: Core
    const registered: array<bool>
    const cryptoEnabled: bool
    var prevMtuSz: nat
    ghost var events: seq<Event>

    ghost predicate Separate()
      reads this
    {
      && cfg.Valid() && core0 != core1 && core0.mtu != core1.mtu
      && core0.mtu.Length == INTERFACES && core1.mtu.Length == INTERFACES && registered.Length == INTERFACES
    }

    ghost function View(): (s: State)
      requires Separate()
      reads this, core0, core1, core0.mtu, core1.mtu, registered
      ensures Shaped(s)
    {
      State(registered[..], [core0.mtu[..], core1.mtu[..]], [core0.maxBufSize, core1.maxBufSize], prevMtuSz)
    }

    /** The driver's fields are those of the run of events so far. */
    ghost predicate Valid()
      reads this, core0, core1, core0.mtu, core1.mtu, registered
    {
      Separate() && AllValid(events) && View() == Run(cfg, events)
    }

    function CoreOf(c: nat): (core: Core)
      requires c < CORES
      ensures core == core0 || core == core1
    {
      if c == 0 then core0 else core1
    }

    constructor (cfg: Config, cryptoEnabled: bool)
      requires cfg.Valid()
      ensures Valid() && events == [] && this.cfg == cfg
    {
      this.cfg := cfg;
      this.cryptoEnabled := cryptoEnabled;
      core0 := new Core(cfg.payload);
      core1 := new Core(cfg.payload);
      registered := new bool[] [false, false, false, false];
      prevMtuSz := NORMAL_MTU;
      events := [];
    }

    /** nss_phys_if_register */
    method Register(port: nat)
      requires Valid() && port < INTERFACES
      modifies this, core0.mtu, core1.mtu, registered
      ensures Valid() && events == old(events) + [Event.Register(port)]
    {
      RunAppend(cfg, events, Event.Register(port));
      registered[port] := true;
      CoreOf(cfg.handler[port]).mtu[port] := NORMAL_MTU;
      events := events + [Event.Register(port)];
    }

    /** nss_phys_if_unregister */
    method Unregister(port: nat)
      requires Valid() && port < INTERFACES
      modifies this, core0.mtu, core1.mtu, registered
      ensures Valid() && events == old(events) + [Event.Unregister(port)]
    {
      RunAppend(cfg, events, Event.Unregister(port));
      registered[port] := false;
      core0.mtu[port] := 0;
      core1.mtu[port] := 0;
      events := events + [Event.Unregister(port)];
    }

    /**
     nss_phys_if_change_mtu; `acked` is the firmware's answer, `flushed` whether the firmware is
     asked to give its buffers back, and `minBufSize` what it was told, if anything.
     */
    method ChangeMtu(core: nat, port: nat, mtu: nat, acked: bool) returns (ok: bool, flushed: bool, minBufSize: nat)
      requires Valid() && core < CORES && port < INTERFACES
      modifies this, core0, core1, core0.mtu, core1.mtu
      ensures Valid() && events == old(events) + [Change(core, port, mtu, acked)]
      ensures ok <==> mtu <= FULL_JUMBO_MTU && acked && registered[port]
      ensures flushed <==> cryptoEnabled && Flushes(cfg, old(View()), Change(core, port, mtu, acked))
      ensures minBufSize == if mtu <= FULL_JUMBO_MTU && registered[port] then mtu + ETH_EXTRA else 0
      ensures ok ==> minBufSize <= CoreOf(core).maxBufSize
    {
      hide BufFor, MaxMtu, Run, FrameFor;
      ghost var e := Change(core, port, mtu, acked);
      RunAppend(cfg, events, e);
      ok, flushed, minBufSize := false, false, 0;
      if mtu > FULL_JUMBO_MTU {
        events := events + [e];
        return;
      }
      if !registered[port] {
        events := events + [e];
        return;
      }
      minBufSize := U16(mtu) + ETH_EXTRA;
      if !acked {
        events := events + [e];
        return;
      }
      ok := true;
      AnnouncedSizeFits(cfg, events, e);
      var size := Resize(cfg, CoreOf(core), port, mtu);
      if size > prevMtuSz {
        flushed := cryptoEnabled;
      }
      prevMtuSz := size;
      assert View() == Step(cfg, old(View()), e);
      events := events + [e];
    }
  }
}
