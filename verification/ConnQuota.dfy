/**
 The connection quota that IPv4 and IPv6 share: each family's sysctl writes its own count, checks
 it against the other's, tells the firmware, and puts the old count back if anything goes wrong.
 */
module ConnQuota {
  import opened Machine

  const MIN_NUM_CONN: int := 256
  const QUANTA: nat := 1024
  const MAX_TOTAL: nat := 8196
  const DEFAULT_NUM_CONN: int := 4096

  datatype Family = V4 | V6 {
    function Other(): Family {
      if V4? then V6 else V4
    }
  }

  /** What becomes of a valid request; a timeout does not say whether the firmware acted on it. */
  datatype Fate = SendFailed | TimedOut(applied: bool) | Nacked | Acked {
    /** Whether the firmware enforces the new count. */
    predicate Applied() {
      Acked? || (TimedOut? && applied)
    }
  }

  /** A C int. */
  predicate IsInt(x: int) {
    -0x8000_0000 <= x < 0x8000_0000
  }

  /** The counts the driver holds and those the firmware enforces. */
  datatype Counts = Counts(v4: int, v6: int) {
    function Of(f: Family): int {
      if f.V4? then v4 else v6
    }

    function With(f: Family, n: int): Counts {
      if f.V4? then this.(v4 := n) else this.(v6 := n)
    }
  }

  datatype State = State(driver: Counts, firmware: Counts)

  /** `conn & NSS_NUM_CONN_QUANTA_MASK` is zero, also for negative two's-complement `conn`. */
  predicate OnQuantum(conn: int) {
    conn % QUANTA == 0
  }

  /** The check made before the firmware is asked. */
  predicate Accepts(conn: int, other: int) {
    OnQuantum(conn) && U32(conn + other) <= MAX_TOTAL && conn >= MIN_NUM_CONN
  }

  /** Both counts are whole quanta above the minimum and share the total. */
  predicate Good(c: Counts) {
    && OnQuantum(c.v4) && OnQuantum(c.v6) && c.v4 >= MIN_NUM_CONN && c.v6 >= MIN_NUM_CONN
    && c.v4 + c.v6 <= MAX_TOTAL
  }

  /** For a count next to a good one the wrapped sum in the check is the real sum. */
  lemma CheckIsExact(conn: int, other: int)
    requires IsInt(conn) && 0 <= other <= MAX_TOTAL
    ensures Accepts(conn, other) <==> OnQuantum(conn) && conn >= MIN_NUM_CONN && conn + other <= MAX_TOTAL
  {
  }

  /** Being whole quanta, good counts are at least 1024 each and at most 8192 together. */
  lemma GoodBounds(c: Counts)
    requires Good(c)
    ensures 1024 <= c.v4 <= 7168 && 1024 <= c.v6 <= 7168 && c.v4 + c.v6 <= 8192
  {
  }

  // ---------------------------------------------------------------- serialised requests

  /** A write of `value` to one family's sysctl. */
  datatype Request = Request(family: Family, value: int, fate: Fate)

  predicate Succeeds(c: Counts, r: Request) {
    Accepts(r.value, c.Of(r.family.Other())) && r.fate.Acked?
  }

  function Handle(s: State, r: Request): State {
    var asked := Accepts(r.value, s.driver.Of(r.family.Other()));
    State(if Succeeds(s.driver, r) then s.driver.With(r.family, r.value) else s.driver,
          if asked && r.fate.Applied() then s.firmware.With(r.family, r.value) else s.firmware)
  }

  /**
   What one request comes to: the driver's count is the number asked for if that is a whole number of
   quanta, not below the minimum, fits beside the other family's, and is acknowledged; else it stays.
   The firmware's follows what was sent to it.
   */
  lemma TakesEffectIff(s: State, r: Request)
    requires IsInt(r.value) && Good(s.driver)
    ensures var s', other := Handle(s, r), s.driver.Of(r.family.Other());
            var valid := r.value % QUANTA == 0 && r.value >= MIN_NUM_CONN && r.value + other <= MAX_TOTAL;
            && s'.driver.Of(r.family) == (if valid && r.fate == Acked then r.value else s.driver.Of(r.family))
            && s'.driver.Of(r.family.Other()) == other
            && s'.firmware.Of(r.family)
               == (if valid && (r.fate == Acked || r.fate == TimedOut(true)) then r.value else s.firmware.Of(r.family))
            && s'.firmware.Of(r.family.Other()) == s.firmware.Of(r.family.Other())
  {
    CheckIsExact(r.value, s.driver.Of(r.family.Other()));
  }

  predicate AllInts(rs: seq<Request>) {
    forall i :: 0 <= i < |rs| ==> IsInt(rs[i].value)
  }

  function HandleAll(s: State, rs: seq<Request>): State {
    if rs == [] then s else Handle(HandleAll(s, rs[..|rs| - 1]), rs[|rs| - 1])
  }

  /** Serialised requests of either family keep the counts good, whatever the firmware answers. */
  lemma {:induction false} QuotaKept(s: State, rs: seq<Request>)
    requires Good(s.driver) && AllInts(rs)
    ensures Good(HandleAll(s, rs).driver)
  {
    if rs != [] {
      QuotaKept(s, rs[..|rs| - 1]);
      var t, r := HandleAll(s, rs[..|rs| - 1]), rs[|rs| - 1];
      CheckIsExact(r.value, t.driver.Of(r.family.Other()));
    }
  }

  predicate NoLateAction(rs: seq<Request>) {
    forall i :: 0 <= i < |rs| ==> rs[i].fate != TimedOut(true)
  }

  /** Driver and firmware agree after any requests, unless the firmware acts on one that the driver gave up on. */
  lemma {:induction false} DriverAndFirmwareAgree(s: State, rs: seq<Request>)
    requires s.driver == s.firmware && NoLateAction(rs)
    ensures HandleAll(s, rs).driver == HandleAll(s, rs).firmware
  {
    if rs != [] {
      DriverAndFirmwareAgree(s, rs[..|rs| - 1]);
    }
  }

  /** The one request after which they differ: accepted, timed out, acted upon, and a change. */
  lemma AgreementLostIff(s: State, r: Request)
    requires s.driver == s.firmware
    ensures var s' := Handle(s, r);
            s'.driver != s'.firmware
            <==> && Accepts(r.value, s.driver.Of(r.family.Other())) && r.fate == TimedOut(true)
                 && r.value != s.driver.Of(r.family)
  {
  }

  // ---------------------------------------------------------------- overlapping requests

  /**
   Each family has its own semaphore, so one family's request can run between the steps of the
   other's: writing the count, checking and sending it, and learning the answer.
   */
  datatype Phase = Idle | Written(saved: int) | Sent(saved: int)

  datatype Shared = Shared(counts: Counts, p4: Phase, p6: Phase) {
    function PhaseOf(f: Family): Phase {
      if f.V4? then p4 else p6
    }

    function Enter(f: Family, p: Phase): Shared {
      if f.V4? then this.(p4 := p) else this.(p6 := p)
    }

    /** The count a family falls back to if its pending request fails. */
    function Settled(f: Family): int {
      if PhaseOf(f).Idle? then counts.Of(f) else PhaseOf(f).saved
    }

    function Restore(f: Family): Shared
      requires !PhaseOf(f).Idle?
    {
      this.(counts := counts.With(f, PhaseOf(f).saved)).Enter(f, Idle)
    }
  }

  datatype Move =
    | Write(family: Family, value: int)
    | Check(family: Family, sent: bool)
    | Answer(family: Family, acked: bool)

  /** One step of one family's handler; a step that is not its turn waits. */
  function Advance(s: Shared, m: Move): Shared {
    var f := m.family;
    var p := s.PhaseOf(f);
    match m
    case Write(_, value) =>
      if p.Idle? then s.(counts := s.counts.With(f, value)).Enter(f, Written(s.counts.Of(f))) else s
    case Check(_, sent) =>
      if !p.Written? then s
      else if Accepts(s.counts.Of(f), s.counts.Of(f.Other())) && sent then s.Enter(f, Sent(p.saved))
      else s.Restore(f)
    case Answer(_, acked) =>
      if !p.Sent? then s else if acked then s.Enter(f, Idle) else s.Restore(f)
  }

  function AdvanceAll(s: Shared, ms: seq<Move>): Shared {
    if ms == [] then s else Advance(AdvanceAll(s, ms[..|ms| - 1]), ms[|ms| - 1])
  }

  lemma AdvanceAppend(s: Shared, ms: seq<Move>, m: Move)
    ensures AdvanceAll(s, ms + [m]) == Advance(AdvanceAll(s, ms), m)
  {
    assert (ms + [m])[..|ms|] == ms;
  }

  function Moves(r: Request): seq<Move> {
    [Write(r.family, r.value), Check(r.family, !r.fate.SendFailed?), Answer(r.family, r.fate.Acked?)]
  }

  /** Run without interruption, the steps of a request are the handler. */
  lemma StepsAreHandler(s: State, r: Request)
    ensures AdvanceAll(Shared(s.driver, Idle, Idle), Moves(r)) == Shared(Handle(s, r).driver, Idle, Idle)
  {
    var w, c, a := Moves(r)[0], Moves(r)[1], Moves(r)[2];
    var start := Shared(s.driver, Idle, Idle);
    AdvanceAppend(start, [], w);
    AdvanceAppend(start, [w], c);
    AdvanceAppend(start, [w, c], a);
    assert [] + [w] == [w] && [w] + [c] == [w, c] && [w, c] + [a] == Moves(r);
  }

  ghost predicate EachWhole(s: Shared) {
    forall f: Family ::
      && OnQuantum(s.Settled(f)) && s.Settled(f) >= MIN_NUM_CONN
      && (s.PhaseOf(f).Sent? ==> OnQuantum(s.counts.Of(f)) && s.counts.Of(f) >= MIN_NUM_CONN)
  }

  lemma AdvanceKeepsWhole(s: Shared, m: Move)
    requires EachWhole(s)
    ensures EachWhole(Advance(s, m))
  {
    var s' := Advance(s, m);
    forall f: Family
      ensures && OnQuantum(s'.Settled(f)) && s'.Settled(f) >= MIN_NUM_CONN
              && (s'.PhaseOf(f).Sent? ==> OnQuantum(s'.counts.Of(f)) && s'.counts.Of(f) >= MIN_NUM_CONN)
    {
      assert OnQuantum(s.Settled(f)) && s.Settled(f) >= MIN_NUM_CONN;
    }
  }

  /** However requests overlap, every settled count is a whole number of quanta and at least the minimum. */
  lemma {:induction false} OverlapKeepsEachWhole(s: Shared, ms: seq<Move>)
    requires EachWhole(s)
    ensures EachWhole(AdvanceAll(s, ms))
  {
    if ms != [] {
      OverlapKeepsEachWhole(s, ms[..|ms| - 1]);
      AdvanceKeepsWhole(AdvanceAll(s, ms[..|ms| - 1]), ms[|ms| - 1]);
    }
  }

  /** The counts as they will be if every pending request fails. */
  function SettledCounts(s: Shared): Counts {
    Counts(s.Settled(V4), s.Settled(V6))
  }

  /** An acknowledgement that settles a count beside which the other family's settled count does not fit. */
  predicate Overruns(s: Shared, m: Move) {
    && m.Answer? && m.acked && s.PhaseOf(m.family).Sent?
    && s.counts.Of(m.family) + s.Settled(m.family.Other()) > MAX_TOTAL
  }

  /** What one step does to the settled counts: only an acknowledgement changes one of them. */
  lemma SettledAfter(s: Shared, m: Move, f: Family)
    ensures Advance(s, m).Settled(f)
            == if m == Answer(f, true) && s.PhaseOf(f).Sent? then s.counts.Of(f) else s.Settled(f)
  {
    hide Accepts;
  }

  /** When the total is lost: in any interleaving, exactly at an acknowledgement that overruns it. */
  lemma TotalLostIff(s: Shared, m: Move)
    requires EachWhole(s) && Good(SettledCounts(s))
    ensures !Good(SettledCounts(Advance(s, m))) <==> Overruns(s, m)
  {
    hide Advance;
    SettledAfter(s, m, V4);
    SettledAfter(s, m, V6);
    AdvanceKeepsWhole(s, m);
    assert EachWhole(Advance(s, m));
    assert forall f: Family :: OnQuantum(Advance(s, m).Settled(f)) && Advance(s, m).Settled(f) >= MIN_NUM_CONN;
  }

  ghost predicate NeverOverruns(s: Shared, ms: seq<Move>) {
    forall k :: 0 <= k < |ms| ==> !Overruns(AdvanceAll(s, ms[..k]), ms[k])
  }

  ghost predicate GoodThroughout(s: Shared, ms: seq<Move>) {
    forall k :: 0 <= k <= |ms| ==> Good(SettledCounts(AdvanceAll(s, ms[..k])))
  }

  /** Over any interleaving the shared total is kept throughout if and only if no acknowledgement overruns it. */
  lemma {:induction false} QuotaKeptIff(s: Shared, ms: seq<Move>)
    requires EachWhole(s) && Good(SettledCounts(s))
    ensures GoodThroughout(s, ms) <==> NeverOverruns(s, ms)
  {
    hide Good, Overruns, EachWhole;
    if ms == [] {
      assert ms[..0] == ms;
    } else {
      var init, m := ms[..|ms| - 1], ms[|ms| - 1];
      QuotaKeptIff(s, init);
      GoodThroughoutStep(s, ms);
      NeverOverrunsStep(s, ms);
      if GoodThroughout(s, init) {
        assert init[..|init|] == init;
        assert Good(SettledCounts(AdvanceAll(s, init[..|init|])));
        OverlapKeepsEachWhole(s, init);
        TotalLostIff(AdvanceAll(s, init), m);
      }
    }
  }

  lemma GoodThroughoutStep(s: Shared, ms: seq<Move>)
    requires ms != []
    ensures GoodThroughout(s, ms) <==> GoodThroughout(s, ms[..|ms| - 1]) && Good(SettledCounts(AdvanceAll(s, ms)))
  {
    hide Good;
    var init := ms[..|ms| - 1];
    assert ms[..|ms|] == ms;
    assert forall k :: 0 <= k <= |init| ==> init[..k] == ms[..k];
  }

  lemma NeverOverrunsStep(s: Shared, ms: seq<Move>)
    requires ms != []
    ensures NeverOverruns(s, ms)
       <==> NeverOverruns(s, ms[..|ms| - 1]) && !Overruns(AdvanceAll(s, ms[..|ms| - 1]), ms[|ms| - 1])
  {
    hide Overruns;
    var init := ms[..|ms| - 1];
    assert forall k :: 0 <= k < |init| ==> init[..k] == ms[..k] && init[k] == ms[k];
  }

  /** One family's request, accepted and acknowledged while the other family's handler stands still. */
  function RunThrough(s: Shared, f: Family, n: int): Shared {
    Advance(Advance(Advance(s, Write(f, n)), Check(f, true)), Answer(f, true))
  }

  /**
   A request that is not interrupted loses the total exactly when its check passed against the
   other family's pending count but would have failed against its settled one -- so never while
   that family is idle.
   */
  lemma UninterruptedLosesTotalIff(s: Shared, f: Family, n: int)
    requires s.PhaseOf(f).Idle? && Good(SettledCounts(s)) && IsInt(n)
    ensures var s', g := RunThrough(s, f, n), f.Other();
            && (!Good(SettledCounts(s')) <==> Accepts(n, s.counts.Of(g)) && n + s.Settled(g) > MAX_TOTAL)
            && (s.PhaseOf(g).Idle? ==> Good(SettledCounts(s')))
  {
    hide U32;
    RunThroughEffect(s, f, n);
    CheckIsExact(n, s.Settled(f.Other()));
  }

  lemma RunThroughEffect(s: Shared, f: Family, n: int)
    requires s.PhaseOf(f).Idle?
    ensures var s', g := RunThrough(s, f, n), f.Other();
            && s'.PhaseOf(f).Idle? && s'.Settled(g) == s.Settled(g)
            && s'.Settled(f) == if Accepts(n, s.counts.Of(g)) then n else s.Settled(f)
  {
    hide Accepts;
  }

  lemma RoomForAny(n: int)
    requires OnQuantum(n) && n > 1024
    ensures Accepts(n, 1024 - n) && !Accepts(1024 - n, n)
  {
  }

  /**
   The total is another matter: a count that is only written, and later taken back, makes room for
   any count of the other family at all.
   */
  lemma OverlapAdmitsAnyCount(c: Counts, n: int)
    requires Good(c) && IsInt(n) && OnQuantum(n) && n > 1024
    ensures IsInt(1024 - n)
    ensures var ms := [Write(V4, 1024 - n), Write(V6, n), Check(V6, true), Answer(V6, true), Check(V4, true)];
            AdvanceAll(Shared(c, Idle, Idle), ms) == Shared(c.(v6 := n), Idle, Idle)
  {
    hide AdvanceAll, Accepts, Good, OnQuantum;
    RoomForAny(n);
    var w4, c4: Move := Write(V4, 1024 - n), Check(V4, true);
    var w6, c6, a6: Move := Write(V6, n), Check(V6, true), Answer(V6, true);
    FiveMoves(Shared(c, Idle, Idle), w4, w6, c6, a6, c4);
    var s2 := Shared(Counts(1024 - n, n), Written(c.v4), Written(c.v6));
    assert Advance(Advance(Shared(c, Idle, Idle), w4), w6) == s2;
    assert Advance(Advance(s2, c6), a6) == s2.(p6 := Idle);
    assert Advance(s2.(p6 := Idle), c4) == Shared(c.(v6 := n), Idle, Idle);
  }

  lemma FiveMoves(s: Shared, a: Move, b: Move, c: Move, d: Move, e: Move)
    ensures AdvanceAll(s, [a, b, c, d, e]) == Advance(Advance(Advance(Advance(Advance(s, a), b), c), d), e)
  {
    hide Advance;
    AdvanceAppend(s, [], a);
    AdvanceAppend(s, [a], b);
    AdvanceAppend(s, [a, b], c);
    AdvanceAppend(s, [a, b, c], d);
    AdvanceAppend(s, [a, b, c, d], e);
    assert [] + [a] == [a] && [a] + [b] == [a, b] && [a, b] + [c] == [a, b, c];
    assert [a, b, c] + [d] == [a, b, c, d] && [a, b, c, d] + [e] == [a, b, c, d, e];
  }

  // ---------------------------------------------------------------- module parameters

  /** nss_ipv4_update_conn_count and its twin: the answer is not waited for. */
  function Update(s: State, r: Request): (State, bool) {
    var ok := Accepts(r.value, s.driver.Of(r.family.Other())) && !r.fate.SendFailed?;
    (State(if ok then s.driver.With(r.family, r.value) else s.driver,
           if ok && r.fate.Applied() then s.firmware.With(r.family, r.value) else s.firmware), ok)
  }

  /** Unlike the sysctl, the update is not undone when the firmware refuses it. */
  lemma UpdateDisagreesIff(s: State, r: Request)
    requires s.driver == s.firmware
    ensures var (s', ok) := Update(s, r);
            s'.driver != s'.firmware
            <==> && Accepts(r.value, s.driver.Of(r.family.Other())) && !r.fate.SendFailed? && !r.fate.Applied()
                 && r.value != s.driver.Of(r.family)
  {
  }

  /** What the start of core 0 does with the two module parameters. */
  function Start(s: State, max4: int, max6: int, fate4: Fate, fate6: Fate): (State, bool, bool) {
    var (s1, ok4) := Update(State(Counts(max4, max6), s.firmware), Request(V4, max4, fate4));
    var (s2, ok6) := Update(s1, Request(V6, max6, fate6));
    (s2, ok4, ok6)
  }

  /**
   The parameters are stored before they are checked, so the counts restored after a rejection are
   the rejected ones: the counts are good after a start if and only if the parameters were.
   */
  lemma StartKeepsParameters(s: State, max4: int, max6: int, fate4: Fate, fate6: Fate)
    requires IsInt(max4) && IsInt(max6)
    ensures var (s', ok4, ok6) := Start(s, max4, max6, fate4, fate6);
            && s'.driver == Counts(max4, max6)
            && (fate4.Acked? && fate6.Acked? ==> (ok4 && ok6 <==> Good(s'.driver)))
            && (fate4.Acked? && fate6.Acked? && Good(s'.driver) ==> s'.firmware == s'.driver)
  {
  }

  // ---------------------------------------------------------------- the handlers

  const EINVAL: int := 22
  const EIO: int := 5

  class Quota {
    var ipv4ConnCfg: int
    var ipv6ConnCfg: int
    ghost var firmware: Counts

    ghost function View(): State
      reads this
    {
      State(Counts(ipv4ConnCfg, ipv6ConnCfg), firmware)
    }

    constructor ()
      ensures View() == State(Counts(DEFAULT_NUM_CONN, DEFAULT_NUM_CONN), Counts(DEFAULT_NUM_CONN, DEFAULT_NUM_CONN))
    {
      ipv4ConnCfg, ipv6ConnCfg := DEFAULT_NUM_CONN, DEFAULT_NUM_CONN;
      firmware := Counts(DEFAULT_NUM_CONN, DEFAULT_NUM_CONN);
    }

    /** nss_ipv4_conn_cfg_process */
    method Ipv4ConnCfgProcess(conn: int, fate: Fate) returns (ret: int)
      modifies this`firmware
      ensures ret == 0 <==> Accepts(conn, ipv6ConnCfg) && !fate.SendFailed?
      ensures firmware == if ret == 0 && fate.Applied() then old(firmware).With(V4, conn) else old(firmware)
      ensures ret != 0 ==> ret == (if Accepts(conn, ipv6ConnCfg) then -EIO else -EINVAL)
    {
      var sum := U32(conn + ipv6ConnCfg);
      if conn % QUANTA != 0 || sum > MAX_TOTAL || conn < MIN_NUM_CONN {
        return -EINVAL;
      }
      if fate.SendFailed? {
        return -EIO;
      }
      if fate.Applied() {
        firmware := firmware.With(V4, conn);
      }
      return 0;
    }

    /** nss_ipv6_conn_cfg_process */
    method Ipv6ConnCfgProcess(conn: int, fate: Fate) returns (ret: int)
      modifies this`firmware
      ensures ret == 0 <==> Accepts(conn, ipv4ConnCfg) && !fate.SendFailed?
      ensures firmware == if ret == 0 && fate.Applied() then old(firmware).With(V6, conn) else old(firmware)
      ensures ret != 0 ==> ret == (if Accepts(conn, ipv4ConnCfg) then -EIO else -EINVAL)
    {
      var sum := U32(ipv4ConnCfg + conn);
      if conn % QUANTA != 0 || sum > MAX_TOTAL || conn < MIN_NUM_CONN {
        return -EINVAL;
      }
      if fate.SendFailed? {
        return -EIO;
      }
      if fate.Applied() {
        firmware := firmware.With(V6, conn);
      }
      return 0;
    }

    /** nss_ipv4_conn_cfg_handler, for a number that was read without error. */
    method Ipv4ConnCfgHandler(value: int, fate: Fate) returns (ret: int)
      modifies this
      ensures View() == Handle(old(View()), Request(V4, value, fate))
      ensures ret == if Succeeds(old(View()).driver, Request(V4, value, fate)) then 0 else -EINVAL
      ensures ret == 0 <==> && value % QUANTA == 0 && value >= MIN_NUM_CONN
                            && U32(value + old(ipv6ConnCfg)) <= MAX_TOTAL && fate.Acked?
      ensures ipv4ConnCfg == (if ret == 0 then value else old(ipv4ConnCfg)) && ipv6ConnCfg == old(ipv6ConnCfg)
    {
      var current := ipv4ConnCfg;
      ipv4ConnCfg := value;
      ret := Ipv4ConnCfgProcess(ipv4ConnCfg, fate);
      if ret == 0 && fate.Acked? {
        return 0;
      }
      ipv4ConnCfg := current;
      return -EINVAL;
    }

    /** nss_ipv6_conn_cfg_handler, for a number that was read without error. */
    method Ipv6ConnCfgHandler(value: int, fate: Fate) returns (ret: int)
      modifies this
      ensures View() == Handle(old(View()), Request(V6, value, fate))
      ensures ret == if Succeeds(old(View()).driver, Request(V6, value, fate)) then 0 else -EINVAL
      ensures ret == 0 <==> && value % QUANTA == 0 && value >= MIN_NUM_CONN
                            && U32(value + old(ipv4ConnCfg)) <= MAX_TOTAL && fate.Acked?
      ensures ipv6ConnCfg == (if ret == 0 then value else old(ipv6ConnCfg)) && ipv4ConnCfg == old(ipv4ConnCfg)
    {
      var current := ipv6ConnCfg;
      ipv6ConnCfg := value;
      ret := Ipv6ConnCfgProcess(ipv6ConnCfg, fate);
      if ret == 0 && fate.Acked? {
        return 0;
      }
      ipv6ConnCfg := current;
      return -EINVAL;
    }

    /** nss_ipv4_update_conn_count */
    method Ipv4UpdateConnCount(value: int, fate: Fate) returns (ret: int)
      modifies this
      ensures (View(), ret == 0) == Update(old(View()), Request(V4, value, fate))
      ensures ret == 0 <==> && value % QUANTA == 0 && value >= MIN_NUM_CONN
                            && U32(value + old(ipv6ConnCfg)) <= MAX_TOTAL && !fate.SendFailed?
      ensures ipv4ConnCfg == (if ret == 0 then value else old(ipv4ConnCfg)) && ipv6ConnCfg == old(ipv6ConnCfg)
      ensures ret == 0 || ret == if Accepts(value, ipv6ConnCfg) then -EIO else -EINVAL
    {
      var saved := ipv4ConnCfg;
      ipv4ConnCfg := value;
      ret := Ipv4ConnCfgProcess(ipv4ConnCfg, fate);
      if ret != 0 {
        ipv4ConnCfg := saved;
      }
    }

    /** nss_ipv6_update_conn_count */
    method Ipv6UpdateConnCount(value: int, fate: Fate) returns (ret: int)
      modifies this
      ensures (View(), ret == 0) == Update(old(View()), Request(V6, value, fate))
      ensures ret == 0 <==> && value % QUANTA == 0 && value >= MIN_NUM_CONN
                            && U32(value + old(ipv4ConnCfg)) <= MAX_TOTAL && !fate.SendFailed?
      ensures ipv6ConnCfg == (if ret == 0 then value else old(ipv6ConnCfg)) && ipv4ConnCfg == old(ipv4ConnCfg)
      ensures ret == 0 || ret == -EINVAL
    {
      var saved := ipv6ConnCfg;
      ipv6ConnCfg := value;
      ret := Ipv6ConnCfgProcess(ipv6ConnCfg, fate);
      if ret != 0 {
        ipv6ConnCfg := saved;
        return -EINVAL;
      }
    }

    /** The end of nss_core_init_nss: the module parameters become the counts, then are checked. */
    method StartCore0(max4: int, max6: int, fate4: Fate, fate6: Fate) returns (done4: bool, done6: bool)
      modifies this
      ensures (View(), done4, done6) == Start(old(View()), max4, max6, fate4, fate6)
    {
      ipv4ConnCfg := max4;
      ipv6ConnCfg := max6;
      var ret := Ipv4UpdateConnCount(max4, fate4);
      done4 := ret == 0;
      ret := Ipv6UpdateConnCount(max6, fate6);
      done6 := ret == 0;
    }
  }
}
