/**
 The cause bookkeeping of the NAPI poll: strict priority between causes, a weight per turn, a
 budget per poll, and cause bits carried over to the next poll. The poll itself, over real rings,
 is in Poll.dfy.
 */
module Napi {

  /** Bits of the interrupt status register; `Unknown` are bits the driver has no handler for. */
  datatype Cause =
    | EmptyBuffersSos
    | EmptyBufferQueue
    | TxUnblocked
    | DataCommandQueue
    | DataQueue1
    | CoredumpComplete0
    | CoredumpComplete1
    | Unknown(bit: nat)

  datatype Kind = Queue | NonQueue | Emergency | Invalid

  datatype Choice = Choice(cause: Cause, kind: Kind, weight: nat)

  const SOS_WEIGHT: nat := 64
  const QUEUE_WEIGHT: nat := 64
  const TX_UNBLOCKED_WEIGHT: nat := 1

  /** nss_core_get_prioritized_cause */
  function Prioritized(cause: set<Cause>): Choice {
    if EmptyBuffersSos in cause then Choice(EmptyBuffersSos, NonQueue, SOS_WEIGHT)
    else if EmptyBufferQueue in cause then Choice(EmptyBufferQueue, Queue, QUEUE_WEIGHT)
    else if TxUnblocked in cause then Choice(TxUnblocked, NonQueue, TX_UNBLOCKED_WEIGHT)
    else if DataCommandQueue in cause then Choice(DataCommandQueue, Queue, QUEUE_WEIGHT)
    else if DataQueue1 in cause then Choice(DataQueue1, Queue, QUEUE_WEIGHT)
    else if CoredumpComplete0 in cause then Choice(CoredumpComplete0, Emergency, 0)
    else if CoredumpComplete1 in cause then Choice(CoredumpComplete1, Emergency, 0)
    else Choice(Unknown(0), Invalid, 0)
  }

  /** Position in the order of service, most urgent first. */
  function Rank(c: Cause): nat {
    match c
    case EmptyBuffersSos => 0
    case EmptyBufferQueue => 1
    case TxUnblocked => 2
    case DataCommandQueue => 3
    case DataQueue1 => 4
    case CoredumpComplete0 => 5
    case CoredumpComplete1 => 6
    case Unknown(_) => 7
  }

  predicate IsQueue(c: Cause) {
    c == EmptyBufferQueue || c == DataCommandQueue || c == DataQueue1
  }

  /** The choice is the most urgent bit that is set, and there is none only if no known bit is. */
  lemma PrioritizedIsMostUrgent(cause: set<Cause>)
    ensures var p := Prioritized(cause);
            && (p.kind == Invalid <==> forall c :: c in cause ==> c.Unknown?)
            && (p.kind != Invalid ==> p.cause in cause && forall c :: c in cause ==> Rank(p.cause) <= Rank(c))
            && (p.kind == Queue <==> IsQueue(p.cause))
            && (p.kind == Queue ==> p.weight > 0)
  {
  }

  /** What a queue handler processes, with `visible` descriptors waiting when it looks. */
  function Processed(visible: nat, weight: nat): nat {
    if visible <= weight then visible else weight
  }

  /** State of the poll loop: pending causes, remaining budget, and work done in this turn. */
  datatype Turn = Turn(cause: set<Cause>, budget: nat, processed: nat)

  /** One turn of the loop of nss_core_handle_napi. */
  function TakeTurn(cause: set<Cause>, budget: nat, visible: nat): Turn {
    var p := Prioritized(cause);
    var weight := if budget < p.weight then budget else p.weight;
    match p.kind
    case Queue =>
      var processed := Processed(visible, weight);
      Turn(if processed < weight then cause - {p.cause} else cause, budget - processed, processed)
    case NonQueue => Turn(cause - {p.cause}, budget, 0)
    case Emergency => Turn(cause - {p.cause}, budget, 0)
    case Invalid => Turn(cause, budget, 0)
  }

  /** A turn makes progress -- less budget or fewer causes -- exactly when some pending bit is known. */
  lemma ProgressIffKnown(cause: set<Cause>, budget: nat, visible: nat)
    requires budget > 0
    ensures var t := TakeTurn(cause, budget, visible);
            && t.cause <= cause && t.budget <= budget
            && ((t.budget < budget || t.cause < cause) <==> exists c :: c in cause && !c.Unknown?)
  {
    PrioritizedIsMostUrgent(cause);
  }

  /** With only unknown bits pending the loop of the source turns forever without changing anything. */
  lemma UnknownCausesStall(cause: set<Cause>, budget: nat, visible: nat)
    requires forall c :: c in cause ==> c.Unknown?
    ensures TakeTurn(cause, budget, visible) == Turn(cause, budget, 0)
  {
    PrioritizedIsMostUrgent(cause);
  }

  /** A turn that uses up the budget leaves its cause pending, and only queues use any. */
  lemma SpentTurnKeeps(cause: set<Cause>, budget: nat, visible: nat)
    ensures var t := TakeTurn(cause, budget, visible);
            && t.processed <= budget && t.budget == budget - t.processed
            && (budget > 0 && t.processed == budget ==> t.cause == cause)
            && (!IsQueue(Prioritized(cause).cause) ==> t.processed == 0)
  {
  }

  /** A turn drops no cause but the one it served, and every cause that is not a queue's it does drop. */
  lemma OnlyTheServedGoes(cause: set<Cause>, budget: nat, visible: nat)
    requires exists c :: c in cause && !c.Unknown?
    ensures var t, p := TakeTurn(cause, budget, visible), Prioritized(cause);
            && cause - {p.cause} <= t.cause <= cause
            && (IsQueue(p.cause) || t.cause == cause - {p.cause})
  {
    PrioritizedIsMostUrgent(cause);
  }

  // ---------------------------------------------------------------- what happened

  datatype Event =
    // bits read from the status register
    | Raised(causes: set<Cause>)
    // a handler ran for `cause`; of the `visible` descriptors of its ring it took `processed`
    | Served(cause: Cause, visible: nat, processed: nat, cleared: bool)

  function Account(owed: set<Cause>, e: Event): set<Cause> {
    if e.Raised? then owed + e.causes else if e.cleared then owed - {e.cause} else owed
  }

  /** The causes still owed a handler: raised, and not cleared since. */
  function Owed(log: seq<Event>): set<Cause> {
    if log == [] then {} else Account(Owed(log[..|log| - 1]), log[|log| - 1])
  }

  lemma OwedAppend(log: seq<Event>, e: Event)
    ensures Owed(log + [e]) == Account(Owed(log), e)
  {
    assert (log + [e])[..|log|] == log;
  }

  predicate RaisedAt(log: seq<Event>, i: nat, c: Cause) {
    i < |log| && log[i].Raised? && c in log[i].causes
  }

  predicate ClearedAt(log: seq<Event>, i: nat, c: Cause) {
    i < |log| && log[i].Served? && log[i].cause == c && log[i].cleared
  }

  ghost predicate RaisedUncleared(log: seq<Event>, c: Cause) {
    exists i: nat :: RaisedAt(log, i, c) && forall j: nat :: i < j ==> !ClearedAt(log, j, c)
  }

  /** A cause is owed exactly when it was raised and no handler has cleared it since. */
  lemma {:induction false} OwedIff(log: seq<Event>, c: Cause)
    ensures c in Owed(log) <==> RaisedUncleared(log, c)
  {
    if log != [] {
      var init, n := log[..|log| - 1], |log| - 1;
      OwedIff(init, c);
      assert forall i: nat :: i < n ==> (RaisedAt(init, i, c) <==> RaisedAt(log, i, c));
      assert forall i: nat :: i < n ==> (ClearedAt(init, i, c) <==> ClearedAt(log, i, c));
      if RaisedAt(log, n, c) {
        assert RaisedUncleared(log, c);
      } else if RaisedUncleared(init, c) {
        var i: nat :| RaisedAt(init, i, c) && forall j: nat :: i < j ==> !ClearedAt(init, j, c);
        assert ClearedAt(log, n, c) || (RaisedAt(log, i, c) && forall j: nat :: i < j ==> !ClearedAt(log, j, c));
      }
      if i: nat :| RaisedAt(log, i, c) && forall j: nat :: i < j ==> !ClearedAt(log, j, c) {
        assert i == n || RaisedAt(init, i, c);
      }
    }
  }

  /** The values read from the status register, in order. */
  function Readings(log: seq<Event>): seq<set<Cause>> {
    if log == [] then []
    else Readings(log[..|log| - 1]) + if log[|log| - 1].Raised? then [log[|log| - 1].causes] else []
  }

  lemma ReadingsAppend(log: seq<Event>, e: Event)
    ensures Readings(log + [e]) == Readings(log) + if e.Raised? then [e.causes] else []
  {
    assert (log + [e])[..|log|] == log;
  }

  /** Every value read stands in the record, after everything that was there when it was read. */
  lemma {:induction false} ReadRecorded(log: seq<Event>, n: nat, k: nat) returns (i: nat)
    requires n <= |log| && |Readings(log[..n])| <= k < |Readings(log)|
    ensures n <= i < |log| && log[i] == Raised(Readings(log)[k])
  {
    assert log[..|log|] == log;
    if n < |log| {
      var init := log[..|log| - 1];
      if k < |Readings(init)| {
        assert init[..n] == log[..n];
        i := ReadRecorded(init, n, k);
      } else {
        i := |log| - 1;
      }
    }
  }

  /** Some handler cleared the cause at or after position `n`. */
  ghost predicate ClearedSince(log: seq<Event>, n: nat, c: Cause) {
    exists j: nat :: n <= j && ClearedAt(log, j, c)
  }

  /** No bit read after position `n` is forgotten: it is still owed or was cleared by a handler since. */
  lemma ReadNotForgotten(log: seq<Event>, n: nat, k: nat, c: Cause)
    requires n <= |log| && |Readings(log[..n])| <= k < |Readings(log)| && c in Readings(log)[k]
    ensures c in Owed(log) || ClearedSince(log, n, c)
  {
    hide Owed;
    var i := ReadRecorded(log, n, k);
    OwedIff(log, c);
    assert RaisedAt(log, i, c);
  }

  /** No handler ran while a more urgent cause was owed, and none ran unasked. */
  ghost predicate MostUrgentFirst(log: seq<Event>) {
    forall i :: 0 <= i < |log| && log[i].Served? ==> MostUrgent(Owed(log[..i]), log[i].cause)
  }

  ghost predicate MostUrgent(owed: set<Cause>, c: Cause) {
    c in owed && forall d :: d in owed ==> Rank(c) <= Rank(d)
  }

  /** A queue's bit is dropped only by a turn that took everything the ring showed. */
  ghost predicate ClearedOnlyWhenDrained(log: seq<Event>) {
    forall i :: 0 <= i < |log| && log[i].Served? && IsQueue(log[i].cause) && log[i].cleared ==>
      log[i].processed == log[i].visible
  }

  /** What one turn of a handler took of what it saw. */
  datatype Take = Take(visible: nat, processed: nat)

  /** The turns of one cause, in order. */
  function Turns(log: seq<Event>, c: Cause): seq<Take> {
    if log == [] then []
    else
      var e := log[|log| - 1];
      var before := Turns(log[..|log| - 1], c);
      if e.Served? && e.cause == c then before + [Take(e.visible, e.processed)] else before
  }

  lemma TurnsAppend(log: seq<Event>, e: Event, c: Cause)
    ensures Turns(log + [e], c)
         == if e.Served? && e.cause == c then Turns(log, c) + [Take(e.visible, e.processed)] else Turns(log, c)
  {
    assert (log + [e])[..|log|] == log;
  }

  function Total(takes: seq<Take>): nat {
    if takes == [] then 0 else Total(takes[..|takes| - 1]) + takes[|takes| - 1].processed
  }

  lemma TotalAppend(takes: seq<Take>, t: Take)
    ensures Total(takes + [t]) == Total(takes) + t.processed
  {
    assert (takes + [t])[..|takes|] == takes;
  }

  /** Descriptors taken for one cause. */
  function WorkFor(log: seq<Event>, c: Cause): nat {
    Total(Turns(log, c))
  }

  lemma WorkForAppend(log: seq<Event>, e: Event, c: Cause)
    ensures WorkFor(log + [e], c) == WorkFor(log, c) + if e.Served? && e.cause == c then e.processed else 0
  {
    TurnsAppend(log, e, c);
    if e.Served? && e.cause == c {
      TotalAppend(Turns(log, c), Take(e.visible, e.processed));
    }
  }

  /** Descriptors taken for all queues. */
  function Work(log: seq<Event>): nat {
    WorkFor(log, EmptyBufferQueue) + WorkFor(log, DataCommandQueue) + WorkFor(log, DataQueue1)
  }

  lemma WorkAppend(log: seq<Event>, e: Event)
    requires e.Served? && !IsQueue(e.cause) ==> e.processed == 0
    ensures Work(log + [e]) == Work(log) + if e.Served? then e.processed else 0
  {
    WorkForAppend(log, e, EmptyBufferQueue);
    WorkForAppend(log, e, DataCommandQueue);
    WorkForAppend(log, e, DataQueue1);
  }

  ghost predicate GoodRecord(log: seq<Event>) {
    MostUrgentFirst(log) && ClearedOnlyWhenDrained(log)
  }

  lemma RecordGrows(log: seq<Event>, e: Event)
    requires GoodRecord(log)
    requires e.Served? ==> MostUrgent(Owed(log), e.cause)
    requires e.Served? && IsQueue(e.cause) && e.cleared ==> e.processed == e.visible
    ensures GoodRecord(log + [e])
  {
    hide Owed, MostUrgent;
    var log' := log + [e];
    forall i | 0 <= i < |log'| && log'[i].Served?
      ensures MostUrgent(Owed(log'[..i]), log'[i].cause)
    {
      assert log'[..i] == log[..i];
      assert i == |log| ==> log[..i] == log;
    }
  }

  /** The turn of the most urgent cause keeps the record good and the books straight. */
  lemma ServedKeeps(log: seq<Event>, owed: set<Cause>, e: Event)
    requires GoodRecord(log) && owed == Owed(log) && e.Served? && MostUrgent(owed, e.cause)
    requires IsQueue(e.cause) && e.cleared ==> e.processed == e.visible
    ensures GoodRecord(log + [e]) && Readings(log + [e]) == Readings(log)
    ensures Owed(log + [e]) == if e.cleared then owed - {e.cause} else owed
  {
    hide Owed, Readings, GoodRecord, MostUrgent;
    OwedAppend(log, e);
    ReadingsAppend(log, e);
    RecordGrows(log, e);
  }

  // ---------------------------------------------------------------- the interrupt context

  /** What the next read of the register yields, and what it leaves. */
  function NextBits(status: seq<set<Cause>>): set<Cause> {
    if status == [] then {} else status[0]
  }

  function Rest(status: seq<set<Cause>>): seq<set<Cause>> {
    if status == [] then [] else status[1..]
  }

  /** What `k` reads yield, and what they leave. */
  function Supply(status: seq<set<Cause>>, k: nat): (s: seq<set<Cause>>)
    ensures |s| == k
    ensures forall i :: 0 <= i < k ==> s[i] == if i < |status| then status[i] else {}
  {
    seq(k, i => if 0 <= i < |status| then status[i] else {})
  }

  function After(status: seq<set<Cause>>, k: nat): seq<set<Cause>> {
    if k <= |status| then status[k..] else []
  }

  lemma SupplyStep(status: seq<set<Cause>>, k: nat)
    ensures Supply(status, k + 1) == Supply(status, k) + [NextBits(After(status, k))]
    ensures After(status, k + 1) == Rest(After(status, k))
  {
  }

  lemma SupplyNone(status: seq<set<Cause>>)
    ensures Supply(status, 0) == [] && After(status, 0) == status
  {
  }

  /** Reading once and then `k` times. */
  lemma SupplyMore(status: seq<set<Cause>>, k: nat)
    ensures Supply(status, k + 1) == [NextBits(status)] + Supply(Rest(status), k)
    ensures After(status, k + 1) == After(Rest(status), k)
  {
  }

  /** A bit of the `i`-th of the values read since the record was `log` is owed or was cleared since. */
  lemma SuppliedNotForgotten(log: seq<Event>, log': seq<Event>, status: seq<set<Cause>>, k: nat, i: nat, c: Cause)
    requires log <= log' && Readings(log') == Readings(log) + Supply(status, k)
    requires i < k && i < |status| && c in status[i]
    ensures c in Owed(log') || ClearedSince(log', |log|, c)
  {
    hide Readings, Owed, ClearedSince;
    assert log'[..|log|] == log;
    ReadNotForgotten(log', |log|, |Readings(log)| + i, c);
  }

  ghost predicate AllKnown(status: seq<set<Cause>>) {
    forall i, c :: 0 <= i < |status| && c in status[i] ==> !c.Unknown?
  }

  lemma KnownRest(status: seq<set<Cause>>)
    requires AllKnown(status)
    ensures AllKnown(Rest(status)) && forall c :: c in NextBits(status) ==> !c.Unknown?
  {
  }

  class IntCtx {
    var cause: set<Cause>
    var enabled: bool                    // whether the interrupt can fire
    var status: seq<set<Cause>>          // what the next reads of the status register will yield
    ghost var readings: seq<set<Cause>>     // what the register yielded so far
    ghost var log: seq<Event>            // over all polls so far

    /** `cause` is exactly what is owed for what the register yielded. */
    ghost predicate Valid()
      reads this
    {
      && Readings(log) == readings && cause == Owed(log) && GoodRecord(log)
      && (forall c :: c in cause ==> !c.Unknown?) && AllKnown(status)
    }

    constructor (status: seq<set<Cause>>)
      requires AllKnown(status)
      ensures Valid() && cause == {} && enabled && log == [] && readings == [] && this.status == status
    {
      cause, enabled, log, readings := {}, true, [], [];
      this.status := status;
    }

    /** The hardware: reading the register clears it; its supply of bits is finite. */
    method HalReadAndClear() returns (bits: set<Cause>)
      modifies this`status, this`readings
      ensures bits == NextBits(old(status)) && status == Rest(old(status)) && readings == old(readings) + [bits]
    {
      bits := {};
      if status != [] {
        bits, status := status[0], status[1..];
      }
      readings := readings + [bits];
    }

    /** Reads the register and adds what it yields to the pending causes. */
    method ReadCause()
      requires Valid()
      modifies this`cause, this`status, this`readings, this`log
      ensures Valid() && cause == old(cause) + NextBits(old(status)) && status == Rest(old(status))
      ensures readings == old(readings) + [NextBits(old(status))] && log == old(log) + [Raised(NextBits(old(status)))]
    {
      hide Owed, GoodRecord;
      KnownRest(status);
      var bits := HalReadAndClear();
      OwedAppend(log, Raised(bits));
      ReadingsAppend(log, Raised(bits));
      RecordGrows(log, Raised(bits));
      log := log + [Raised(bits)];
      cause := cause + bits;
    }

    /** After the handler of the most urgent cause: its bit goes unless a queue used up its weight. */
    method Settle(p: Choice, weight: nat, processed: nat, ghost visible: nat)
      requires Valid() && cause != {} && p == Prioritized(cause)
      requires p.kind == Queue ==> processed == Processed(visible, weight)
      modifies this`cause, this`log
      ensures Valid()
      ensures cause == if p.kind == Queue && processed >= weight then old(cause) else old(cause) - {p.cause}
      ensures log == old(log) + [Served(p.cause, visible, processed, cause != old(cause))]
    {
      hide Owed, Readings, GoodRecord, Prioritized, Rank, AllKnown, Account;
      PrioritizedIsMostUrgent(cause);
      ghost var before := cause;
      if p.kind == NonQueue || p.kind == Emergency || processed < weight {
        cause := cause - {p.cause};
      }
      ghost var e := Served(p.cause, visible, processed, cause != before);
      ServedKeeps(log, before, e);
      log := log + [e];
    }
  }
}
