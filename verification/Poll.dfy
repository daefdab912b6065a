/**
 The NAPI poll over the rings it serves: nss_core_handle_napi with nss_core_handle_cause_queue on
 the three firmware-to-host rings and the refill on the empty-buffer ring. The firmware works on all
 of them meanwhile.
 */
module Poll {
  import opened Machine
  import opened RingIndex
  import opened RingWindow
  import opened Napi
  import opened Reassembly
  import opened N2hRings
  import opened H2nRings

  /** A firmware-to-host ring, with what the firmware is still going to put on it. */
  class Channel {
    const ring: N2hRing
    var future: seq<N2hDesc>
    ghost var served: seq<Take>   // every run of the ring's handler
    ghost var due: nat            // how far the firmware was when the register was last read with the cause pending
    ghost const repr: set<object> // the ring, and every buffer that ever comes over it

    constructor (k: nat, blank: N2hDesc, future: seq<N2hDesc>)
      requires k <= MAX_RING_ORDER && WellBehaved(future)
      ensures Valid() && ring.items == [] && served == [] && due == 0
      ensures repr == {this, ring, ring.desc, ring.rx, ring.rx.out} + SkbsOf(future)
      ensures fresh(ring) && fresh(ring.desc) && fresh(ring.rx) && fresh(ring.rx.out)
    {
      var r := new N2hRing(k, blank);
      ring := r;
      this.future := future;
      served, due := [], 0;
      repr := {this, r, r.desc, r.rx, r.rx.out} + SkbsOf(future);
      new;
      assert ring.produced + future == future;
    }

    ghost predicate Valid()
      reads this, repr
    {
      && this in repr && ring in repr && ring.desc in repr && ring.rx in repr && ring.rx.out in repr
      && SkbsOf(ring.produced + future) <= repr && OpenSkbs(Run(ring.items).asm) <= repr
      && ring.Valid() && ring.Settled() && WellBehaved(ring.produced + future)
      && Total(served) == |ring.items| && due <= |ring.produced|
    }

    lemma Members()
      requires Valid()
      ensures this in repr && ring in repr && ring.desc in repr && |ring.items| <= |ring.produced|
      ensures due <= |ring.produced| && Total(served) == |ring.items|
    {
    }

    ghost function Pending(): int
      reads ring
    {
      |ring.produced| - |ring.items|
    }

    /** The firmware at work while the host is busy elsewhere. */
    method FirmwareStep()
      requires Valid()
      modifies this`future, ring`nssIndex, ring`produced, ring.desc
      ensures Valid() && old(ring.produced) <= ring.produced
    {
      hide WellBehaved, Run, SkbsOf, OpenSkbs, N2hRing.RingOk;
      var left := ring.FirmwareStep(future);
      future := left;
    }

    /** The register was read: what is on the ring is due if its cause is pending now. */
    ghost method Mark(pending: bool)
      requires Valid()
      modifies this`due
      ensures Valid() && due == if pending then |ring.produced| else old(due)
    {
      hide WellBehaved, Run, SkbsOf, OpenSkbs, N2hRing.RingOk, N2hRing.Valid;
      due := if pending then |ring.produced| else due;
    }

    /** nss_core_handle_cause_queue */
    method Serve(weight: nat) returns (count: nat, ghost visible: nat)
      requires Valid()
      modifies repr
      ensures Valid() && due == old(due)
      ensures visible >= old(Pending()) && count == Processed(visible, weight)
      ensures served == old(served) + [Take(visible, count)]
      ensures |ring.items| == old(|ring.items|) + count && old(ring.items) <= ring.items
      ensures old(ring.events) <= ring.events && old(ring.produced) <= ring.produced
    {
      hide WellBehaved, Run, SkbsOf, OpenSkbs, N2hRing.RingOk, Total;
      var left; ghost var seen;
      count, left, seen := ring.HandleCauseQueue(weight, future);
      visible := seen - |old(ring.items)|;
      TotalAppend(served, Take(visible, count));
      future := left;
      served := served + [Take(visible, count)];
      ring.OpenWithinPool(future);
    }
  }

  /** A ring that shares nothing with what is `taken`, now or later. */
  method NewChannel(k: nat, blank: N2hDesc, future: seq<N2hDesc>, ghost taken: set<object>) returns (c: Channel)
    requires k <= MAX_RING_ORDER && WellBehaved(future) && forall b :: b in SkbsOf(future) ==> b !in taken
    ensures c.Valid() && c.ring.items == [] && c.served == [] && c.due == 0 && c.repr !! taken
    ensures forall o :: o in c.repr ==> fresh(o) || o in SkbsOf(future)
  {
    hide Window, Slot, Pow2, WellBehaved, MatchAll, Run, SkbsOf, OpenSkbs;
    c := new Channel(k, blank, future);
  }

  /** Three rings that share nothing. */
  method NewChannels(k: nat, blank: N2hDesc, f1: seq<N2hDesc>, f2: seq<N2hDesc>, f3: seq<N2hDesc>)
    returns (c1: Channel, c2: Channel, c3: Channel)
    requires k <= MAX_RING_ORDER && WellBehaved(f1) && WellBehaved(f2) && WellBehaved(f3)
    requires SkbsOf(f1) !! SkbsOf(f2) && SkbsOf(f1) !! SkbsOf(f3) && SkbsOf(f2) !! SkbsOf(f3)
    ensures c1.Valid() && c2.Valid() && c3.Valid()
    ensures c1.ring.items == [] && c2.ring.items == [] && c3.ring.items == []
    ensures c1.served == [] && c2.served == [] && c3.served == [] && c1.due == 0 && c2.due == 0 && c3.due == 0
    ensures c1.repr !! c2.repr && c1.repr !! c3.repr && c2.repr !! c3.repr
  {
    hide Window, Slot, WellBehaved, MatchAll, Run, OpenSkbs;
    c1 := NewChannel(k, blank, f1, {});
    c2 := NewChannel(k, blank, f2, c1.repr);
    c3 := NewChannel(k, blank, f3, c1.repr + c2.repr);
  }

  method NewHost(status: seq<set<Cause>>, k: nat, blank: Framing.H2nDesc)
    returns (ctx: IntCtx, empties: H2nRing, data0: H2nRing, heap: BufferHeap)
    requires AllKnown(status) && k <= MAX_RING_ORDER
    ensures ctx.Valid() && ctx.status == status && ctx.log == [] && ctx.cause == {}
    ensures empties.Valid() && empties.history == [] && empties.delivered == [] && empties.txEmpty == 0 && heap.Valid()
    ensures fresh(ctx) && fresh(empties) && fresh(empties.desc) && fresh(data0) && fresh(heap) && empties != data0
  {
    ctx := new IntCtx(status);
    empties := new H2nRing(k, blank);
    data0 := new H2nRing(k, blank);
    heap := new BufferHeap();
  }

  /** How far each ring is: the other side's progress, or what is due on this side. */
  datatype Marks = Marks(returned: nat, commands: nat, data1: nat, empties: int, refills: nat)

  predicate Below(a: Marks, b: Marks) {
    && a.returned <= b.returned && a.commands <= b.commands && a.data1 <= b.data1
    && a.empties <= b.empties && a.refills <= b.refills
  }

  /** What is due once the register was read at `now` and `cause` is pending. */
  ghost function Renewed(dues: Marks, cause: set<Cause>, now: Marks): Marks {
    Marks(if EmptyBufferQueue in cause then now.returned else dues.returned,
          if DataCommandQueue in cause then now.commands else dues.commands,
          if DataQueue1 in cause then now.data1 else dues.data1,
          if EmptyBuffersSos in cause then now.empties else dues.empties,
          if EmptyBuffersSos in cause then now.refills else dues.refills)
  }

  /** For every cause that was asked for, at least what was there at `m` is due. */
  ghost predicate Covers(dues: Marks, asked: set<Cause>, m: Marks) {
    && (EmptyBufferQueue in asked ==> m.returned <= dues.returned)
    && (DataCommandQueue in asked ==> m.commands <= dues.commands)
    && (DataQueue1 in asked ==> m.data1 <= dues.data1)
    && (EmptyBuffersSos in asked ==> m.empties <= dues.empties && m.refills <= dues.refills)
  }

  lemma RenewedCovers(dues: Marks, asked: set<Cause>, bits: set<Cause>, cause: set<Cause>, m: Marks, now: Marks)
    requires Covers(dues, asked, m) && Below(m, now) && Below(dues, now) && bits <= cause
    ensures Covers(Renewed(dues, cause, now), asked + bits, m)
  {
  }

  lemma BelowTrans(a: Marks, b: Marks, c: Marks)
    requires Below(a, b) && Below(b, c)
    ensures Below(a, c)
  {
  }

  /** All bits of some values of the register. */
  ghost function Bits(values: seq<set<Cause>>): set<Cause> {
    set i, c | 0 <= i < |values| && c in values[i] :: c
  }

  lemma NoBits(before: set<Cause>)
    ensures before + Bits([]) == before
  {
  }

  lemma BitsAppend(values: seq<set<Cause>>, v: set<Cause>)
    ensures Bits(values + [v]) == Bits(values) + v
  {
    assert (values + [v])[|values|] == v;
    assert forall i :: 0 <= i < |values| ==> (values + [v])[i] == values[i];
  }

  lemma BitsPrepend(values: seq<set<Cause>>, v: set<Cause>)
    ensures Bits([v] + values) == v + Bits(values)
  {
    assert ([v] + values)[0] == v;
    assert forall i :: 0 <= i < |values| ==> ([v] + values)[i + 1] == values[i];
  }

  class NssCore {
    const ctx: IntCtx
    const returned: Channel  // EmptyBufferQueue
    const commands: Channel  // DataCommandQueue
    const data1: Channel     // DataQueue1
    const empties: H2nRing
    const heap: BufferHeap
    const data0: H2nRing     // the transmit ring that congestion stops
    const mode: RefillMode
    const pad: nat
    const world: nat -> nat -> Attempt // what allocation and mapping will yield, for each refill
    ghost var wanted: int              // how far the empty buffers could be filled when last asked for
    ghost var wantedFrom: nat          // and the number of refills before

    ghost predicate Apart() {
      && returned.repr !! commands.repr && returned.repr !! data1.repr && commands.repr !! data1.repr
      && OutsideOf(returned) && OutsideOf(commands) && OutsideOf(data1)
      && empties != data0
    }

    /** Nothing of the core itself is part of a channel. */
    ghost predicate OutsideOf(c: Channel) {
      && this !in c.repr && ctx !in c.repr && empties !in c.repr && empties.desc !in c.repr
      && heap !in c.repr && data0 !in c.repr
    }

    /** The record tells of exactly the runs of the handlers. */
    ghost predicate Recorded()
      reads ctx, returned, commands, data1, empties
    {
      && returned.served == Turns(ctx.log, EmptyBufferQueue)
      && commands.served == Turns(ctx.log, DataCommandQueue)
      && data1.served == Turns(ctx.log, DataQueue1)
      && empties.txEmpty == |Turns(ctx.log, EmptyBuffersSos)|
    }

    ghost predicate ChannelsValid()
      reads returned, returned.repr, commands, commands.repr, data1, data1.repr
    {
      returned.Valid() && commands.Valid() && data1.Valid()
    }

    /**
     A cause that is not pending has been dealt with: whatever was on its ring when the register was
     last read with the cause pending has been taken, and a request for buffers was answered in full
     unless an allocation or a mapping failed.
     */
    ghost predicate DealtWith()
      reads this, ctx, returned, returned.ring, commands, commands.ring, data1, data1.ring, empties
    {
      && (EmptyBufferQueue in ctx.cause || |returned.ring.items| >= returned.due)
      && (DataCommandQueue in ctx.cause || |commands.ring.items| >= commands.due)
      && (DataQueue1 in ctx.cause || |data1.ring.items| >= data1.due)
      && wanted <= |empties.delivered| + empties.size - 1 && wantedFrom <= empties.txEmpty
      && (EmptyBuffersSos in ctx.cause || |empties.history| >= wanted || Starved(wantedFrom))
    }

    /** Some attempt of a refill failed since there were `from` of them. */
    ghost predicate Starved(from: nat)
      reads empties
    {
      exists r: nat, k: nat :: from <= r < empties.txEmpty && Fails(mode, world(r)(k))
    }

    ghost predicate Valid()
      reads this, ctx, returned, returned.repr, commands, commands.repr, data1, data1.repr
      reads empties, empties.desc, heap, returned.ring, commands.ring, data1.ring
    {
      && Apart() && ctx.Valid() && ChannelsValid() && Recorded() && DealtWith()
      && empties.Valid() && heap.Valid()
    }

    constructor (status: seq<set<Cause>>, k: nat, blankIn: N2hDesc, blankOut: Framing.H2nDesc,
                 backs: seq<N2hDesc>, replies: seq<N2hDesc>, packets: seq<N2hDesc>,
                 mode: RefillMode, pad: nat, world: nat -> nat -> Attempt)
      requires AllKnown(status) && k <= MAX_RING_ORDER
      requires WellBehaved(backs) && WellBehaved(replies) && WellBehaved(packets)
      requires SkbsOf(backs) !! SkbsOf(replies) && SkbsOf(backs) !! SkbsOf(packets)
      requires SkbsOf(replies) !! SkbsOf(packets)
      ensures Valid() && ctx.status == status && ctx.log == [] && Taken() == 0
    {
      hide Window, Slot, WellBehaved, MatchAll, Run, GoodRecord, AllKnown, Owed, SkbsOf, OpenSkbs, Pow2,
           Channel.Valid, H2nRing.Valid, BufferHeap.Valid;
      var c1, c2, c3 := NewChannels(k, blankIn, backs, replies, packets);
      returned, commands, data1 := c1, c2, c3;
      var i, e, d, h := NewHost(status, k, blankOut);
      ctx, empties, data0, heap := i, e, d, h;
      this.mode, this.pad, this.world := mode, pad, world;
      wanted, wantedFrom := 0, 0;
    }

    /** The channel a queue's cause stands for. */
    function ChannelOf(c: Cause): (ch: Channel)
      requires IsQueue(c)
      ensures ch == returned || ch == commands || ch == data1
    {
      match c
      case EmptyBufferQueue => returned
      case DataCommandQueue => commands
      case _ => data1
    }

    /** All descriptors taken so far. */
    ghost function Taken(): nat
      reads this, returned.ring, commands.ring, data1.ring
    {
      |returned.ring.items| + |commands.ring.items| + |data1.ring.items|
    }

    /** How far the firmware is: what it put on its rings, and how far the empty buffers can be filled. */
    ghost function Now(): Marks
      reads returned.ring, commands.ring, data1.ring, empties
    {
      Marks(|returned.ring.produced|, |commands.ring.produced|, |data1.ring.produced|,
            |empties.delivered| + empties.size - 1, empties.txEmpty)
    }

    ghost function Dues(): Marks
      reads this, returned, commands, data1
    {
      Marks(returned.due, commands.due, data1.due, wanted, wantedFrom)
    }

    /** What the host has done with the three rings. */
    ghost predicate SameTaken(c: Channel, items: seq<Item>, served: seq<Take>)
      reads c, c.ring
    {
      c.ring.items == items && c.served == served
    }

    method ChannelsStep()
      requires Apart() && ChannelsValid()
      modifies returned.repr, commands.repr, data1.repr
      ensures ChannelsValid() && Dues() == old(Dues()) && Below(old(Now()), Now())
      ensures SameTaken(returned, old(returned.ring.items), old(returned.served))
      ensures SameTaken(commands, old(commands.ring.items), old(commands.served))
      ensures SameTaken(data1, old(data1.ring.items), old(data1.served))
    {
      hide Channel.Valid;
      returned.Members();
      commands.Members();
      data1.Members();
      returned.FirmwareStep();
      commands.FirmwareStep();
      data1.FirmwareStep();
    }

    /** The firmware at work on all rings between two steps of the host. */
    method FirmwareSteps()
      requires Valid()
      modifies returned.repr, commands.repr, data1.repr, empties`nssIndex, empties`delivered
      ensures Valid() && Dues() == old(Dues()) && Below(old(Now()), Now())
      ensures SameTaken(returned, old(returned.ring.items), old(returned.served))
      ensures SameTaken(commands, old(commands.ring.items), old(commands.served))
      ensures SameTaken(data1, old(data1.ring.items), old(data1.served))
    {
      hide Channel.Valid, Window, Slot, GoodRecord, Owed, AllKnown, Turns;
      ChannelsStep();
      empties.FirmwareReads();
    }

    /** The handler of a queue's cause. `visible` is what its ring shows when the handler looks. */
    method ServeQueue(c: Cause, weight: nat) returns (processed: nat, ghost visible: nat)
      requires Apart() && ChannelsValid() && IsQueue(c)
      modifies ChannelOf(c).repr
      ensures ChannelsValid() && Dues() == old(Dues()) && Below(old(Now()), Now())
      ensures visible >= old(ChannelOf(c).Pending()) && processed == Processed(visible, weight)
      ensures |ChannelOf(c).ring.items| == old(|ChannelOf(c).ring.items|) + processed
      ensures ChannelOf(c).served == old(ChannelOf(c).served) + [Take(visible, processed)]
      ensures c != EmptyBufferQueue ==> SameTaken(returned, old(returned.ring.items), old(returned.served))
      ensures c != DataCommandQueue ==> SameTaken(commands, old(commands.ring.items), old(commands.served))
      ensures c != DataQueue1 ==> SameTaken(data1, old(data1.ring.items), old(data1.served))
    {
      hide Channel.Valid;
      returned.Members();
      commands.Members();
      data1.Members();
      processed, visible := ChannelOf(c).Serve(weight);
    }

    /** The empty-buffer ring after a refill: full as of `seen`, or up to the first attempt that failed. */
    ghost predicate Refilled(before: seq<Framing.H2nDesc>, refill: nat, seen: nat)
      reads empties
    {
      && before <= empties.history && seen <= |empties.delivered| && seen + empties.size - 1 >= |before|
      && H2nRing.FirstFailure(|empties.history| - |before|, mode, world(refill), seen + empties.size - 1 - |before|)
      && empties.txEmpty == refill + 1
    }

    /** The handler of the other causes: refill the empty buffers, or let senders go on. */
    method ServeNonQueue(c: Cause) returns (ghost seen: nat)
      requires empties != data0 && empties.Valid() && heap.Valid()
      modifies empties, empties.desc, heap, data0`txStopped
      ensures empties.Valid() && heap.Valid() && old(empties.delivered) <= empties.delivered
      ensures if c == EmptyBuffersSos
              then seen >= |old(empties.delivered)| && Refilled(old(empties.history), old(empties.txEmpty), seen)
              else empties.history == old(empties.history) && empties.txEmpty == old(empties.txEmpty)
      ensures data0.txStopped == (old(data0.txStopped) && c != TxUnblocked)
    {
      seen := 0;
      if c == EmptyBuffersSos {
        var filled; ghost var added;
        filled, seen, added := empties.Refill(mode, pad, heap, world(empties.txEmpty));
      } else if c == TxUnblocked {
        data0.Unblock();
      }
    }

    /** The bookkeeping of a turn. */
    method Record(p: Choice, weight: nat, processed: nat, ghost visible: nat)
      requires ctx.Valid() && ctx.cause != {} && p == Prioritized(ctx.cause)
      requires p.kind == Queue ==> processed == Processed(visible, weight)
      modifies ctx`cause, ctx`log
      ensures ctx.Valid()
      ensures ctx.cause == if p.kind == Queue && processed >= weight then old(ctx.cause) else old(ctx.cause) - {p.cause}
      ensures ctx.log == old(ctx.log) + [Served(p.cause, visible, processed, ctx.cause != old(ctx.cause))]
      ensures forall c :: Turns(ctx.log, c)
                == if c == p.cause then old(Turns(ctx.log, c)) + [Take(visible, processed)] else old(Turns(ctx.log, c))
    {
      hide Owed, GoodRecord, AllKnown, Prioritized, Rank, Turns;
      ghost var log := ctx.log;
      ctx.Settle(p, weight, processed, visible);
      forall c
        ensures Turns(ctx.log, c) == if c == p.cause then Turns(log, c) + [Take(visible, processed)] else Turns(log, c)
      {
        TurnsAppend(log, Served(p.cause, visible, processed, ctx.cause != old(ctx.cause)), c);
      }
    }

    /** One turn for a queue: it gives up what its ring shows, up to its weight within the budget. */
    method QueueTurn(p: Choice, weight: nat) returns (processed: nat, ghost visible: nat)
      requires Valid() && ctx.cause != {} && p == Prioritized(ctx.cause) && p.kind == Queue && IsQueue(p.cause)
      modifies ctx`cause, ctx`log, ChannelOf(p.cause).repr
      ensures Valid() && Dues() == old(Dues()) && Below(old(Now()), Now())
      ensures empties.history == old(empties.history) && unchanged(ctx`status, ctx`readings, ctx`enabled)
      ensures visible >= old(ChannelOf(p.cause).Pending()) && processed == Processed(visible, weight)
      ensures |ChannelOf(p.cause).ring.items| == old(|ChannelOf(p.cause).ring.items|) + processed
      ensures ctx.cause == if processed >= weight then old(ctx.cause) else old(ctx.cause) - {p.cause}
      ensures ctx.log == old(ctx.log) + [Served(p.cause, visible, processed, ctx.cause != old(ctx.cause))]
    {
      hide Channel.Valid, H2nRing.Valid, BufferHeap.Valid, IntCtx.Valid, Prioritized, Turns, NssCore.Starved;
      ChannelOf(p.cause).Members();
      processed, visible := ServeQueue(p.cause, weight);
      Record(p, weight, processed, visible);
    }

    /** One turn for another cause. */
    method OtherTurn(p: Choice, weight: nat) returns (ghost seen: nat)
      requires Valid() && ctx.cause != {} && p == Prioritized(ctx.cause) && p.kind != Queue && !IsQueue(p.cause)
      modifies ctx`cause, ctx`log, empties, empties.desc, heap, data0`txStopped
      ensures Valid() && Dues() == old(Dues()) && Below(old(Now()), Now())
      ensures unchanged(ctx`status, ctx`readings, ctx`enabled)
      ensures ctx.cause == old(ctx.cause) - {p.cause}
      ensures ctx.log == old(ctx.log) + [Served(p.cause, 0, 0, ctx.cause != old(ctx.cause))]
      ensures if p.cause == EmptyBuffersSos
              then seen >= |old(empties.delivered)| && Refilled(old(empties.history), old(empties.txEmpty), seen)
              else empties.history == old(empties.history) && empties.txEmpty == old(empties.txEmpty)
      ensures data0.txStopped == (old(data0.txStopped) && p.cause != TxUnblocked)
    {
      hide Channel.Valid, H2nRing.Valid, BufferHeap.Valid, IntCtx.Valid, Prioritized, Turns;
      seen := ServeNonQueue(p.cause);
      Record(p, weight, 0, 0);
    }

    lemma Separate()
      requires Valid()
      ensures Apart() && returned in returned.repr && commands in commands.repr && data1 in data1.repr
    {
    }

    lemma CauseKnown()
      requires Valid() && ctx.cause != {}
      ensures var p := Prioritized(ctx.cause);
              p.kind != Invalid && (p.kind == Queue <==> IsQueue(p.cause))
    {
      KnownIsValid(ctx.cause);
    }

    /** The room-in-the-ring cause, once asked for, is pending or senders may go on. */
    ghost predicate SendersGoOn(asked: set<Cause>)
      reads ctx, data0
    {
      TxUnblocked in asked ==> TxUnblocked in ctx.cause || !data0.txStopped
    }

    /** The most urgent cause is served, within the budget. */
    method Dispatch(budget: nat) returns (processed: nat, ghost c: Cause, ghost visible: nat)
      requires Valid() && ctx.cause != {} && budget > 0
      modifies ctx`cause, ctx`log, returned.repr, commands.repr, data1.repr
      modifies empties, empties.desc, heap, data0`txStopped
      ensures Valid() && processed <= budget && c == Prioritized(old(ctx.cause)).cause
      ensures unchanged(ctx`status, ctx`readings, ctx`enabled)
      ensures TakeTurn(old(ctx.cause), budget, visible) == Turn(ctx.cause, budget - processed, processed)
      ensures ctx.log == old(ctx.log) + [Served(c, visible, processed, ctx.cause != old(ctx.cause))]
      ensures IsQueue(c) ==> visible >= old(ChannelOf(c).Pending())
      ensures IsQueue(c) ==> |ChannelOf(c).ring.items| == old(|ChannelOf(c).ring.items|) + processed
      ensures empties.txEmpty == old(empties.txEmpty) + if c == EmptyBuffersSos then 1 else 0
      ensures data0.txStopped == (old(data0.txStopped) && c != TxUnblocked)
      ensures Dues() == old(Dues()) && Below(old(Now()), Now())
    {
      hide NssCore.Valid, Prioritized, H2nRing.FirstFailure, NssCore.Dues, NssCore.Now;
      Separate();
      var p := Prioritized(ctx.cause);
      CauseKnown();
      c := p.cause;
      var weight := if budget < p.weight then budget else p.weight;
      processed, visible := 0, 0;
      if p.kind == Queue {
        processed, visible := QueueTurn(p, weight);
      } else {
        ghost var seen := OtherTurn(p, weight);
      }
    }

    /** One turn of the inner loop, after the firmware had its time. */
    method ServeOne(budget: nat) returns (processed: nat, ghost c: Cause, ghost visible: nat)
      requires Valid() && ctx.cause != {} && budget > 0
      modifies ctx`cause, ctx`log, returned.repr, commands.repr, data1.repr
      modifies empties, empties.desc, heap, data0`txStopped
      ensures Valid() && processed <= budget && c == Prioritized(old(ctx.cause)).cause
      ensures unchanged(ctx`status, ctx`readings, ctx`enabled)
      ensures TakeTurn(old(ctx.cause), budget, visible) == Turn(ctx.cause, budget - processed, processed)
      ensures ctx.log == old(ctx.log) + [Served(c, visible, processed, ctx.cause != old(ctx.cause))]
      ensures IsQueue(c) ==> visible >= old(ChannelOf(c).Pending())
      ensures IsQueue(c) ==> |ChannelOf(c).ring.items| == old(|ChannelOf(c).ring.items|) + processed
      ensures empties.txEmpty == old(empties.txEmpty) + if c == EmptyBuffersSos then 1 else 0
      ensures data0.txStopped == (old(data0.txStopped) && c != TxUnblocked)
      ensures Dues() == old(Dues()) && Below(old(Now()), Now())
    {
      hide NssCore.Valid, Prioritized, TakeTurn, NssCore.Dues;
      Separate();
      FirmwareSteps();
      processed, c, visible := Dispatch(budget);
    }

    lemma Bookkept()
      requires Valid()
      ensures Taken() == Work(ctx.log) && ctx.readings == Readings(ctx.log) && ctx.cause == Owed(ctx.log)
      ensures Below(Dues(), Now())
    {
      hide Channel.Valid, H2nRing.Valid, Readings, Owed, Turns, Total, NssCore.Starved;
      returned.Members();
      commands.Members();
      data1.Members();
    }

    lemma SomeKnown()
      requires Valid() && ctx.cause != {}
      ensures exists c :: c in ctx.cause && !c.Unknown?
    {
    }

    /** The inner loop: serve until nothing is pending or the budget is spent. */
    method ServePending(budget: nat, ghost asked: set<Cause>) returns (total: nat)
      requires Valid() && budget > 0 && SendersGoOn(asked)
      modifies ctx`cause, ctx`log, returned.repr, commands.repr, data1.repr
      modifies empties, empties.desc, heap, data0`txStopped
      ensures Valid() && total <= budget && Work(ctx.log) == old(Work(ctx.log)) + total
      ensures unchanged(ctx`status, ctx`readings, ctx`enabled) && old(ctx.log) <= ctx.log
      ensures total < budget <==> ctx.cause == {}
      ensures Dues() == old(Dues()) && Below(old(Now()), Now()) && SendersGoOn(asked)
    {
      hide NssCore.Valid, NssCore.Dues, NssCore.Now, Prioritized, TakeTurn, Work;
      var left: nat := budget;
      while ctx.cause != {} && left > 0
        invariant Valid() && left <= budget && Work(ctx.log) == old(Work(ctx.log)) + budget - left
        invariant old(ctx.log) <= ctx.log && unchanged(ctx`status, ctx`readings, ctx`enabled)
        invariant Dues() == old(Dues()) && Below(old(Now()), Now()) && SendersGoOn(asked)
        invariant left == 0 ==> ctx.cause != {}
        decreases left, ctx.cause
      {
        ghost var cause, log := ctx.cause, ctx.log;
        SomeKnown();
        var processed, c, visible := ServeOne(left);
        ProgressIffKnown(cause, left, visible);
        SpentTurnKeeps(cause, left, visible);
        OnlyTheServedGoes(cause, left, visible);
        WorkAppend(log, Served(c, visible, processed, ctx.cause != cause));
        left := left - processed;
      }
      total := budget - left;
    }

    /** Reads the status register. Everything then there is due for the causes then pending. */
    method ReadRegister()
      requires Valid()
      modifies ctx`cause, ctx`status, ctx`readings, ctx`log
      modifies returned`due, commands`due, data1`due, this`wanted, this`wantedFrom
      ensures Valid() && Work(ctx.log) == old(Work(ctx.log))
      ensures ctx.cause == old(ctx.cause) + NextBits(old(ctx.status)) && ctx.status == Rest(old(ctx.status))
      ensures ctx.readings == old(ctx.readings) + [NextBits(old(ctx.status))]
      ensures ctx.log == old(ctx.log) + [Raised(NextBits(old(ctx.status)))]
      ensures Now() == old(Now()) && Dues() == Renewed(old(Dues()), ctx.cause, Now())
    {
      hide Channel.Valid, H2nRing.Valid, BufferHeap.Valid, IntCtx.Valid, Turns, Total;
      returned.Members();
      commands.Members();
      data1.Members();
      ghost var log, e := ctx.log, Raised(NextBits(ctx.status));
      TurnsAppend(log, e, EmptyBuffersSos);
      TurnsAppend(log, e, EmptyBufferQueue);
      TurnsAppend(log, e, DataCommandQueue);
      TurnsAppend(log, e, DataQueue1);
      ctx.ReadCause();
      NoteDues();
    }

    lemma Distinct()
      requires Apart() && ChannelsValid()
      ensures returned !in commands.repr && returned !in data1.repr && commands !in returned.repr
      ensures commands !in data1.repr && data1 !in returned.repr && data1 !in commands.repr
      ensures returned != commands && returned != data1 && commands != data1
      ensures this !in returned.repr && this !in commands.repr && this !in data1.repr
    {
      hide Channel.Valid;
      returned.Members();
      commands.Members();
      data1.Members();
    }

    /** What is due from now on. */
    ghost method NoteDues()
      requires Apart() && ChannelsValid()
      modifies returned`due, commands`due, data1`due, this`wanted, this`wantedFrom
      ensures ChannelsValid() && Dues() == Renewed(old(Dues()), ctx.cause, Now())
    {
      hide Channel.Valid, NssCore.Apart;
      Distinct();
      returned.Mark(EmptyBufferQueue in ctx.cause);
      commands.Mark(DataCommandQueue in ctx.cause);
      data1.Mark(DataQueue1 in ctx.cause);
      if EmptyBuffersSos in ctx.cause {
        wanted := |empties.delivered| + empties.size - 1;
        wantedFrom := empties.txEmpty;
      }
    }

    /** The same after the firmware had its time. */
    method ReadCause()
      requires Valid()
      modifies this`wanted, this`wantedFrom, ctx`cause, ctx`status, ctx`readings, ctx`log
      modifies returned.repr, commands.repr, data1.repr, empties`nssIndex, empties`delivered
      ensures Valid() && Work(ctx.log) == old(Work(ctx.log))
      ensures ctx.cause == old(ctx.cause) + NextBits(old(ctx.status)) && ctx.status == Rest(old(ctx.status))
      ensures ctx.readings == old(ctx.readings) + [NextBits(old(ctx.status))]
      ensures ctx.log == old(ctx.log) + [Raised(NextBits(old(ctx.status)))]
      ensures Below(old(Now()), Now()) && Dues() == Renewed(old(Dues()), ctx.cause, Now())
    {
      hide NssCore.Valid, NssCore.Dues, NssCore.Now, Channel.Valid, Work;
      Separate();
      FirmwareSteps();
      ReadRegister();
    }

    /** The do-while loop around the inner one, reading the status register again after each pass. */
    method Repeat(budget: nat, ghost before: set<Cause>, ghost m: Marks)
      returns (left: nat, ghost k: nat, ghost asked: set<Cause>)
      requires Valid() && budget > 0
      requires Covers(Dues(), before, m) && Below(m, Now()) && SendersGoOn(before)
      modifies this`wanted, this`wantedFrom, ctx`cause, ctx`status, ctx`readings, ctx`log
      modifies returned.repr, commands.repr, data1.repr, empties, empties.desc, heap, data0`txStopped
      ensures Valid() && left <= budget && Work(ctx.log) == old(Work(ctx.log)) + budget - left
      ensures old(ctx.log) <= ctx.log && ctx.log != [] && ctx.log[|ctx.log| - 1].Raised?
      ensures left > 0 <==> ctx.cause == {}
      ensures unchanged(ctx`enabled)
      ensures k > 0 && ctx.readings == old(ctx.readings) + Supply(old(ctx.status), k)
      ensures ctx.status == After(old(ctx.status), k)
      ensures asked == before + Bits(Supply(old(ctx.status), k))
      ensures Covers(Dues(), asked, m) && Below(m, Now()) && SendersGoOn(asked)
    {
      hide NssCore.Valid, NssCore.Dues, NssCore.Now, Work, Supply, After, Bits, Covers, Renewed, Below;
      left, k, asked := budget, 0, before;
      SupplyNone(ctx.status);
      NoBits(before);
      Separate();
      var again := true;
      while again
        invariant Valid() && left <= budget && Work(ctx.log) == old(Work(ctx.log)) + budget - left
        invariant old(ctx.log) <= ctx.log && unchanged(ctx`enabled)
        invariant ctx.readings == old(ctx.readings) + Supply(old(ctx.status), k)
        invariant ctx.status == After(old(ctx.status), k)
        invariant asked == before + Bits(Supply(old(ctx.status), k))
        invariant Covers(Dues(), asked, m) && Below(m, Now()) && SendersGoOn(asked)
        invariant again ==> left > 0
        invariant !again ==> k > 0 && ctx.log != [] && ctx.log[|ctx.log| - 1].Raised? && (left > 0 <==> ctx.cause == {})
        decreases again, |ctx.status|
      {
        SupplyStep(old(ctx.status), k);
        BitsAppend(Supply(old(ctx.status), k), NextBits(ctx.status));
        var done := Pass(left, asked, m);
        left := left - done;
        k, asked := k + 1, asked + NextBits(After(old(ctx.status), k));
        again := ctx.cause != {} && left > 0;
      }
    }

    /** One pass of the outer loop. */
    method Pass(budget: nat, ghost asked: set<Cause>, ghost m: Marks) returns (total: nat)
      requires Valid() && budget > 0
      requires Covers(Dues(), asked, m) && Below(m, Now()) && SendersGoOn(asked)
      modifies this`wanted, this`wantedFrom, ctx`cause, ctx`status, ctx`readings, ctx`log
      modifies returned.repr, commands.repr, data1.repr, empties, empties.desc, heap, data0`txStopped
      ensures Valid() && total <= budget && Work(ctx.log) == old(Work(ctx.log)) + total
      ensures old(ctx.log) <= ctx.log && ctx.log != [] && ctx.log[|ctx.log| - 1].Raised? && unchanged(ctx`enabled)
      ensures total == budget ==> ctx.cause != {}
      ensures total < budget ==> ctx.cause == NextBits(old(ctx.status))
      ensures ctx.readings == old(ctx.readings) + [NextBits(old(ctx.status))] && ctx.status == Rest(old(ctx.status))
      ensures Covers(Dues(), asked + NextBits(old(ctx.status)), m) && Below(m, Now())
      ensures SendersGoOn(asked + NextBits(old(ctx.status)))
    {
      hide NssCore.Valid, NssCore.Dues, NssCore.Now, Work, Covers, Renewed, Below;
      Separate();
      ghost var start, dues := Now(), Dues();
      total := ServePending(budget, asked);
      ghost var mid := Now();
      BelowTrans(m, start, mid);
      Bookkept();
      ReadCause();
      BelowTrans(m, mid, Now());
      BelowTrans(dues, mid, Now());
      RenewedCovers(dues, asked, ctx.log[|ctx.log| - 1].causes, ctx.cause, m, Now());
    }

    /** Of the `k` values read since the record was `log`, every bit is pending or was cleared by a handler. */
    lemma NoBitForgotten(log: seq<Napi.Event>, status: seq<set<Cause>>, k: nat)
      requires Valid() && log <= ctx.log && ctx.readings == Readings(log) + Supply(status, k)
      ensures forall i, c :: 0 <= i < k && i < |status| && c in status[i] ==>
                c in ctx.cause || ClearedSince(ctx.log, |log|, c)
    {
      hide NssCore.Valid, Readings, Owed, ClearedSince;
      Bookkept();
      forall i, c | 0 <= i < k && i < |status| && c in status[i]
        ensures c in ctx.cause || ClearedSince(ctx.log, |log|, c)
      {
        SuppliedNotForgotten(log, ctx.log, status, k, i, c);
      }
    }

    /**
     Every cause that was asked for is pending, or what was there at `m` has been done: its ring was
     emptied that far, the empty buffers were filled as far as the firmware had read (or an allocation
     or mapping failed since), senders may go on.
     */
    ghost predicate Answered(asked: set<Cause>, m: Marks)
      reads ctx, returned.ring, commands.ring, data1.ring, empties, data0
    {
      && (EmptyBufferQueue in asked ==> EmptyBufferQueue in ctx.cause || |returned.ring.items| >= m.returned)
      && (DataCommandQueue in asked ==> DataCommandQueue in ctx.cause || |commands.ring.items| >= m.commands)
      && (DataQueue1 in asked ==> DataQueue1 in ctx.cause || |data1.ring.items| >= m.data1)
      && (EmptyBuffersSos in asked ==>
            EmptyBuffersSos in ctx.cause || |empties.history| >= m.empties || Starved(m.refills))
      && SendersGoOn(asked)
    }

    lemma DueIsDone(asked: set<Cause>, m: Marks)
      requires Valid() && Covers(Dues(), asked, m) && SendersGoOn(asked)
      ensures Answered(asked, m)
    {
      hide Channel.Valid, H2nRing.Valid, BufferHeap.Valid, IntCtx.Valid, Turns, Total;
    }

    /**
     nss_core_handle_napi. `total` is the work done, which the source counts in an int16_t;
     `completed` is whether napi_complete ran and the interrupt was enabled again; `k` is how often
     the status register was read.
     */
    method HandleNapi(budget: nat) returns (count: int, ghost total: nat, completed: bool, ghost k: nat)
      requires Valid() && budget > 0
      modifies this`wanted, this`wantedFrom, ctx, returned.repr, commands.repr, data1.repr
      modifies empties, empties.desc, heap, data0`txStopped
      ensures Valid() && total <= budget
      ensures Taken() == old(Taken()) + total
      ensures count == I16(total) && (budget <= 0x7FFF ==> count == total)
      ensures completed <==> total < budget
      ensures completed <==> ctx.cause == {}
      ensures ctx.enabled == (completed || old(ctx.enabled))
      // the register is read first, and again after the last handler
      ensures k >= 2 && ctx.readings == old(ctx.readings) + Supply(old(ctx.status), k)
      ensures ctx.status == After(old(ctx.status), k)
      ensures old(ctx.log) + [Raised(NextBits(old(ctx.status)))] <= ctx.log && ctx.log[|ctx.log| - 1].Raised?
      // no bit that it yielded is forgotten
      ensures forall i, c :: 0 <= i < k && i < |old(ctx.status)| && c in old(ctx.status)[i] ==>
                c in ctx.cause || ClearedSince(ctx.log, |old(ctx.log)|, c)
      // and what a bit stood for when the poll began is done, unless the bit is pending
      ensures Answered(old(ctx.cause) + Bits(Supply(old(ctx.status), k)), old(Now()))
    {
      hide NssCore.Valid, NssCore.Dues, NssCore.Now, Work, Supply, After, Readings, Owed, ClearedSince,
           Covers, Renewed, Below, Bits, NssCore.Answered, Channel.Valid;
      Separate();
      Bookkept();
      ghost var status, log, m, asked := ctx.status, ctx.log, Now(), ctx.cause + NextBits(ctx.status);
      SupplyNone(status);
      SupplyStep(status, 0);
      First(m);
      var left; ghost var all;
      left, k, all := Repeat(budget, asked, m);
      SupplyMore(status, k);
      BitsPrepend(Supply(Rest(status), k), NextBits(status));
      k := k + 1;
      total := budget - left;
      count := I16(budget - left);
      completed := ctx.cause == {};
      Bookkept();
      NoBitForgotten(log, status, k);
      assert all == old(ctx.cause) + Bits(Supply(status, k));
      DueIsDone(all, m);
      if completed {
        Complete(all, m);
      }
    }

    /** The first read of a poll: everything pending is due as it stands. */
    method First(ghost m: Marks)
      requires Valid() && m == Now()
      modifies this`wanted, this`wantedFrom, ctx`cause, ctx`status, ctx`readings, ctx`log
      modifies returned.repr, commands.repr, data1.repr, empties`nssIndex, empties`delivered
      ensures Valid() && Work(ctx.log) == old(Work(ctx.log))
      ensures ctx.cause == old(ctx.cause) + NextBits(old(ctx.status)) && ctx.status == Rest(old(ctx.status))
      ensures ctx.readings == old(ctx.readings) + [NextBits(old(ctx.status))]
      ensures ctx.log == old(ctx.log) + [Raised(NextBits(old(ctx.status)))]
      ensures Covers(Dues(), ctx.cause, m) && Below(m, Now()) && SendersGoOn(ctx.cause)
    {
      hide NssCore.Valid, NssCore.Dues, NssCore.Now, Work, Renewed, Below;
      ghost var dues := Dues();
      Bookkept();
      ReadCause();
      BelowTrans(dues, m, Now());
      RenewedCovers(dues, {}, ctx.cause, ctx.cause, m, Now());
      assert {} + ctx.cause == ctx.cause;
    }

    /** napi_complete, and the interrupt is enabled again. */
    method Complete(ghost asked: set<Cause>, ghost m: Marks)
      requires Valid() && Answered(asked, m)
      modifies ctx`enabled
      ensures Valid() && ctx.enabled && Taken() == old(Taken()) && Answered(asked, m)
    {
      hide Channel.Valid, H2nRing.Valid, BufferHeap.Valid, Owed, GoodRecord, AllKnown, Turns, Total;
      ctx.enabled := true;
    }
  }

  /** Among known causes there is one to serve, and only queues are served as queues. */
  lemma KnownIsValid(cause: set<Cause>)
    requires cause != {} && forall c :: c in cause ==> !c.Unknown?
    ensures var p := Prioritized(cause);
            p.kind != Invalid && (p.kind == Queue <==> IsQueue(p.cause))
  {
    PrioritizedIsMostUrgent(cause);
  }
}
