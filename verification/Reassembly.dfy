/**
 The frame reassembly of the firmware-to-host path, told on values: what one descriptor
 does to the open chains, what a whole stream of descriptors delivers, and where every
 socket buffer ends up.
 */
module Reassembly {

  /** A page fragment of a socket buffer. */
  datatype Frag = Frag(page: nat, offs: nat, size: nat)

  /** struct sk_buff, as far as the receive path touches it. */
  class SkBuff {
    var dataOffs: nat
    var len: nat
    var dataLen: nat
    var truesize: nat
    var next: SkBuff?
    var fragList: SkBuff?
    var frags: seq<Frag>

    constructor () {
      dataOffs, len, dataLen, truesize := 0, 0, 0, 0;
      next, fragList := null, null;
      frags := [];
    }
  }

  /** A 32-bit opaque value: the address of a socket buffer, or anything that is not one. */
  datatype Cookie = SkbAddress(skb: SkBuff) | Other(value: nat)

  const BUFFER_EMPTY: nat := 1
  const BUFFER_PACKET: nat := 3
  const BUFFER_COMMAND_RESP: nat := 5
  const BUFFER_STATUS: nat := 6
  const BUFFER_CRYPTO_RESP: nat := 8
  const BUFFER_PACKET_VIRTUAL: nat := 10
  const BUFFER_BOUNCED_INTERFACE: nat := 11
  const BUFFER_BOUNCED_BRIDGE: nat := 12
  const BUFFER_PACKET_EXT: nat := 13

  /** One descriptor together with what the host finds in the buffer it names. */
  datatype Item =
    | CryptoResp(cookie: Cookie, buffer: nat, cryptoLen: nat)
    | BadPointer
    // an empty buffer coming back, or a shaper bounce
    | Lone(skb: SkBuff, bufferType: nat)
    // a piece of a frame; `pullable` is whether the Ethernet header can be pulled
    | Piece(paged: bool, skb: SkBuff, bufferType: nat, first: bool, last: bool, len: nat, offs: nat,
            frags: seq<Frag>, truesize: nat, chained: bool, pullable: bool)

  /** The frames under construction: `head` (linear pieces) and `jumbo_start` (paged pieces). */
  datatype Asm = Asm(head: seq<Item>, jumbo: seq<Item>)

  datatype Event =
    | CryptoDone(cookie: Cookie, buffer: nat, cryptoLen: nat)
    | RxLone(skb: SkBuff, bufferType: nat)
    | Rx(frame: seq<Item>, bufferType: nat)
    | Freed(skbs: seq<SkBuff>)

  datatype Outcome = Outcome(asm: Asm, events: seq<Event>)

  /** The buffers of a frame that the host still owns: a paged frame keeps only its first. */
  function Owned(frame: seq<Item>): seq<SkBuff>
    requires forall i :: 0 <= i < |frame| ==> frame[i].Piece?
  {
    if frame == [] then []
    else if frame[0].paged then [frame[0].skb]
    else Buffers(frame)
  }

  function Buffers(frame: seq<Item>): (b: seq<SkBuff>)
    requires forall i :: 0 <= i < |frame| ==> frame[i].Piece?
    ensures |b| == |frame|
    ensures forall i :: 0 <= i < |b| ==> b[i] == frame[i].skb
  {
    if frame == [] then [] else Buffers(frame[..|frame| - 1]) + [frame[|frame| - 1].skb]
  }

  /** Only pieces of one kind go into a chain. */
  ghost predicate Uniform(frame: seq<Item>, paged: bool) {
    forall i :: 0 <= i < |frame| ==> frame[i].Piece? && frame[i].paged == paged
  }

  ghost predicate Sound(s: Asm) {
    && Uniform(s.head, false) && Uniform(s.jumbo, true)
    && (s.head == [] || s.jumbo == [])
  }

  function Drop(frame: seq<Item>): seq<Event>
    requires forall i :: 0 <= i < |frame| ==> frame[i].Piece?
  {
    if frame == [] then [] else [Freed(Owned(frame))]
  }

  /** A paged frame is complete; it still has to yield its Ethernet header. */
  function DeliverPaged(frame: seq<Item>, x: Item): seq<Event>
    requires forall i :: 0 <= i < |frame| ==> frame[i].Piece?
    requires x.Piece?
  {
    if x.bufferType != BUFFER_STATUS && !x.pullable then [Freed(Owned(frame))] else [Rx(frame, x.bufferType)]
  }

  /** nss_core_handle_nr_frag_skb */
  function StepPaged(jumbo: seq<Item>, x: Item): (o: Outcome)
    requires Uniform(jumbo, true) && x.Piece? && x.paged
    ensures Sound(o.asm) && o.asm.head == []
  {
    if x.first && x.last then Outcome(Asm([], []), Drop(jumbo) + DeliverPaged([x], x))
    else if x.first then Outcome(Asm([], [x]), Drop(jumbo))
    else if jumbo == [] then Outcome(Asm([], []), [Freed([x.skb])])
    else if x.last then Outcome(Asm([], []), [Freed([x.skb])] + DeliverPaged(jumbo + [x], x))
    else Outcome(Asm([], jumbo + [x]), [Freed([x.skb])])
  }

  /** nss_core_handle_linear_skb; a first piece that already is a chain frees the open one but leaves it open. */
  function StepLinear(head: seq<Item>, x: Item): (o: Outcome)
    requires Uniform(head, false) && x.Piece? && !x.paged
    ensures Sound(o.asm) && o.asm.jumbo == []
  {
    if x.first && x.last then Outcome(Asm([], []), Drop(head) + [Rx([x], x.bufferType)])
    else if x.first then
      if x.chained then Outcome(Asm(head, []), Drop(head) + [Freed([x.skb])])
      else Outcome(Asm([x], []), Drop(head))
    else if head == [] then Outcome(Asm([], []), [Freed([x.skb])])
    else if x.last then Outcome(Asm([], []), [Rx(head + [x], x.bufferType)])
    else Outcome(Asm(head + [x], []), [])
  }

  /** One turn of the loop in nss_core_handle_cause_queue. */
  function Step(s: Asm, x: Item): (o: Outcome)
    requires Sound(s)
    ensures Sound(o.asm)
  {
    match x
    case CryptoResp(cookie, buffer, len) => Outcome(s, [CryptoDone(cookie, buffer, len)])
    case BadPointer => Outcome(s, [])
    case Lone(skb, bufferType) => Outcome(s, [RxLone(skb, bufferType)])
    case Piece(paged, _, _, _, _, _, _, _, _, _, _) =>
      if paged then
        var o := StepPaged(s.jumbo, x);
        Outcome(o.asm, Drop(s.head) + o.events)
      else
        var o := StepLinear(s.head, x);
        Outcome(o.asm, Drop(s.jumbo) + o.events)
  }

  /** The whole history of a ring: start with nothing open and take the items one by one. */
  function Run(xs: seq<Item>): (o: Outcome)
    ensures Sound(o.asm)
  {
    if xs == [] then Outcome(Asm([], []), [])
    else
      var before := Run(xs[..|xs| - 1]);
      var o := Step(before.asm, xs[|xs| - 1]);
      Outcome(o.asm, before.events + o.events)
  }

  lemma RunAppend(xs: seq<Item>, x: Item)
    ensures var o := Step(Run(xs).asm, x);
            Run(xs + [x]) == Outcome(o.asm, Run(xs).events + o.events)
  {
    assert (xs + [x])[..|xs|] == xs;
  }

  /** Continuing from a given state with more items. */
  function Resume(s: Asm, xs: seq<Item>): (o: Outcome)
    requires Sound(s)
    ensures Sound(o.asm)
  {
    if xs == [] then Outcome(s, [])
    else
      var before := Resume(s, xs[..|xs| - 1]);
      var o := Step(before.asm, xs[|xs| - 1]);
      Outcome(o.asm, before.events + o.events)
  }

  function Flatten(batches: seq<seq<Item>>): seq<Item> {
    if batches == [] then [] else Flatten(batches[..|batches| - 1]) + batches[|batches| - 1]
  }

  /** The same, but only the open chains survive from one batch to the next. */
  function RunBatches(batches: seq<seq<Item>>): (o: Outcome)
    ensures Sound(o.asm)
  {
    if batches == [] then Outcome(Asm([], []), [])
    else
      var before := RunBatches(batches[..|batches| - 1]);
      var o := Resume(before.asm, batches[|batches| - 1]);
      Outcome(o.asm, before.events + o.events)
  }

  lemma EventsAssociate(a: seq<Event>, b: seq<Event>, c: seq<Event>)
    ensures (a + b) + c == a + (b + c)
  {
  }

  lemma {:induction false} RunConcat(xs: seq<Item>, ys: seq<Item>)
    ensures var o := Resume(Run(xs).asm, ys);
            Run(xs + ys) == Outcome(o.asm, Run(xs).events + o.events)
  {
    hide Step;
    if ys == [] {
      assert xs + ys == xs;
    } else {
      var init, y := ys[..|ys| - 1], ys[|ys| - 1];
      RunConcat(xs, init);
      assert xs + ys == (xs + init) + [y];
      RunAppend(xs + init, y);
      var mid := Resume(Run(xs).asm, init);
      EventsAssociate(Run(xs).events, mid.events, Step(mid.asm, y).events);
    }
  }

  /** However polling cuts the stream into batches, the frames and the final state are the same. */
  lemma {:induction false} BatchingIrrelevant(batches: seq<seq<Item>>)
    ensures RunBatches(batches) == Run(Flatten(batches))
  {
    if batches != [] {
      var init := batches[..|batches| - 1];
      BatchingIrrelevant(init);
      RunConcat(Flatten(init), batches[|batches| - 1]);
    }
  }

  // ---------------------------------------------------------------- the declarative reading

  /** A first piece of a longer linear frame that comes with a frag_list of its own; the driver refuses it. */
  predicate Nested(x: Item) {
    x.Piece? && !x.paged && x.first && !x.last && x.chained
  }

  /** The pieces that can be part of a frame. */
  function Pieces(xs: seq<Item>): (p: seq<Item>)
    ensures forall i :: 0 <= i < |p| ==> p[i].Piece?
  {
    if xs == [] then []
    else
      var p, x := Pieces(xs[..|xs| - 1]), xs[|xs| - 1];
      if x.Piece? && !Nested(x) then p + [x] else p
  }

  lemma PiecesAppend(xs: seq<Item>, x: Item)
    ensures Pieces(xs + [x]) == Pieces(xs) + if x.Piece? && !Nested(x) then [x] else []
  {
    assert (xs + [x])[..|xs|] == xs;
  }

  predicate Opens(x: Item) {
    x.Piece? && x.first && !x.last && !Nested(x)
  }

  /** What leaves a frame open: its own later pieces, and for a linear frame also refused first pieces. */
  predicate Continues(x: Item, paged: bool) {
    x.Piece? ==> if Nested(x) then !paged else x.paged == paged && !x.first && !x.last
  }

  /** A frame was opened at position `i` of the stream and nothing has closed or broken it since. */
  ghost predicate OpenAt(xs: seq<Item>, i: nat, paged: bool) {
    && i < |xs| && Opens(xs[i]) && xs[i].paged == paged
    && forall m :: i < m < |xs| ==> Continues(xs[m], paged)
  }

  function Open(frame: seq<Item>, paged: bool): Asm {
    if paged then Asm([], frame) else Asm(frame, [])
  }

  /** The state of the automaton is the frame the stream leaves open. */
  lemma {:induction false} OpenFrameHeld(xs: seq<Item>, i: nat, paged: bool)
    requires OpenAt(xs, i, paged)
    ensures Run(xs).asm == Open(Pieces(xs[i..]), paged)
  {
    hide Step, Run, Open, Pieces;
    var init, x := xs[..|xs| - 1], xs[|xs| - 1];
    assert xs == init + [x];
    assert xs[i..] == init[i..] + [x];
    PiecesAppend(init[i..], x);
    RunAppend(init, x);
    if i < |init| {
      assert forall m :: i < m < |init| ==> init[m] == xs[m];
      OpenFrameHeld(init, i, paged);
      PiecesNonEmpty(init[i..]);
      StepContinues(Run(init).asm, Pieces(init[i..]), x, paged);
    } else {
      assert init[i..] == [];
      NoPieces();
      assert [] + [x] == [x];
      StepOpens(Run(init).asm, x, paged);
    }
  }

  lemma NoPieces()
    ensures Pieces([]) == []
  {
  }

  /** A first piece leaves itself open. */
  lemma StepOpens(s: Asm, x: Item, paged: bool)
    requires Sound(s) && Opens(x) && x.paged == paged
    ensures Step(s, x).asm == Open([x], paged)
  {
  }

  /** Anything that does not close or break the open frame either leaves it alone or extends it. */
  lemma StepContinues(s: Asm, frame: seq<Item>, x: Item, paged: bool)
    requires Sound(s) && frame != [] && s == Open(frame, paged)
    requires Continues(x, paged)
    ensures Step(s, x).asm == Open(frame + if x.Piece? && !Nested(x) then [x] else [], paged)
  {
    assert frame + [] == frame;
  }

  lemma {:induction false} PiecesNonEmpty(xs: seq<Item>)
    requires xs != [] && xs[0].Piece? && !Nested(xs[0])
    ensures Pieces(xs) != [] && Pieces(xs)[0] == xs[0]
  {
    var init := xs[..|xs| - 1];
    if |xs| > 1 {
      PiecesNonEmpty(init);
    } else {
      assert init == [];
    }
  }

  lemma OpenAtKept(xs: seq<Item>, x: Item, i: nat, paged: bool)
    requires OpenAt(xs, i, paged)
    requires Continues(x, paged)
    ensures OpenAt(xs + [x], i, paged)
  {
  }

  /** An item that neither continues nor opens a frame leaves nothing open. */
  lemma ClosedBy(xs: seq<Item>, x: Item, i: nat, paged: bool)
    requires OpenAt(xs, i, paged) && !OpenAt(xs + [x], i, paged) && !Opens(x)
    ensures Run(xs + [x]).asm == Asm([], [])
  {
    if Continues(x, paged) {
      OpenAtKept(xs, x, i, paged);
    } else {
      OpenFrameHeld(xs, i, paged);
      RunAppend(xs, x);
    }
  }

  lemma OpenedBy(xs: seq<Item>, x: Item)
    requires Opens(x)
    ensures OpenAt(xs + [x], |xs|, x.paged)
  {
  }

  /** When the stream leaves no frame open the automaton holds none. */
  lemma {:induction false} NothingHeld(xs: seq<Item>)
    requires forall i: nat, paged :: !OpenAt(xs, i, paged)
    ensures Run(xs).asm == Asm([], [])
  {
    if xs != [] {
      var init, x := xs[..|xs| - 1], xs[|xs| - 1];
      assert xs == init + [x];
      if Opens(x) {
        OpenedBy(init, x);
      }
      if i: nat, paged :| OpenAt(init, i, paged) {
        ClosedBy(init, x, i, paged);
      } else {
        NothingHeld(init);
        RunAppend(init, x);
      }
    }
  }

  /** `x`, arriving after `xs`, completes `frame`. */
  ghost predicate Completes(xs: seq<Item>, x: Item, frame: seq<Item>) {
    && x.Piece? && x.last
    && (x.paged && x.bufferType != BUFFER_STATUS ==> x.pullable)
    && (if x.first then frame == [x]
        else exists i: nat :: OpenAt(xs, i, x.paged) && frame == Pieces(xs[i..]) + [x])
  }

  /** What the handlers pass up for one item. */
  function Delivered(xs: seq<Item>, x: Item): seq<Event> {
    Step(Run(xs).asm, x).events
  }

  /**
   The reference definition of reassembly: a frame is handed up exactly when its last piece
   arrives, it consists of the first piece and everything of its kind since, and nothing in
   between opened, closed or broke it.
   */
  lemma DeliveredIffCompletes(xs: seq<Item>, x: Item, frame: seq<Item>, bufferType: nat)
    ensures Rx(frame, bufferType) in Delivered(xs, x) <==> Completes(xs, x, frame) && bufferType == x.bufferType
  {
    if x.Piece? {
      if i: nat, paged :| OpenAt(xs, i, paged) {
        OpenFrameHeld(xs, i, paged);
        PiecesNonEmptyAt(xs, i);
        DeliveredFromOpen(xs, x, frame, bufferType, i, paged);
      } else {
        NothingHeld(xs);
        DeliveredFromNothing(xs, x, frame, bufferType);
      }
    }
  }

  lemma PiecesNonEmptyAt(xs: seq<Item>, i: nat)
    requires i < |xs| && xs[i].Piece? && !Nested(xs[i])
    ensures Pieces(xs[i..]) != []
  {
    PiecesNonEmpty(xs[i..]);
  }

  /** A stream leaves at most one frame open. */
  lemma OpenAtUnique(xs: seq<Item>, i: nat, j: nat, p: bool, q: bool)
    requires OpenAt(xs, i, p) && OpenAt(xs, j, q)
    ensures i == j && p == q
  {
  }

  lemma DeliveredFromNothing(xs: seq<Item>, x: Item, frame: seq<Item>, bufferType: nat)
    requires x.Piece? && Run(xs).asm == Asm([], [])
    requires forall i: nat, paged :: !OpenAt(xs, i, paged)
    ensures Rx(frame, bufferType) in Delivered(xs, x) <==> Completes(xs, x, frame) && bufferType == x.bufferType
  {
  }

  /** The one frame a step can hand up. */
  lemma StepDelivers(s: Asm, open: seq<Item>, paged: bool, x: Item, frame: seq<Item>, bufferType: nat)
    requires Sound(s) && open != [] && s == Open(open, paged) && x.Piece?
    ensures Rx(frame, bufferType) in Step(s, x).events
       <==> && x.last && bufferType == x.bufferType && (x.paged && x.bufferType != BUFFER_STATUS ==> x.pullable)
            && if x.first then frame == [x] else x.paged == paged && frame == open + [x]
  {
  }

  lemma DeliveredFromOpen(xs: seq<Item>, x: Item, frame: seq<Item>, bufferType: nat, i: nat, paged: bool)
    requires x.Piece? && OpenAt(xs, i, paged) && Pieces(xs[i..]) != []
    requires Run(xs).asm == Open(Pieces(xs[i..]), paged)
    ensures Rx(frame, bufferType) in Delivered(xs, x) <==> Completes(xs, x, frame) && bufferType == x.bufferType
  {
    hide Run, Step, Open, Pieces;
    StepDelivers(Run(xs).asm, Pieces(xs[i..]), paged, x, frame, bufferType);
    forall j, q | OpenAt(xs, j, q)
      ensures j == i && q == paged
    {
      OpenAtUnique(xs, i, j, paged, q);
    }
  }

  // ---------------------------------------------------------------- ownership

  /** How often a buffer occurs in a list. */
  function Occurs(skbs: seq<SkBuff>, b: SkBuff): nat {
    if skbs == [] then 0 else Occurs(skbs[..|skbs| - 1], b) + if skbs[|skbs| - 1] == b then 1 else 0
  }

  lemma OccursAppend(skbs: seq<SkBuff>, x: SkBuff, b: SkBuff)
    ensures Occurs(skbs + [x], b) == Occurs(skbs, b) + if x == b then 1 else 0
  {
    assert (skbs + [x])[..|skbs|] == skbs;
  }

  lemma OccursOne(x: SkBuff, b: SkBuff)
    ensures Occurs([x], b) == if x == b then 1 else 0
  {
    OccursAppend([], x, b);
    assert [] + [x] == [x];
  }

  function Source(x: Item, b: SkBuff): nat {
    if (x.Lone? || x.Piece?) && x.skb == b then 1 else 0
  }

  /** How often the stream brought the buffer in. */
  function Sources(xs: seq<Item>, b: SkBuff): nat {
    if xs == [] then 0 else Sources(xs[..|xs| - 1], b) + Source(xs[|xs| - 1], b)
  }

  /** How often the open chains hold it. */
  function Held(s: Asm, b: SkBuff): nat
    requires Sound(s)
  {
    Occurs(Owned(s.head), b) + Occurs(Owned(s.jumbo), b)
  }

  datatype Fate = HandedOn | Released | Lost

  /** nss_core_rx_pbuf: which buffers go to a consumer, which are freed, and which are forgotten. */
  function FateOf(bufferType: nat): Fate {
    if bufferType == BUFFER_STATUS || bufferType == BUFFER_EMPTY then Released
    else if bufferType == BUFFER_PACKET || bufferType == BUFFER_PACKET_EXT || bufferType == BUFFER_PACKET_VIRTUAL
            || bufferType == BUFFER_BOUNCED_INTERFACE || bufferType == BUFFER_BOUNCED_BRIDGE then HandedOn
    else Lost
  }

  // what the ring code does to the rest of the driver with a buffer, or with a chain through its first buffer
  datatype Call =
    | Free(skb: SkBuff)
    | HandOn(skb: SkBuff, bufferType: nat)
    | StatusHandler(skb: SkBuff)
    | CryptoHandler(cookie: Cookie, buffer: nat, cryptoLen: nat)

  /** nss_core_rx_pbuf: the calls it makes for a buffer of the given type. */
  function RxCalls(skb: SkBuff, bufferType: nat): seq<Call> {
    if bufferType == BUFFER_STATUS then [StatusHandler(skb), Free(skb)]
    else match FateOf(bufferType)
         case Released => [Free(skb)]
         case HandedOn => [HandOn(skb, bufferType)]
         case Lost => []
  }

  function CallsFor(e: Event): seq<Call> {
    match e
    case CryptoDone(cookie, buffer, len) => [CryptoHandler(cookie, buffer, len)]
    case RxLone(skb, bufferType) => RxCalls(skb, bufferType)
    case Rx(frame, bufferType) => if frame != [] && frame[0].Piece? then RxCalls(frame[0].skb, bufferType) else []
    case Freed(skbs) => if skbs == [] then [] else [Free(skbs[0])]
  }

  function CallsOf(es: seq<Event>): seq<Call> {
    if es == [] then [] else CallsOf(es[..|es| - 1]) + CallsFor(es[|es| - 1])
  }

  lemma NoCalls()
    ensures CallsOf([]) == []
  {
  }

  lemma CallsAppend(es: seq<Event>, e: Event)
    ensures CallsOf(es + [e]) == CallsOf(es) + CallsFor(e)
  {
    assert (es + [e])[..|es|] == es;
  }

  lemma {:induction false} CallsConcat(a: seq<Event>, c: seq<Event>)
    ensures CallsOf(a + c) == CallsOf(a) + CallsOf(c)
  {
    hide CallsFor, CallsOf;
    if c == [] {
      NoCalls();
      assert a + c == a;
    } else {
      var init, e := c[..|c| - 1], c[|c| - 1];
      CallsConcat(a, init);
      CallsAppend(a + init, e);
      CallsAppend(init, e);
      assert (a + init) + [e] == a + c && init + [e] == c;
    }
  }

  lemma CallsOne(e: Event)
    ensures CallsOf([e]) == CallsFor(e)
  {
    assert [e][..0] == [];
  }

  /** A frame leaves with the last of the events, or none does. */
  predicate HandsUp(es: seq<Event>) {
    es != [] && es[|es| - 1].Rx?
  }

  /** What comes before the frame handed up. */
  function Before(es: seq<Event>): seq<Event> {
    if HandsUp(es) then es[..|es| - 1] else es
  }

  function LastFrame(es: seq<Event>): seq<Item>
    requires HandsUp(es)
  {
    es[|es| - 1].frame
  }

  lemma CallsSplit(es: seq<Event>)
    ensures CallsOf(es) == CallsOf(Before(es)) + if HandsUp(es) then CallsFor(es[|es| - 1]) else []
  {
  }

  lemma CallsDrop(frame: seq<Item>)
    requires forall i :: 0 <= i < |frame| ==> frame[i].Piece?
    requires frame != [] && !frame[0].paged ==> Uniform(frame, false)
    ensures CallsOf(Drop(frame)) == if frame == [] then [] else [Free(frame[0].skb)]
  {
    if frame != [] {
      CallsOne(Freed(Owned(frame)));
    }
  }

  /** Giving up another chain first changes nothing about the frame handed up. */
  lemma CallsAfterDrop(frame: seq<Item>, es: seq<Event>)
    requires forall i :: 0 <= i < |frame| ==> frame[i].Piece?
    ensures CallsOf(Drop(frame) + es) == CallsOf(Drop(frame)) + CallsOf(es)
    ensures HandsUp(Drop(frame) + es) <==> HandsUp(es)
    ensures HandsUp(es) ==> (Drop(frame) + es)[|Drop(frame) + es| - 1] == es[|es| - 1]
  {
    CallsConcat(Drop(frame), es);
  }

  /** The buffers that leave the ring code with an event. */
  function Cargo(e: Event): seq<SkBuff> {
    match e
    case CryptoDone(_, _, _) => []
    case RxLone(skb, _) => [skb]
    case Rx(frame, _) => if forall i :: 0 <= i < |frame| ==> frame[i].Piece? then Owned(frame) else []
    case Freed(skbs) => skbs
  }

  function EventFate(e: Event): Fate {
    if e.Rx? || e.RxLone? then FateOf(e.bufferType) else Released
  }

  /** How often the buffer left under the given fate. */
  function Leaving(es: seq<Event>, fate: Fate, b: SkBuff): nat {
    if es == [] then 0
    else
      var e := es[|es| - 1];
      Leaving(es[..|es| - 1], fate, b) + if EventFate(e) == fate then Occurs(Cargo(e), b) else 0
  }

  function Gone(es: seq<Event>, b: SkBuff): nat {
    Leaving(es, HandedOn, b) + Leaving(es, Released, b) + Leaving(es, Lost, b)
  }

  lemma {:induction false} LeavingConcat(a: seq<Event>, c: seq<Event>, fate: Fate, b: SkBuff)
    ensures Leaving(a + c, fate, b) == Leaving(a, fate, b) + Leaving(c, fate, b)
  {
    if c == [] {
      assert a + c == a;
    } else {
      var init := c[..|c| - 1];
      LeavingConcat(a, init, fate, b);
      assert (a + c)[..|a + c| - 1] == a + init;
    }
  }

  lemma GoneConcat(a: seq<Event>, c: seq<Event>, b: SkBuff)
    ensures Gone(a + c, b) == Gone(a, b) + Gone(c, b)
  {
    LeavingConcat(a, c, HandedOn, b);
    LeavingConcat(a, c, Released, b);
    LeavingConcat(a, c, Lost, b);
  }

  /** A single event lets exactly its cargo go. */
  lemma GoneOne(e: Event, b: SkBuff)
    ensures Gone([e], b) == Occurs(Cargo(e), b)
  {
    assert [e][..0] == [];
    assert forall fate :: Leaving([e], fate, b) == if EventFate(e) == fate then Occurs(Cargo(e), b) else 0;
  }

  lemma GoneNone(b: SkBuff)
    ensures Gone([], b) == 0
  {
  }

  lemma GoneDrop(frame: seq<Item>, b: SkBuff)
    requires forall i :: 0 <= i < |frame| ==> frame[i].Piece?
    ensures Gone(Drop(frame), b) == Occurs(Owned(frame), b)
  {
    if frame != [] {
      GoneOne(Freed(Owned(frame)), b);
    }
  }

  lemma GoneDeliver(frame: seq<Item>, x: Item, b: SkBuff)
    requires forall i :: 0 <= i < |frame| ==> frame[i].Piece?
    requires x.Piece?
    ensures Gone(DeliverPaged(frame, x), b) == Occurs(Owned(frame), b)
  {
    GoneOne(Freed(Owned(frame)), b);
    GoneOne(Rx(frame, x.bufferType), b);
  }

  lemma OwnedOne(x: Item)
    requires x.Piece?
    ensures Owned([x]) == [x.skb]
  {
  }

  lemma OwnedPaged(jumbo: seq<Item>, x: Item)
    requires Uniform(jumbo, true) && jumbo != [] && x.Piece? && x.paged
    ensures Owned(jumbo + [x]) == Owned(jumbo)
  {
  }

  lemma OwnedLinear(head: seq<Item>, x: Item)
    requires Uniform(head, false) && x.Piece? && !x.paged
    ensures Owned(head + [x]) == Owned(head) + [x.skb]
  {
    assert (head + [x])[..|head|] == head;
  }

  lemma PagedConserves(jumbo: seq<Item>, x: Item, b: SkBuff)
    requires Uniform(jumbo, true) && x.Piece? && x.paged
    ensures var o := StepPaged(jumbo, x);
            Occurs(Owned(jumbo), b) + Source(x, b) == Held(o.asm, b) + Gone(o.events, b)
  {
    OwnedOne(x);
    OccursOne(x.skb, b);
    if x.first {
      GoneDrop(jumbo, b);
      if x.last {
        GoneDeliver([x], x, b);
        GoneConcat(Drop(jumbo), DeliverPaged([x], x), b);
      }
    } else {
      GoneOne(Freed([x.skb]), b);
      if jumbo != [] {
        OwnedPaged(jumbo, x);
        if x.last {
          GoneDeliver(jumbo + [x], x, b);
          GoneConcat([Freed([x.skb])], DeliverPaged(jumbo + [x], x), b);
        }
      }
    }
  }

  /** The one case in which a chain is freed and yet stays open. */
  ghost predicate LeavesDangling(s: Asm, x: Item) {
    s.head != [] && Nested(x)
  }

  /** Buffers that such a step counts a second time. */
  ghost function Excess(s: Asm, x: Item, b: SkBuff): nat
    requires Sound(s)
  {
    if LeavesDangling(s, x) then Occurs(Owned(s.head), b) else 0
  }

  lemma NothingHeldNow(b: SkBuff)
    ensures Occurs([], b) == 0 && Held(Asm([], []), b) == 0 && Owned([]) == []
  {
  }

  lemma LinearWholeConserves(head: seq<Item>, x: Item, b: SkBuff)
    requires Uniform(head, false) && x.Piece? && !x.paged && x.first && x.last
    ensures var o := StepLinear(head, x);
            Occurs(Owned(head), b) + Source(x, b) == Held(o.asm, b) + Gone(o.events, b)
  {
    hide Occurs, Owned, Gone, Drop;
    OwnedOne(x);
    OccursOne(x.skb, b);
    GoneDrop(head, b);
    GoneOne(Rx([x], x.bufferType), b);
    GoneConcat(Drop(head), [Rx([x], x.bufferType)], b);
    NothingHeldNow(b);
  }

  lemma LinearFirstConserves(head: seq<Item>, x: Item, b: SkBuff)
    requires Uniform(head, false) && x.Piece? && !x.paged && x.first && !x.last
    ensures var o := StepLinear(head, x);
            Occurs(Owned(head), b) + Source(x, b) + Excess(Asm(head, []), x, b) == Held(o.asm, b) + Gone(o.events, b)
  {
    OwnedOne(x);
    OccursOne(x.skb, b);
    GoneDrop(head, b);
    GoneOne(Freed([x.skb]), b);
    GoneConcat(Drop(head), [Freed([x.skb])], b);
  }

  lemma LinearStrayConserves(x: Item, b: SkBuff)
    requires x.Piece? && !x.paged && !x.first
    ensures var o := StepLinear([], x);
            Source(x, b) == Held(o.asm, b) + Gone(o.events, b)
  {
    GoneOne(Freed([x.skb]), b);
    OccursOne(x.skb, b);
  }

  lemma LinearLaterConserves(head: seq<Item>, x: Item, b: SkBuff)
    requires Uniform(head, false) && head != [] && x.Piece? && !x.paged && !x.first
    ensures var o := StepLinear(head, x);
            Occurs(Owned(head), b) + Source(x, b) == Held(o.asm, b) + Gone(o.events, b)
  {
    OwnedLinear(head, x);
    OccursAppend(Owned(head), x.skb, b);
    if x.last {
      GoneOne(Rx(head + [x], x.bufferType), b);
    }
  }

  /**
   One descriptor conserves buffers: what was held plus what came in is what is held plus
   what left. The exception is a first piece that already is a chain and arrives over an
   open chain, which counts the buffers of that chain twice.
   */
  lemma StepConserves(s: Asm, x: Item, b: SkBuff)
    requires Sound(s)
    ensures var o := Step(s, x);
            Held(s, b) + Source(x, b) + Excess(s, x, b) == Held(o.asm, b) + Gone(o.events, b)
  {
    hide Occurs, Owned, Gone, Drop, StepPaged, StepLinear;
    NothingHeldNow(b);
    match x {
      case CryptoResp(cookie, buffer, len) => GoneOne(CryptoDone(cookie, buffer, len), b);
      case BadPointer => GoneNone(b);
      case Lone(skb, t) =>
        GoneOne(RxLone(skb, t), b);
        OccursOne(skb, b);
      case Piece(paged, _, _, _, _, _, _, _, _, _, _) =>
        if paged {
          GoneDrop(s.head, b);
          PagedConserves(s.jumbo, x, b);
          GoneConcat(Drop(s.head), StepPaged(s.jumbo, x).events, b);
        } else {
          GoneDrop(s.jumbo, b);
          if x.first && x.last {
            LinearWholeConserves(s.head, x, b);
          } else if x.first {
            LinearFirstConserves(s.head, x, b);
          } else if s.head == [] {
            LinearStrayConserves(x, b);
          } else {
            LinearLaterConserves(s.head, x, b);
          }
          GoneConcat(Drop(s.jumbo), StepLinear(s.head, x).events, b);
        }
    }
  }

  /** All double counting over a stream. */
  ghost function AllExcess(xs: seq<Item>, b: SkBuff): nat {
    if xs == [] then 0
    else AllExcess(xs[..|xs| - 1], b) + Excess(Run(xs[..|xs| - 1]).asm, xs[|xs| - 1], b)
  }

  /** Over any stream: received plus double-counted equals held plus handed on plus freed plus lost. */
  lemma {:induction false} RunConserves(xs: seq<Item>, b: SkBuff)
    ensures Sources(xs, b) + AllExcess(xs, b) == Held(Run(xs).asm, b) + Gone(Run(xs).events, b)
  {
    if xs != [] {
      var init, x := xs[..|xs| - 1], xs[|xs| - 1];
      RunConserves(init, b);
      var s := Run(init);
      StepConserves(s.asm, x, b);
      GoneConcat(s.events, Step(s.asm, x).events, b);
    }
  }

  lemma {:induction false} OccursIff(skbs: seq<SkBuff>, b: SkBuff)
    ensures Occurs(skbs, b) > 0 <==> b in skbs
  {
    if skbs != [] {
      OccursIff(skbs[..|skbs| - 1], b);
      assert skbs == skbs[..|skbs| - 1] + [skbs[|skbs| - 1]];
    }
  }

  ghost predicate Loses(e: Event, b: SkBuff) {
    EventFate(e) == Lost && b in Cargo(e)
  }

  lemma {:induction false} LostWithEvent(es: seq<Event>, b: SkBuff)
    ensures Leaving(es, Lost, b) > 0 <==> exists e :: e in es && Loses(e, b)
  {
    if es != [] {
      var init, e := es[..|es| - 1], es[|es| - 1];
      LostWithEvent(init, b);
      OccursIff(Cargo(e), b);
      assert es == init + [e];
      assert forall x :: x in es <==> x in init || x == e;
      assert Leaving(es, Lost, b) > 0 <==> Leaving(init, Lost, b) > 0 || Loses(e, b);
    }
  }

  /** Lone buffers come under a type the driver dispatches on. */
  predicate LoneDispatched(x: Item) {
    x.Lone? ==> FateOf(x.bufferType) != Lost
  }

  /** Every buffer comes under a type the driver dispatches on. */
  predicate Dispatched(x: Item) {
    x.Lone? || x.Piece? ==> FateOf(x.bufferType) != Lost
  }

  /** The frame that `x` completes when its first piece is item `i` of the stream, or `x` itself. */
  function FrameFrom(xs: seq<Item>, x: Item, i: nat): (f: seq<Item>)
    requires i <= |xs| && x.Piece?
    ensures forall j :: 0 <= j < |f| ==> f[j].Piece?
  {
    if x.first then [x] else Pieces(xs[i..]) + [x]
  }

  /**
   `x`, arriving after `xs`, completes the frame begun at `i` under a type the driver does not
   dispatch on, and `b` is in it.
   */
  ghost predicate LosesFrom(xs: seq<Item>, x: Item, i: nat, b: SkBuff) {
    && i <= |xs| && x.Piece? && FateOf(x.bufferType) == Lost
    && (if x.first then i == |xs| else OpenAt(xs, i, x.paged))
    && Completes(xs, x, FrameFrom(xs, x, i)) && b in Owned(FrameFrom(xs, x, i))
  }

  ghost predicate StepForgets(xs: seq<Item>, x: Item, b: SkBuff) {
    exists i: nat :: LosesFrom(xs, x, i, b)
  }

  lemma CompletedFrom(xs: seq<Item>, x: Item, frame: seq<Item>) returns (i: nat)
    requires x.Piece? && Completes(xs, x, frame)
    ensures i <= |xs| && frame == FrameFrom(xs, x, i) && if x.first then i == |xs| else OpenAt(xs, i, x.paged)
  {
    if x.first {
      i := |xs|;
    } else {
      i :| OpenAt(xs, i, x.paged) && frame == Pieces(xs[i..]) + [x];
    }
  }

  /** What is not a frame handed up is dispatched on. */
  lemma OtherEventsKeep(xs: seq<Item>, x: Item, e: Event)
    requires LoneDispatched(x) && e in Delivered(xs, x) && !e.Rx?
    ensures EventFate(e) != Lost
  {
    hide Run;
  }

  lemma RxIsPiece(xs: seq<Item>, x: Item, frame: seq<Item>, bufferType: nat)
    requires Rx(frame, bufferType) in Delivered(xs, x)
    ensures x.Piece?
  {
    hide Run;
  }

  lemma StepLosesIff(xs: seq<Item>, x: Item, b: SkBuff)
    requires LoneDispatched(x)
    ensures Leaving(Delivered(xs, x), Lost, b) > 0 <==> StepForgets(xs, x, b)
  {
    hide Run, Step, Completes, Delivered, FrameFrom;
    LostWithEvent(Delivered(xs, x), b);
    forall e | e in Delivered(xs, x) && Loses(e, b)
      ensures StepForgets(xs, x, b)
    {
      if e.Rx? {
        DeliveredIffCompletes(xs, x, e.frame, e.bufferType);
        RxIsPiece(xs, x, e.frame, e.bufferType);
        var i := CompletedFrom(xs, x, e.frame);
        assert LosesFrom(xs, x, i, b);
      } else {
        OtherEventsKeep(xs, x, e);
      }
    }
    if StepForgets(xs, x, b) {
      var i: nat :| LosesFrom(xs, x, i, b);
      DeliveredIffCompletes(xs, x, FrameFrom(xs, x, i), x.bufferType);
      assert Loses(Rx(FrameFrom(xs, x, i), x.bufferType), b);
    }
  }

  /** Item `k` of the stream completes a frame that the driver forgets, with `b` in it. */
  ghost predicate ForgetsAt(xs: seq<Item>, k: nat, b: SkBuff) {
    k < |xs| && StepForgets(xs[..k], xs[k], b)
  }

  lemma ForgetsAtKept(xs: seq<Item>, k: nat, b: SkBuff)
    requires k + 1 < |xs|
    ensures ForgetsAt(xs[..|xs| - 1], k, b) <==> ForgetsAt(xs, k, b)
  {
    assert xs[..|xs| - 1][..k] == xs[..k];
  }

  ghost predicate Forgets(xs: seq<Item>, b: SkBuff) {
    exists k: nat :: ForgetsAt(xs, k, b)
  }

  lemma ForgetsStep(xs: seq<Item>, b: SkBuff)
    requires xs != []
    ensures Forgets(xs, b) <==> Forgets(xs[..|xs| - 1], b) || StepForgets(xs[..|xs| - 1], xs[|xs| - 1], b)
  {
    hide StepForgets;
    var init := xs[..|xs| - 1];
    if Forgets(xs, b) {
      var k: nat :| ForgetsAt(xs, k, b);
      if k < |init| {
        ForgetsAtKept(xs, k, b);
      }
    }
    if Forgets(init, b) {
      var k: nat :| ForgetsAt(init, k, b);
      ForgetsAtKept(xs, k, b);
    }
    if StepForgets(init, xs[|xs| - 1], b) {
      assert ForgetsAt(xs, |init|, b);
    }
  }

  /**
   A buffer is forgotten exactly when the stream completes a frame that contains it under a type
   the driver does not dispatch on.
   */
  lemma {:induction false} LostIff(xs: seq<Item>, b: SkBuff)
    requires forall k :: 0 <= k < |xs| ==> LoneDispatched(xs[k])
    ensures Leaving(Run(xs).events, Lost, b) > 0 <==> Forgets(xs, b)
  {
    hide StepForgets, Forgets, Step;
    if xs == [] {
      NothingLostYet(b);
    } else {
      var init, x := xs[..|xs| - 1], xs[|xs| - 1];
      LostIff(init, b);
      ForgetsStep(xs, b);
      StepLosesIff(init, x, b);
      RunAppend(init, x);
      assert init + [x] == xs;
      LeavingConcat(Run(init).events, Delivered(init, x), Lost, b);
    }
  }

  lemma NothingLostYet(b: SkBuff)
    ensures Leaving(Run([]).events, Lost, b) == 0 && !Forgets([], b)
  {
  }

  /** A stream of dispatched types forgets nothing. */
  lemma NothingLost(xs: seq<Item>, b: SkBuff)
    requires forall k :: 0 <= k < |xs| ==> Dispatched(xs[k])
    ensures Leaving(Run(xs).events, Lost, b) == 0
  {
    hide Run, Leaving;
    LostIff(xs, b);
  }

  // ---------------------------------------------------------------- what the rest of the driver sees

  /** The event makes the call: told by event and buffer type. */
  predicate Makes(e: Event, c: Call) {
    match c
    case HandOn(b, t) =>
      && Brings(e, b, t)
      && (t == BUFFER_PACKET || t == BUFFER_PACKET_EXT || t == BUFFER_PACKET_VIRTUAL
          || t == BUFFER_BOUNCED_INTERFACE || t == BUFFER_BOUNCED_BRIDGE)
    case StatusHandler(b) => Brings(e, b, BUFFER_STATUS)
    case Free(b) =>
      Brings(e, b, BUFFER_STATUS) || Brings(e, b, BUFFER_EMPTY) || (e.Freed? && e.skbs != [] && e.skbs[0] == b)
    case CryptoHandler(cookie, buffer, len) => e == CryptoDone(cookie, buffer, len)
  }

  /** The event brings `b` to nss_core_rx_pbuf, alone or as the first buffer of a frame. */
  predicate Brings(e: Event, b: SkBuff, bufferType: nat) {
    || (e.RxLone? && e.skb == b && e.bufferType == bufferType)
    || (e.Rx? && e.bufferType == bufferType && e.frame != [] && e.frame[0].Piece? && e.frame[0].skb == b)
  }

  lemma MakesIff(e: Event, c: Call)
    ensures c in CallsFor(e) <==> Makes(e, c)
  {
  }

  /** Which calls a list of events makes. */
  lemma {:induction false} CallsIff(es: seq<Event>, c: Call)
    ensures c in CallsOf(es) <==> exists k :: 0 <= k < |es| && Makes(es[k], c)
  {
    hide CallsFor, Makes;
    if es != [] {
      var init, e := es[..|es| - 1], es[|es| - 1];
      CallsIff(init, c);
      MakesIff(e, c);
      assert es == init + [e];
      if Makes(e, c) {
        assert Makes(es[|init|], c);
      }
      if k: nat :| k < |init| && Makes(init[k], c) {
        assert Makes(es[k], c);
      }
    }
  }

  /** Item `k` brings `b`, alone or by completing the frame that `b` began. */
  ghost predicate Arrives(xs: seq<Item>, k: nat, b: SkBuff, bufferType: nat) {
    && k < |xs|
    && (xs[k] == Lone(b, bufferType)
        || (xs[k].Piece? && xs[k].bufferType == bufferType && exists i: nat :: BegunAt(xs[..k], xs[k], i, b)))
  }

  /** `x`, arriving after `xs`, completes the frame begun by `b` at item `i`, or by `x` itself. */
  ghost predicate BegunAt(xs: seq<Item>, x: Item, i: nat, b: SkBuff) {
    && i <= |xs| && x.Piece?
    && (if x.first then i == |xs| else OpenAt(xs, i, x.paged))
    && (xs + [x])[i].Piece? && (xs + [x])[i].skb == b && Completes(xs, x, FrameFrom(xs, x, i))
  }

  /** The first piece of a completed frame is the one that began it. */
  lemma FrameBegins(xs: seq<Item>, x: Item, i: nat)
    requires i <= |xs| && x.Piece? && if x.first then i == |xs| else OpenAt(xs, i, x.paged)
    ensures FrameFrom(xs, x, i) != [] && FrameFrom(xs, x, i)[0] == (xs + [x])[i]
  {
    if !x.first {
      PiecesNonEmpty(xs[i..]);
    }
  }

  /** One step brings `b` to nss_core_rx_pbuf exactly when its item does. */
  lemma StepBringsIff(xs: seq<Item>, x: Item, b: SkBuff, bufferType: nat)
    ensures (exists e :: e in Delivered(xs, x) && Brings(e, b, bufferType))
       <==> x == Lone(b, bufferType)
            || (x.Piece? && x.bufferType == bufferType && exists i: nat :: BegunAt(xs, x, i, b))
  {
    hide Run, Step, Completes, Delivered, FrameFrom;
    LoneDelivered(xs, x);
    if e :| e in Delivered(xs, x) && Brings(e, b, bufferType) {
      if e.Rx? {
        DeliveredIffCompletes(xs, x, e.frame, e.bufferType);
        RxIsPiece(xs, x, e.frame, e.bufferType);
        var i := CompletedFrom(xs, x, e.frame);
        FrameBegins(xs, x, i);
        assert BegunAt(xs, x, i, b);
      }
    }
    if x.Piece? && x.bufferType == bufferType && exists i: nat :: BegunAt(xs, x, i, b) {
      var i: nat :| BegunAt(xs, x, i, b);
      DeliveredIffCompletes(xs, x, FrameFrom(xs, x, i), bufferType);
      FrameBegins(xs, x, i);
      assert Brings(Rx(FrameFrom(xs, x, i), bufferType), b, bufferType);
    }
    if x == Lone(b, bufferType) {
      assert Brings(RxLone(b, bufferType), b, bufferType);
    }
  }

  lemma LoneDelivered(xs: seq<Item>, x: Item)
    ensures forall b, t :: RxLone(b, t) in Delivered(xs, x) <==> x == Lone(b, t)
  {
    hide Run;
  }

  /** Some item of the stream brings `b` under the given type. */
  ghost predicate Brought(xs: seq<Item>, b: SkBuff, bufferType: nat) {
    exists k: nat :: Arrives(xs, k, b, bufferType)
  }

  lemma ArrivesKept(xs: seq<Item>, k: nat, b: SkBuff, bufferType: nat)
    requires k + 1 < |xs|
    ensures Arrives(xs[..|xs| - 1], k, b, bufferType) <==> Arrives(xs, k, b, bufferType)
  {
    assert xs[..|xs| - 1][..k] == xs[..k];
  }

  lemma BroughtStep(xs: seq<Item>, b: SkBuff, bufferType: nat)
    requires xs != []
    ensures Brought(xs, b, bufferType)
       <==> Brought(xs[..|xs| - 1], b, bufferType) || Arrives(xs, |xs| - 1, b, bufferType)
  {
    hide Arrives;
    var init := xs[..|xs| - 1];
    if Brought(xs, b, bufferType) {
      var k: nat :| Arrives(xs, k, b, bufferType);
      ArrivesWithin(xs, k, b, bufferType);
      if k < |init| {
        ArrivesKept(xs, k, b, bufferType);
      }
    }
    if Brought(init, b, bufferType) {
      var k: nat :| Arrives(init, k, b, bufferType);
      ArrivesWithin(init, k, b, bufferType);
      ArrivesKept(xs, k, b, bufferType);
    }
  }

  lemma ArrivesWithin(xs: seq<Item>, k: nat, b: SkBuff, bufferType: nat)
    requires Arrives(xs, k, b, bufferType)
    ensures k < |xs|
  {
  }

  ghost predicate EventBrings(es: seq<Event>, b: SkBuff, bufferType: nat) {
    exists e :: e in es && Brings(e, b, bufferType)
  }

  /** Over any stream, what goes to nss_core_rx_pbuf is what the stream brings there by the definition of a frame. */
  lemma {:induction false} BroughtIff(xs: seq<Item>, b: SkBuff, bufferType: nat)
    ensures EventBrings(Run(xs).events, b, bufferType) <==> Brought(xs, b, bufferType)
  {
    hide Step, Arrives, Brings, Brought;
    if xs == [] {
      NothingBrought(b, bufferType);
    } else {
      var init, x := xs[..|xs| - 1], xs[|xs| - 1];
      BroughtIff(init, b, bufferType);
      BroughtStep(xs, b, bufferType);
      StepArrives(xs, b, bufferType);
      assert Run(xs).events == Run(init).events + Delivered(init, x);
      assert forall e :: e in Run(xs).events <==> e in Run(init).events || e in Delivered(init, x);
    }
  }

  lemma NothingBrought(b: SkBuff, bufferType: nat)
    ensures !Brought([], b, bufferType)
  {
  }

  lemma StepArrives(xs: seq<Item>, b: SkBuff, bufferType: nat)
    requires xs != []
    ensures var init, x := xs[..|xs| - 1], xs[|xs| - 1];
            EventBrings(Delivered(init, x), b, bufferType) <==> Arrives(xs, |init|, b, bufferType)
  {
    hide Delivered, Brings, BegunAt;
    StepBringsIff(xs[..|xs| - 1], xs[|xs| - 1], b, bufferType);
  }

  /**
   A buffer goes to a consumer of the network stack if and only if the stream brings it, alone or as
   the first buffer of a completed frame, as a packet, an extended or virtual packet, or a bounce.
   */
  lemma HandedOnIff(xs: seq<Item>, b: SkBuff, t: nat)
    ensures HandOn(b, t) in CallsOf(Run(xs).events)
       <==> && Brought(xs, b, t)
            && (t == BUFFER_PACKET || t == BUFFER_PACKET_EXT || t == BUFFER_PACKET_VIRTUAL
                || t == BUFFER_BOUNCED_INTERFACE || t == BUFFER_BOUNCED_BRIDGE)
  {
    hide Run, CallsOf, Brought, Brings;
    CallsIff(Run(xs).events, HandOn(b, t));
    BroughtIff(xs, b, t);
    BringsSome(Run(xs).events, b, t);
  }

  lemma BringsSome(es: seq<Event>, b: SkBuff, t: nat)
    ensures EventBrings(es, b, t) <==> exists k :: 0 <= k < |es| && Brings(es[k], b, t)
  {
    hide Brings;
  }

  /** The status handler gets exactly the status messages the stream brings, and each is freed. */
  lemma StatusIff(xs: seq<Item>, b: SkBuff)
    ensures StatusHandler(b) in CallsOf(Run(xs).events) <==> Brought(xs, b, BUFFER_STATUS)
    ensures Brought(xs, b, BUFFER_STATUS) || Brought(xs, b, BUFFER_EMPTY) ==> Free(b) in CallsOf(Run(xs).events)
  {
    hide Run, CallsOf, Brought, Brings;
    CallsIff(Run(xs).events, StatusHandler(b));
    CallsIff(Run(xs).events, Free(b));
    BroughtIff(xs, b, BUFFER_STATUS);
    BroughtIff(xs, b, BUFFER_EMPTY);
    BringsSome(Run(xs).events, b, BUFFER_STATUS);
    BringsSome(Run(xs).events, b, BUFFER_EMPTY);
  }

  /** The calls of the crypto driver among some calls. */
  function CryptoCalls(calls: seq<Call>): seq<Call> {
    if calls == [] then []
    else
      var before, c := CryptoCalls(calls[..|calls| - 1]), calls[|calls| - 1];
      if c.CryptoHandler? then before + [c] else before
  }

  /** The crypto responses of a stream. */
  function CryptoResponses(xs: seq<Item>): seq<Call> {
    if xs == [] then []
    else
      var before, x := CryptoResponses(xs[..|xs| - 1]), xs[|xs| - 1];
      if x.CryptoResp? then before + [CryptoHandler(x.cookie, x.buffer, x.cryptoLen)] else before
  }

  lemma {:induction false} CryptoConcat(a: seq<Call>, c: seq<Call>)
    ensures CryptoCalls(a + c) == CryptoCalls(a) + CryptoCalls(c)
  {
    if c == [] {
      assert a + c == a;
    } else {
      CryptoConcat(a, c[..|c| - 1]);
      assert (a + c)[..|a + c| - 1] == a + c[..|c| - 1];
    }
  }

  lemma {:induction false} NoCryptoCalls(calls: seq<Call>)
    requires forall k :: 0 <= k < |calls| ==> !calls[k].CryptoHandler?
    ensures CryptoCalls(calls) == []
  {
    if calls != [] {
      NoCryptoCalls(calls[..|calls| - 1]);
    }
  }

  lemma StepCrypto(s: Asm, x: Item)
    requires Sound(s)
    ensures CryptoCalls(CallsOf(Step(s, x).events))
         == if x.CryptoResp? then [CryptoHandler(x.cookie, x.buffer, x.cryptoLen)] else []
  {
    hide CallsFor, CallsOf;
    var es := Step(s, x).events;
    if x.CryptoResp? {
      CallsOne(CryptoDone(x.cookie, x.buffer, x.cryptoLen));
      CryptoOne(CryptoHandler(x.cookie, x.buffer, x.cryptoLen));
      assert CallsFor(CryptoDone(x.cookie, x.buffer, x.cryptoLen))
          == [CryptoHandler(x.cookie, x.buffer, x.cryptoLen)] by { CryptoCallFor(x.cookie, x.buffer, x.cryptoLen); }
    } else {
      NoCryptoDone(s, x);
      forall k | 0 <= k < |CallsOf(es)|
        ensures !CallsOf(es)[k].CryptoHandler?
      {
        CallsIff(es, CallsOf(es)[k]);
      }
      NoCryptoCalls(CallsOf(es));
    }
  }

  lemma CryptoCallFor(cookie: Cookie, buffer: nat, len: nat)
    ensures CallsFor(CryptoDone(cookie, buffer, len)) == [CryptoHandler(cookie, buffer, len)]
  {
  }

  lemma CryptoOne(c: Call)
    requires c.CryptoHandler?
    ensures CryptoCalls([c]) == [c]
  {
    assert [c][..0] == [];
    assert [] + [c] == [c];
  }

  lemma NoCryptoDone(s: Asm, x: Item)
    requires Sound(s) && !x.CryptoResp?
    ensures forall k :: 0 <= k < |Step(s, x).events| ==> !Step(s, x).events[k].CryptoDone?
  {
  }

  /** The crypto driver gets exactly the crypto responses of the stream, in order. */
  lemma {:induction false} CryptoDelivered(xs: seq<Item>)
    ensures CryptoCalls(CallsOf(Run(xs).events)) == CryptoResponses(xs)
  {
    hide Step, CallsOf;
    if xs == [] {
      NoCalls();
    } else {
      var init, x := xs[..|xs| - 1], xs[|xs| - 1];
      CryptoDelivered(init);
      var before, es := Run(init), Step(Run(init).asm, x).events;
      StepCrypto(before.asm, x);
      CallsConcat(before.events, es);
      CryptoConcat(CallsOf(before.events), CallsOf(es));
    }
  }

  // ---------------------------------------------------------------- freed and yet held

  /** `x`, arriving after `xs`, is refused while a linear frame with `b` in it is open; the frame is freed too. */
  ghost predicate FreesOpen(xs: seq<Item>, x: Item, b: SkBuff) {
    Nested(x) && exists i: nat :: OpenAt(xs, i, false) && b in Buffers(Pieces(xs[i..]))
  }

  lemma OwnedIsBuffers(frame: seq<Item>)
    requires Uniform(frame, false)
    ensures Owned(frame) == Buffers(frame)
  {
  }

  lemma PiecesUniform(xs: seq<Item>, i: nat)
    requires OpenAt(xs, i, false)
    ensures Uniform(Pieces(xs[i..]), false)
  {
    OpenFrameHeld(xs, i, false);
    assert Sound(Run(xs).asm);
  }

  /** A step counts a buffer twice exactly when it frees an open frame that contains it. */
  lemma ExcessIff(xs: seq<Item>, x: Item, b: SkBuff)
    ensures Excess(Run(xs).asm, x, b) > 0 <==> FreesOpen(xs, x, b)
  {
    hide Run, Step, Pieces, Owned, Buffers, Occurs;
    if i: nat, paged :| OpenAt(xs, i, paged) {
      OpenFrameHeld(xs, i, paged);
      forall j, q | OpenAt(xs, j, q)
        ensures j == i && q == paged
      {
        OpenAtUnique(xs, i, j, paged, q);
      }
      if !paged {
        PiecesUniform(xs, i);
        OwnedIsBuffers(Pieces(xs[i..]));
        OccursIff(Owned(Pieces(xs[i..])), b);
        PiecesNonEmptyAt(xs, i);
      }
    } else {
      NothingHeld(xs);
    }
  }

  /** Somewhere in the stream an open frame with `b` in it is freed and stays open. */
  ghost predicate FreedWhileOpen(xs: seq<Item>, b: SkBuff) {
    exists k: nat :: FreesAt(xs, k, b)
  }

  ghost predicate FreesAt(xs: seq<Item>, k: nat, b: SkBuff) {
    k < |xs| && FreesOpen(xs[..k], xs[k], b)
  }

  lemma FreesAtKept(xs: seq<Item>, k: nat, b: SkBuff)
    requires k + 1 < |xs|
    ensures FreesAt(xs[..|xs| - 1], k, b) <==> FreesAt(xs, k, b)
  {
    assert xs[..|xs| - 1][..k] == xs[..k];
  }

  lemma FreedWhileOpenStep(xs: seq<Item>, b: SkBuff)
    requires xs != []
    ensures FreedWhileOpen(xs, b)
       <==> FreedWhileOpen(xs[..|xs| - 1], b) || FreesOpen(xs[..|xs| - 1], xs[|xs| - 1], b)
  {
    hide FreesOpen;
    var init := xs[..|xs| - 1];
    if FreedWhileOpen(xs, b) {
      var k: nat :| FreesAt(xs, k, b);
      if k < |init| {
        FreesAtKept(xs, k, b);
      }
    }
    if FreedWhileOpen(init, b) {
      var k: nat :| FreesAt(init, k, b);
      FreesAtKept(xs, k, b);
    }
    if FreesOpen(init, xs[|xs| - 1], b) {
      assert FreesAt(xs, |init|, b);
    }
  }

  /** Over a stream a buffer is counted twice exactly when a frame that contains it is freed while it is open. */
  lemma {:induction false} AllExcessIff(xs: seq<Item>, b: SkBuff)
    ensures AllExcess(xs, b) > 0 <==> FreedWhileOpen(xs, b)
  {
    hide FreedWhileOpen, FreesOpen, Run, Excess;
    if xs == [] {
      NothingFreedYet(b);
    } else {
      AllExcessIff(xs[..|xs| - 1], b);
      FreedWhileOpenStep(xs, b);
      ExcessIff(xs[..|xs| - 1], xs[|xs| - 1], b);
    }
  }

  lemma NothingFreedYet(b: SkBuff)
    ensures !FreedWhileOpen([], b)
  {
  }

  /**
   A buffer received once is in one place only -- held, handed on, freed or forgotten -- if and only
   if no frame that contains it is ever freed while it is open.
   */
  lemma OnePlaceOrForgottenIff(xs: seq<Item>, b: SkBuff)
    requires Sources(xs, b) == 1
    ensures var o := Run(xs);
            Held(o.asm, b) + Leaving(o.events, HandedOn, b) + Leaving(o.events, Released, b)
            + Leaving(o.events, Lost, b) == 1
            <==> !FreedWhileOpen(xs, b)
  {
    RunConserves(xs, b);
    AllExcessIff(xs, b);
  }

  /** Of dispatched types, it is then in exactly one place: held, handed on or freed. */
  lemma ExactlyOnePlaceIff(xs: seq<Item>, b: SkBuff)
    requires forall k :: 0 <= k < |xs| ==> Dispatched(xs[k])
    requires Sources(xs, b) == 1
    ensures var o := Run(xs);
            Held(o.asm, b) + Leaving(o.events, HandedOn, b) + Leaving(o.events, Released, b) == 1
            <==> !FreedWhileOpen(xs, b)
  {
    OnePlaceOrForgottenIff(xs, b);
    NothingLost(xs, b);
  }

  /** A command response, which has no case in nss_core_rx_pbuf, is neither handed on nor freed nor held. */
  lemma CommandRespForgotten(x: Item)
    requires x.Piece? && !x.paged && x.first && x.last && x.bufferType == BUFFER_COMMAND_RESP
    ensures var o := Run([x]);
            && Held(o.asm, x.skb) == 0 && Leaving(o.events, HandedOn, x.skb) == 0
            && Leaving(o.events, Released, x.skb) == 0 && Leaving(o.events, Lost, x.skb) == 1
  {
    assert Run([]) == Outcome(Asm([], []), []);
    RunAppend([], x);
    assert [] + [x] == [x];
    assert Run([x]).events == [Rx([x], BUFFER_COMMAND_RESP)];
    ForgottenOnly(Rx([x], BUFFER_COMMAND_RESP), x.skb);
    OwnedOne(x);
    OccursOne(x.skb, x.skb);
  }

  lemma ForgottenOnly(e: Event, b: SkBuff)
    requires EventFate(e) == Lost
    ensures Leaving([e], HandedOn, b) == 0 && Leaving([e], Released, b) == 0
    ensures Leaving([e], Lost, b) == Occurs(Cargo(e), b)
  {
    assert [e][..0] == [];
  }

  /**
   The failing stream: a first piece opens a chain, a first piece that already is a chain
   frees it, and a last piece still completes it -- the freed buffer is handed up as well.
   */
  lemma NestedChainFreesTwice(a: Item, b: Item, c: Item)
    requires a.Piece? && !a.paged && a.first && !a.last && !a.chained
    requires b.Piece? && !b.paged && b.first && !b.last && b.chained
    requires c.Piece? && !c.paged && !c.first && c.last
    ensures Run([a, b, c]).events == [Freed([a.skb]), Freed([b.skb]), Rx([a, c], c.bufferType)]
  {
    assert Run([]) == Outcome(Asm([], []), []);
    RunAppend([], a);
    assert [] + [a] == [a];
    OwnedOne(a);
    assert Run([a]) == Outcome(Asm([a], []), []);
    RunAppend([a], b);
    assert [a] + [b] == [a, b];
    assert Run([a, b]) == Outcome(Asm([a], []), [Freed([a.skb]), Freed([b.skb])]);
    RunAppend([a, b], c);
    assert [a, b] + [c] == [a, b, c];
    assert [a] + [c] == [a, c];
    assert Step(Asm([a], []), c).events == [Rx([a, c], c.bufferType)];
  }
}
