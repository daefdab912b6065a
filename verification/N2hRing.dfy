/**
 The firmware-to-host descriptor ring and its consumer: nss_core_handle_cause_queue with the
 two reassembly handlers, working on socket buffers in the heap.
 */
module N2hRings {
  import opened Machine
  import opened RingIndex
  import opened RingWindow
  import opened Reassembly

  datatype N2hDesc = N2hDesc(cookie: Cookie, buffer: nat, payloadLen: nat, payloadOffs: nat,
                             bufferType: nat, first: bool, last: bool)

  /** What a descriptor and the buffer it names amount to at the moment it is popped. */
  ghost function ItemOf(d: N2hDesc, pullable: bool): (x: Item)
    reads if d.cookie.SkbAddress? then {d.cookie.skb} else {}
    ensures ItemOk(x) && LoneDispatched(x)
  {
    if d.bufferType == BUFFER_CRYPTO_RESP then CryptoResp(d.cookie, d.buffer, d.payloadLen)
    else if d.cookie.Other? then BadPointer
    else
      var skb := d.cookie.skb;
      if IsLone(d.bufferType) then Lone(skb, d.bufferType)
      else Piece(|skb.frags| > 0, skb, d.bufferType, d.first, d.last, d.payloadLen, d.payloadOffs,
                 skb.frags, skb.truesize, skb.fragList != null, pullable)
  }

  predicate IsLone(bufferType: nat) {
    bufferType == BUFFER_EMPTY || bufferType == BUFFER_BOUNCED_INTERFACE || bufferType == BUFFER_BOUNCED_BRIDGE
  }

  ghost predicate ItemOk(x: Item) {
    x.Piece? ==> (x.paged <==> |x.frags| > 0)
  }

  ghost predicate PieceOk(x: Item, paged: bool) {
    x.Piece? && x.paged == paged && ItemOk(x)
  }

  ghost predicate FrameOk(frame: seq<Item>, paged: bool) {
    forall i :: 0 <= i < |frame| ==> PieceOk(frame[i], paged)
  }

  // ---------------------------------------------------------------- shapes in the heap

  /** Payload bytes of a frame. */
  function Bytes(frame: seq<Item>): nat
    requires forall i :: 0 <= i < |frame| ==> frame[i].Piece?
  {
    if frame == [] then 0 else Bytes(frame[..|frame| - 1]) + frame[|frame| - 1].len
  }

  ghost function Objects(frame: seq<Item>): set<SkBuff>
    requires forall i :: 0 <= i < |frame| ==> frame[i].Piece?
  {
    set i | 0 <= i < |frame| :: frame[i].skb
  }

  /**
   A linear chain under construction: `head` is the first piece and accounts for all bytes,
   its frag_list leads through the later pieces in order of arrival, ending at `tail`, and the
   data of every piece starts where its descriptor said.
   */
  ghost predicate LinearChain(frame: seq<Item>, head: SkBuff?, tail: SkBuff?)
    requires FrameOk(frame, false)
    reads Objects(frame)
  {
    if frame == [] then head == null
    else head == frame[0].skb && Linked(frame, tail) && Accounted(frame)
  }

  ghost predicate Linked(frame: seq<Item>, tail: SkBuff?)
    requires FrameOk(frame, false) && frame != []
    reads Objects(frame)
  {
    && frame[0].skb.fragList == (if |frame| > 1 then frame[1].skb else null)
    && (|frame| > 1 ==> tail == frame[|frame| - 1].skb && tail.next == null)
    && (forall i :: 1 <= i < |frame| - 1 ==> frame[i].skb.next == frame[i + 1].skb)
    && (forall i, j :: 0 <= i < j < |frame| ==> frame[i].skb != frame[j].skb)
  }

  ghost predicate Accounted(frame: seq<Item>)
    requires FrameOk(frame, false) && frame != []
    reads Objects(frame)
  {
    var head := frame[0].skb;
    && head.len == U32(Bytes(frame))
    && head.truesize == U32(Bytes(frame))
    && head.dataLen == U32(Bytes(frame) - frame[0].len)
    && (forall i :: 1 <= i < |frame| ==> frame[i].skb.len == frame[i].len)
    && (forall i :: 0 <= i < |frame| ==> frame[i].skb.dataOffs == frame[i].offs)
  }

  /** The page fragments a paged frame collects: each piece's page at the offset and length the descriptor gave. */
  ghost function PageFrags(frame: seq<Item>): seq<Frag>
    requires FrameOk(frame, true) && frame != []
  {
    var x := frame[|frame| - 1];
    var f := Frag(x.frags[0].page, x.offs, x.len);
    if |frame| == 1 then x.frags[0 := f] else PageFrags(frame[..|frame| - 1]) + [f]
  }

  /** Told by position: the first buffer's own fragments, the first as its descriptor has it, then one per piece. */
  lemma {:induction false} PageFragsAt(frame: seq<Item>)
    requires FrameOk(frame, true) && frame != []
    ensures var f, n := PageFrags(frame), |frame[0].frags|;
            && |f| == n + |frame| - 1
            && f[0] == Frag(frame[0].frags[0].page, frame[0].offs, frame[0].len)
            && (forall i :: 1 <= i < n ==> f[i] == frame[0].frags[i])
            && (forall i :: 1 <= i < |frame| ==>
                 f[n + i - 1] == Frag(frame[i].frags[0].page, frame[i].offs, frame[i].len))
  {
    if |frame| > 1 {
      var init := frame[..|frame| - 1];
      PageFragsAt(init);
      assert forall i :: 0 <= i < |init| ==> init[i] == frame[i];
    }
  }

  /** The first buffer's own size and a page for every later piece. */
  lemma {:induction false} PageTruesizeIs(frame: seq<Item>)
    requires FrameOk(frame, true) && frame != []
    ensures |frame| == 1 ==> PageTruesize(frame) == frame[0].truesize
    ensures U32(PageTruesize(frame)) == U32(frame[0].truesize + PAGE_SIZE * (|frame| - 1))
  {
    if |frame| > 1 {
      PageTruesizeIs(frame[..|frame| - 1]);
      U32Add(PageTruesize(frame[..|frame| - 1]), PAGE_SIZE);
      U32Add(frame[0].truesize + PAGE_SIZE * (|frame| - 2), PAGE_SIZE);
    }
  }

  ghost function PageTruesize(frame: seq<Item>): nat
    requires FrameOk(frame, true) && frame != []
  {
    if |frame| == 1 then frame[0].truesize else U32(PageTruesize(frame[..|frame| - 1]) + PAGE_SIZE)
  }

  ghost predicate PagedChain(frame: seq<Item>, start: SkBuff?)
    requires FrameOk(frame, true)
    reads Objects(frame)
  {
    if frame == [] then start == null else start == frame[0].skb && Collected(frame)
  }

  ghost predicate Collected(frame: seq<Item>)
    requires FrameOk(frame, true) && frame != []
    reads Objects(frame)
  {
    var start := frame[0].skb;
    && start.frags == PageFrags(frame)
    && start.len == U32(Bytes(frame))
    && start.dataLen == U32(Bytes(frame))
    && start.truesize == PageTruesize(frame)
  }

  /** A frame ready to be handed up. */
  ghost predicate Complete(frame: seq<Item>, nbuf: SkBuff)
    reads set i | 0 <= i < |frame| && frame[i].Piece? :: frame[i].skb
  {
    && frame != [] && frame[0].Piece? && FrameOk(frame, frame[0].paged)
    && (if frame[0].paged then PagedChain(frame, nbuf)
        else if |frame| == 1 then nbuf == frame[0].skb && nbuf.len == frame[0].len && nbuf.dataOffs == frame[0].offs
        else LinearChain(frame, nbuf, frame[|frame| - 1].skb))
  }

  lemma BytesAppend(frame: seq<Item>, x: Item)
    requires x.Piece? && forall i :: 0 <= i < |frame| ==> frame[i].Piece?
    ensures Bytes(frame + [x]) == Bytes(frame) + x.len
  {
    assert (frame + [x])[..|frame|] == frame;
  }

  /** One more piece of a paged frame. */
  lemma PagesGrow(frame: seq<Item>, x: Item)
    requires FrameOk(frame, true) && frame != [] && PieceOk(x, true)
    ensures FrameOk(frame + [x], true) && (frame + [x])[0] == frame[0]
    ensures PageFrags(frame + [x]) == PageFrags(frame) + [Frag(x.frags[0].page, x.offs, x.len)]
    ensures PageTruesize(frame + [x]) == U32(PageTruesize(frame) + PAGE_SIZE)
    ensures U32(Bytes(frame + [x])) == U32(U32(Bytes(frame)) + x.len)
  {
    assert (frame + [x])[..|frame|] == frame;
    BytesAppend(frame, x);
    U32Add(Bytes(frame), x.len);
  }

  /** The buffers of the open chains. */
  ghost function OpenSkbs(s: Asm): set<SkBuff> {
    (set i | 0 <= i < |s.head| && s.head[i].Piece? :: s.head[i].skb)
    + (set i | 0 <= i < |s.jumbo| && s.jumbo[i].Piece? :: s.jumbo[i].skb)
  }

  /** What collecting one paged piece does: the frame still open, a frame now whole, and what is freed. */
  datatype Collection = Collection(left: seq<Item>, whole: seq<Item>, events: seq<Event>)

  ghost function Collect(frame: seq<Item>, x: Item): Collection
    requires FrameOk(frame, true) && PieceOk(x, true)
  {
    if x.first && x.last then Collection([], [x], Drop(frame))
    else if x.first then Collection([x], [], Drop(frame))
    else if frame == [] then Collection([], [], [Freed([x.skb])])
    else if x.last then Collection([], frame + [x], [Freed([x.skb])])
    else Collection(frame + [x], [], [Freed([x.skb])])
  }

  /** The automaton's paged step is collecting, and then handing up or freeing a frame that is whole. */
  lemma StepIsCollect(frame: seq<Item>, x: Item)
    requires FrameOk(frame, true) && PieceOk(x, true)
    ensures var o, c := StepPaged(frame, x), Collect(frame, x);
            && o.asm.jumbo == c.left
            && (HandsUp(o.events) <==> c.whole != [] && !(x.bufferType != BUFFER_STATUS && !x.pullable))
            && (HandsUp(o.events) ==> LastFrame(o.events) == c.whole && Before(o.events) == c.events)
            && (c.whole == [] ==> o.events == c.events)
            && (c.whole != [] ==> c.whole[0].Piece?)
            && (c.whole != [] && !HandsUp(o.events) ==> CallsOf(o.events) == CallsOf(c.events) + [Free(c.whole[0].skb)])
  {
    var c := Collect(frame, x);
    if c.whole != [] && x.bufferType != BUFFER_STATUS && !x.pullable {
      assert StepPaged(frame, x).events == c.events + [Freed(Owned(c.whole))];
      CallsAppend(c.events, Freed(Owned(c.whole)));
    }
  }

  /** A frame handed up keeps the type of its last piece; what stays open is made of what was open and the piece. */
  lemma PagedOutcome(jumbo: seq<Item>, x: Item)
    requires Uniform(jumbo, true) && x.Piece? && x.paged
    ensures var o := StepPaged(jumbo, x);
            && (HandsUp(o.events) ==> o.events[|o.events| - 1].bufferType == x.bufferType)
            && Objects(o.asm.jumbo) <= Objects(jumbo) + {x.skb}
  {
  }

  lemma LinearOutcome(head: seq<Item>, x: Item)
    requires Uniform(head, false) && x.Piece? && !x.paged
    ensures var o := StepLinear(head, x);
            && (HandsUp(o.events) ==> o.events[|o.events| - 1].bufferType == x.bufferType)
            && Objects(o.asm.head) <= Objects(head) + {x.skb}
  {
  }

  /** A complete frame goes by its first buffer. */
  lemma CompleteFirst(frame: seq<Item>, nbuf: SkBuff)
    requires Complete(frame, nbuf)
    ensures frame != [] && frame[0].Piece? && nbuf == frame[0].skb
  {
  }

  lemma WholeAfterDrop(frame: seq<Item>, es: seq<Event>)
    requires forall i :: 0 <= i < |frame| ==> frame[i].Piece?
    requires LeavesWhole(es)
    ensures LeavesWhole(Drop(frame) + es)
  {
    hide Complete;
    CallsAfterDrop(frame, es);
  }

  lemma LinkedTail(frame: seq<Item>, tail: SkBuff?)
    requires FrameOk(frame, false) && |frame| > 1 && Linked(frame, tail)
    ensures tail == frame[|frame| - 1].skb
  {
  }

  // ---------------------------------------------------------------- the handlers

  /** What the ring code calls for a buffer: the allocator, the consumers of frames, the crypto driver. */
  class Outlet {
    var calls: seq<Call>

    constructor ()
      ensures calls == []
    {
      calls := [];
    }

    /** dev_kfree_skb_any; a chain is freed through its first buffer. */
    method Free(skb: SkBuff)
      modifies this
      ensures calls == old(calls) + [Call.Free(skb)]
    {
      calls := calls + [Call.Free(skb)];
    }

    /** nss_crypto_buf_handler */
    method Crypto(cookie: Cookie, buffer: nat, len: nat)
      modifies this
      ensures calls == old(calls) + [CryptoHandler(cookie, buffer, len)]
    {
      calls := calls + [CryptoHandler(cookie, buffer, len)];
    }

    /** nss_core_rx_pbuf */
    method RxPbuf(nbuf: SkBuff, bufferType: nat)
      modifies this
      ensures calls == old(calls) + RxCalls(nbuf, bufferType)
      ensures (bufferType == BUFFER_PACKET || bufferType == BUFFER_PACKET_EXT || bufferType == BUFFER_PACKET_VIRTUAL
               || bufferType == BUFFER_BOUNCED_INTERFACE || bufferType == BUFFER_BOUNCED_BRIDGE) ==>
                calls == old(calls) + [HandOn(nbuf, bufferType)]
      ensures bufferType == BUFFER_STATUS ==> calls == old(calls) + [StatusHandler(nbuf), Call.Free(nbuf)]
      ensures bufferType == BUFFER_EMPTY ==> calls == old(calls) + [Call.Free(nbuf)]
      ensures (bufferType != BUFFER_PACKET && bufferType != BUFFER_PACKET_EXT && bufferType != BUFFER_PACKET_VIRTUAL
               && bufferType != BUFFER_BOUNCED_INTERFACE && bufferType != BUFFER_BOUNCED_BRIDGE
               && bufferType != BUFFER_STATUS && bufferType != BUFFER_EMPTY) ==> calls == old(calls)
    {
      if bufferType == BUFFER_BOUNCED_INTERFACE || bufferType == BUFFER_BOUNCED_BRIDGE
         || bufferType == BUFFER_PACKET_VIRTUAL || bufferType == BUFFER_PACKET || bufferType == BUFFER_PACKET_EXT {
        calls := calls + [HandOn(nbuf, bufferType)];
      } else if bufferType == BUFFER_STATUS {
        calls := calls + [StatusHandler(nbuf)];
        Free(nbuf);
      } else if bufferType == BUFFER_EMPTY {
        Free(nbuf);
      }
    }
  }

  class Receiver {
    const out: Outlet
    var head: SkBuff?
    var tail: SkBuff?
    var jumboStart: SkBuff?

    constructor ()
      ensures head == null && jumboStart == null && out.calls == [] && fresh(out)
    {
      out := new Outlet();
      head, tail, jumboStart := null, null, null;
    }

    /** The heap holds the chains the automaton says are open. */
    ghost predicate Holds(s: Asm)
      reads this, OpenSkbs(s)
    {
      && Sound(s) && FrameOk(s.head, false) && FrameOk(s.jumbo, true)
      && LinearChain(s.head, head, tail) && PagedChain(s.jumbo, jumboStart)
    }

    /** dev_kfree_skb_any on the open linear chain, if there is one. */
    method FreeHead(ghost frame: seq<Item>)
      requires FrameOk(frame, false) && LinearChain(frame, head, tail)
      modifies this`head, out
      ensures head == null && out.calls == old(out.calls) + CallsOf(Drop(frame))
    {
      CallsDrop(frame);
      if head != null {
        out.Free(head);
        head := null;
      }
    }

    method FreeJumbo(ghost frame: seq<Item>)
      requires FrameOk(frame, true) && PagedChain(frame, jumboStart)
      modifies this`jumboStart, out
      ensures jumboStart == null && out.calls == old(out.calls) + CallsOf(Drop(frame))
    {
      CallsDrop(frame);
      if jumboStart != null {
        out.Free(jumboStart);
        jumboStart := null;
      }
    }

    /** Puts a later piece at the end of the frag_list. */
    method Link(nbuf: SkBuff, first: SkBuff, ghost frame: seq<Item>, ghost x: Item)
      requires FrameOk(frame, false) && PieceOk(x, false) && frame != [] && first == frame[0].skb
      requires Linked(frame, tail) && x.skb == nbuf && nbuf !in Objects(frame)
      modifies nbuf`next, Objects(frame)`next, first`fragList, this`tail
      ensures Linked(frame + [x], tail)
    {
      if first.fragList == null {
        nbuf.next := first.fragList;
        first.fragList := nbuf;
      } else {
        tail.next := nbuf;
        nbuf.next := null;
      }
      tail := nbuf;
    }

    /** Adds the piece to the lengths the first buffer keeps for the whole chain. */
    method Account(first: SkBuff, payloadLen: nat, ghost frame: seq<Item>, ghost x: Item)
      requires FrameOk(frame, false) && PieceOk(x, false) && frame != [] && first == frame[0].skb
      requires Accounted(frame) && x.len == payloadLen == x.skb.len && x.skb.dataOffs == x.offs
      requires forall i :: 1 <= i < |frame| ==> frame[i].skb != first
      requires x.skb != first
      modifies first`len, first`dataLen, first`truesize
      ensures Accounted(frame + [x])
    {
      U32Add(Bytes(frame), payloadLen);
      U32Add(Bytes(frame) - frame[0].len, payloadLen);
      BytesAppend(frame, x);
      first.dataLen := U32(first.dataLen + payloadLen);
      first.len := U32(first.len + payloadLen);
      first.truesize := U32(first.truesize + payloadLen);
    }

    /** Attaches a later piece to the open linear chain. */
    method Attach(nbuf: SkBuff, first: SkBuff, payloadLen: nat, ghost frame: seq<Item>, ghost x: Item)
      requires FrameOk(frame, false) && PieceOk(x, false)
      requires frame != [] && LinearChain(frame, head, tail) && first == head
      requires x.skb == nbuf && x.len == payloadLen == nbuf.len && nbuf.dataOffs == x.offs
      requires nbuf !in Objects(frame)
      modifies nbuf, Objects(frame), this`tail
      ensures LinearChain(frame + [x], head, tail)
    {
      Link(nbuf, first, frame, x);
      Account(first, payloadLen, frame, x);
    }

    /** Makes a first piece the head of a new linear chain. */
    method StartChain(nbuf: SkBuff, payloadLen: nat, ghost x: Item)
      requires PieceOk(x, false) && x.skb == nbuf && x.len == payloadLen == nbuf.len < 0x1_0000
      requires nbuf.dataOffs == x.offs
      modifies nbuf, this`head
      ensures LinearChain([x], head, tail)
    {
      nbuf.fragList := null;
      nbuf.dataLen := 0;
      nbuf.truesize := payloadLen;
      head := nbuf;
      assert [x][..0] == [];
      assert Bytes([x]) == x.len;
    }

    /** A first piece of a longer frame: it replaces an open chain, unless it is a chain itself. */
    method FirstLinear(nbuf: SkBuff, payloadLen: nat, ghost frame: seq<Item>, ghost x: Item)
      requires FrameOk(frame, false) && LinearChain(frame, head, tail) && PieceOk(x, false)
      requires x.skb == nbuf && x.first && !x.last && x.len == payloadLen == nbuf.len < 0x1_0000
      requires x.chained == (nbuf.fragList != null) && nbuf !in Objects(frame) && nbuf.dataOffs == x.offs
      modifies this`head, nbuf, out
      ensures var o := StepLinear(frame, x);
              && FrameOk(o.asm.head, false) && LinearChain(o.asm.head, head, tail)
              && out.calls == old(out.calls) + CallsOf(o.events)
    {
      hide CallsOf, Drop, Linked, Accounted;
      CallsDrop(frame);
      CallsConcat(Drop(frame), [Freed([nbuf])]);
      CallsOne(Freed([nbuf]));
      if nbuf.fragList != null {
        if head != null {
          out.Free(head);
        }
        out.Free(nbuf);
      } else {
        FreeHead(frame);
        StartChain(nbuf, payloadLen, x);
      }
    }

    /** nss_core_handle_linear_skb. The result is non-null exactly when a frame is complete: that frame. */
    method HandleLinear(nbuf: SkBuff, d: N2hDesc, ghost frame: seq<Item>, ghost x: Item) returns (done: SkBuff?)
      requires FrameOk(frame, false) && LinearChain(frame, head, tail) && PieceOk(x, false)
      requires x.skb == nbuf && x.first == d.first && x.last == d.last && x.len == d.payloadLen < 0x1_0000
      requires x.offs == d.payloadOffs && x.chained == (nbuf.fragList != null)
      requires nbuf !in Objects(frame)
      modifies this`head, this`tail, nbuf, Objects(frame), out
      ensures var o := StepLinear(frame, x);
              && FrameOk(o.asm.head, false) && LinearChain(o.asm.head, head, tail)
              && (done != null <==> HandsUp(o.events))
              && (done != null ==> Complete(LastFrame(o.events), done))
              && out.calls == old(out.calls) + CallsOf(Before(o.events))
    {
      hide Linked, Accounted, CallsOf;
      CallsOne(Freed([nbuf]));
      NoCalls();
      nbuf.dataOffs := d.payloadOffs;
      nbuf.len := d.payloadLen;
      if d.first && d.last {
        FreeHead(frame);
        return nbuf;
      }
      if d.first {
        FirstLinear(nbuf, d.payloadLen, frame, x);
        return null;
      }
      if head == null {
        out.Free(nbuf);
        return null;
      }
      Attach(nbuf, head, d.payloadLen, frame, x);
      if !d.last {
        return null;
      }
      LinkedTail(frame + [x], tail);
      done := head;
      head, tail := null, null;
    }

    /** __skb_fill_page_desc on fragment 0, then the lengths of a one-piece paged frame. */
    method StartPaged(nbuf: SkBuff, d: N2hDesc, ghost x: Item)
      requires PieceOk(x, true) && x.skb == nbuf && x.frags == nbuf.frags && x.truesize == nbuf.truesize
      requires x.offs == d.payloadOffs && x.len == d.payloadLen < 0x1_0000
      modifies nbuf
      ensures PagedChain([x], nbuf)
    {
      nbuf.frags := nbuf.frags[0 := Frag(nbuf.frags[0].page, d.payloadOffs, d.payloadLen)];
      nbuf.dataLen := d.payloadLen;
      nbuf.len := d.payloadLen;
      assert [x][..0] == [];
      assert Bytes([x]) == x.len;
    }

    /** skb_add_rx_frag: the piece's page becomes one more fragment of the first buffer. */
    method AddRxFrag(start: SkBuff, nbuf: SkBuff, d: N2hDesc, ghost frame: seq<Item>, ghost x: Item)
      requires FrameOk(frame, true) && frame != [] && PagedChain(frame, start) && PieceOk(x, true)
      requires x.skb == nbuf && x.frags == nbuf.frags && x.offs == d.payloadOffs && x.len == d.payloadLen
      modifies start
      ensures PagedChain(frame + [x], start)
    {
      hide U32, PageFrags, PageTruesize, Bytes;
      PagesGrow(frame, x);
      start.frags := start.frags + [Frag(nbuf.frags[0].page, d.payloadOffs, d.payloadLen)];
      start.len := U32(start.len + d.payloadLen);
      start.dataLen := U32(start.dataLen + d.payloadLen);
      start.truesize := U32(start.truesize + PAGE_SIZE);
    }

    /** Takes one piece of a paged frame; the result is the frame if the piece was its last. */
    method CollectPaged(nbuf: SkBuff, d: N2hDesc, ghost frame: seq<Item>, ghost x: Item) returns (whole: SkBuff?)
      requires FrameOk(frame, true) && PagedChain(frame, jumboStart) && PieceOk(x, true)
      requires x.skb == nbuf && x.first == d.first && x.last == d.last && x.len == d.payloadLen < 0x1_0000
      requires x.offs == d.payloadOffs && x.frags == nbuf.frags && x.truesize == nbuf.truesize
      requires nbuf !in Objects(frame)
      modifies this`jumboStart, nbuf, Objects(frame), out
      ensures var c := Collect(frame, x);
              && FrameOk(c.left, true) && PagedChain(c.left, jumboStart)
              && (whole != null <==> c.whole != [])
              && (whole != null ==> Complete(c.whole, whole))
              && out.calls == old(out.calls) + CallsOf(c.events)
    {
      hide CallsOf, U32, PageFrags, PageTruesize, Bytes, Drop;
      CallsOne(Freed([nbuf]));
      NoCalls();
      whole := null;
      if d.first {
        FreeJumbo(frame);
        StartPaged(nbuf, d, x);
        if d.last {
          whole := nbuf;
        } else {
          jumboStart := nbuf;
        }
      } else if jumboStart == null {
        out.Free(nbuf);
      } else {
        AddRxFrag(jumboStart, nbuf, d, frame, x);
        out.Free(nbuf);
        if d.last {
          whole := jumboStart;
          jumboStart := null;
        }
      }
    }

    /** nss_core_handle_nr_frag_skb. The result is non-null exactly when a frame is complete and has its header. */
    method HandlePaged(nbuf: SkBuff, d: N2hDesc, pullable: bool, ghost frame: seq<Item>, ghost x: Item)
      returns (done: SkBuff?)
      requires FrameOk(frame, true) && PagedChain(frame, jumboStart) && PieceOk(x, true)
      requires x.skb == nbuf && x.first == d.first && x.last == d.last && x.len == d.payloadLen < 0x1_0000
      requires x.offs == d.payloadOffs && x.frags == nbuf.frags && x.truesize == nbuf.truesize
      requires x.bufferType == d.bufferType && x.pullable == pullable
      requires nbuf !in Objects(frame)
      modifies this`jumboStart, nbuf, Objects(frame), out
      ensures var o := StepPaged(frame, x);
              && FrameOk(o.asm.jumbo, true) && PagedChain(o.asm.jumbo, jumboStart)
              && (done != null <==> HandsUp(o.events))
              && (done != null ==> Complete(LastFrame(o.events), done))
              && out.calls == old(out.calls) + CallsOf(Before(o.events))
    {
      hide CallsOf, StepPaged, Collect;
      StepIsCollect(frame, x);
      done := CollectPaged(nbuf, d, frame, x);
      if done != null && d.bufferType != BUFFER_STATUS && !pullable {
        out.Free(done);
        done := null;
      }
    }

    /** nss_core_rx_pbuf for the frame that a handler returned, if it returned one. */
    method PassUp(done: SkBuff?, bufferType: nat, ghost es: seq<Event>)
      requires done != null <==> HandsUp(es)
      requires done != null ==> Complete(LastFrame(es), done) && es[|es| - 1].bufferType == bufferType
      modifies out
      ensures LeavesWhole(es)
      ensures out.calls == old(out.calls) + if HandsUp(es) then CallsFor(es[|es| - 1]) else []
    {
      if done != null {
        CompleteFirst(LastFrame(es), done);
        out.RxPbuf(done, bufferType);
      }
    }

    /** A paged piece, up to nss_core_rx_pbuf. */
    method TakePaged(nbuf: SkBuff, d: N2hDesc, pullable: bool, ghost frame: seq<Item>, ghost x: Item)
      requires FrameOk(frame, true) && PagedChain(frame, jumboStart) && PieceOk(x, true)
      requires x == ItemOf(d, pullable) && d.cookie == SkbAddress(nbuf) && d.payloadLen < 0x1_0000
      requires nbuf !in Objects(frame)
      modifies this`jumboStart, nbuf, Objects(frame), out
      ensures var o := StepPaged(frame, x);
              && FrameOk(o.asm.jumbo, true) && PagedChain(o.asm.jumbo, jumboStart)
              && LeavesWhole(o.events) && out.calls == old(out.calls) + CallsOf(o.events)
    {
      hide Collected, StepPaged, CallsOf, CallsFor, Before, HandsUp, LeavesWhole, Complete;
      ghost var es := StepPaged(frame, x).events;
      CallsSplit(es);
      PagedOutcome(frame, x);
      var done := HandlePaged(nbuf, d, pullable, frame, x);
      PassUp(done, d.bufferType, es);
    }

    /** A linear piece, up to nss_core_rx_pbuf. */
    method TakeLinear(nbuf: SkBuff, d: N2hDesc, pullable: bool, ghost frame: seq<Item>, ghost x: Item)
      requires FrameOk(frame, false) && LinearChain(frame, head, tail) && PieceOk(x, false)
      requires x == ItemOf(d, pullable) && d.cookie == SkbAddress(nbuf) && d.payloadLen < 0x1_0000
      requires nbuf !in Objects(frame)
      modifies this`head, this`tail, nbuf, Objects(frame), out
      ensures var o := StepLinear(frame, x);
              && FrameOk(o.asm.head, false) && LinearChain(o.asm.head, head, tail)
              && LeavesWhole(o.events) && out.calls == old(out.calls) + CallsOf(o.events)
    {
      hide Linked, Accounted, StepLinear, CallsOf, CallsFor, Before, HandsUp, LeavesWhole, Complete;
      ghost var es := StepLinear(frame, x).events;
      CallsSplit(es);
      LinearOutcome(frame, x);
      var done := HandleLinear(nbuf, d, frame, x);
      PassUp(done, d.bufferType, es);
    }

    /** A paged piece; an open linear chain is given up first. */
    method ConsumePaged(nbuf: SkBuff, d: N2hDesc, pullable: bool, ghost s: Asm, ghost x: Item)
      requires Holds(s) && x.Piece? && x.paged && d.cookie == SkbAddress(nbuf) && x == ItemOf(d, pullable)
      requires d.payloadLen < 0x1_0000
      requires nbuf !in Objects(s.head) && nbuf !in Objects(s.jumbo)
      modifies this, nbuf, Objects(s.jumbo), out
      ensures var o := Step(s, x);
              && FrameOk(o.asm.head, false) && LinearChain(o.asm.head, head, tail)
              && FrameOk(o.asm.jumbo, true) && PagedChain(o.asm.jumbo, jumboStart)
              && LeavesWhole(o.events) && out.calls == old(out.calls) + CallsOf(o.events)
    {
      hide Linked, Accounted, StepPaged, CallsOf, HandsUp, LeavesWhole, Drop;
      CallsAfterDrop(s.head, StepPaged(s.jumbo, x).events);
      FreeHead(s.head);
      TakePaged(nbuf, d, pullable, s.jumbo, x);
      WholeAfterDrop(s.head, StepPaged(s.jumbo, x).events);
    }

    /** A linear piece; an open paged frame is given up first. */
    method ConsumeLinear(nbuf: SkBuff, d: N2hDesc, pullable: bool, ghost s: Asm, ghost x: Item)
      requires Holds(s) && x.Piece? && !x.paged && d.cookie == SkbAddress(nbuf) && x == ItemOf(d, pullable)
      requires d.payloadLen < 0x1_0000
      requires nbuf !in Objects(s.head) && nbuf !in Objects(s.jumbo)
      modifies this, nbuf, Objects(s.head), out
      ensures var o := Step(s, x);
              && FrameOk(o.asm.head, false) && LinearChain(o.asm.head, head, tail)
              && FrameOk(o.asm.jumbo, true) && PagedChain(o.asm.jumbo, jumboStart)
              && LeavesWhole(o.events) && out.calls == old(out.calls) + CallsOf(o.events)
    {
      hide Collected, StepLinear, CallsOf, HandsUp, LeavesWhole, Drop;
      CallsAfterDrop(s.jumbo, StepLinear(s.head, x).events);
      FreeJumbo(s.jumbo);
      TakeLinear(nbuf, d, pullable, s.head, x);
      WholeAfterDrop(s.jumbo, StepLinear(s.head, x).events);
    }

    /** One turn of the consumer loop. */
    method Consume(d: N2hDesc, pullable: bool, ghost s: Asm)
      requires Holds(s) && d.payloadLen < 0x1_0000
      requires d.cookie.SkbAddress? ==> d.cookie.skb !in Objects(s.head) && d.cookie.skb !in Objects(s.jumbo)
      modifies this, (if d.cookie.SkbAddress? then {d.cookie.skb} else {}), Objects(s.head), Objects(s.jumbo), out
      ensures var o := Step(s, old(ItemOf(d, pullable)));
              Holds(o.asm) && LeavesWhole(o.events) && out.calls == old(out.calls) + CallsOf(o.events)
    {
      hide StepPaged, StepLinear, CallsOf, HandsUp, LeavesWhole;
      if d.bufferType == BUFFER_CRYPTO_RESP {
        out.Crypto(d.cookie, d.buffer, d.payloadLen);
        AloneLeaves(CryptoDone(d.cookie, d.buffer, d.payloadLen));
      } else if d.cookie.Other? {
        NothingLeaves();
      } else if IsLone(d.bufferType) {
        out.RxPbuf(d.cookie.skb, d.bufferType);
        AloneLeaves(RxLone(d.cookie.skb, d.bufferType));
      } else if |d.cookie.skb.frags| > 0 {
        ConsumePaged(d.cookie.skb, d, pullable, s, ItemOf(d, pullable));
      } else {
        ConsumeLinear(d.cookie.skb, d, pullable, s, ItemOf(d, pullable));
      }
    }
  }

  lemma NothingLeaves()
    ensures CallsOf([]) == [] && LeavesWhole([])
  {
  }

  lemma AloneLeaves(e: Event)
    requires !e.Rx?
    ensures CallsOf([e]) == CallsFor(e) && LeavesWhole([e])
  {
    CallsOne(e);
  }

  /** A frame that leaves with these events is complete, and leaves through its first buffer. */
  ghost predicate LeavesWhole(es: seq<Event>)
    reads if HandsUp(es) then set i | 0 <= i < |LastFrame(es)| && LastFrame(es)[i].Piece? :: LastFrame(es)[i].skb
          else {}
  {
    HandsUp(es) ==> var f := LastFrame(es); f != [] && f[0].Piece? && Complete(f, f[0].skb)
  }

  // ---------------------------------------------------------------- the ring

  /** The item logged for a descriptor agrees with it. */
  ghost predicate Matches(x: Item, d: N2hDesc) {
    if d.bufferType == BUFFER_CRYPTO_RESP then x == CryptoResp(d.cookie, d.buffer, d.payloadLen)
    else if d.cookie.Other? then x == BadPointer
    else if IsLone(d.bufferType) then x == Lone(d.cookie.skb, d.bufferType)
    else
      && x.Piece? && ItemOk(x) && x.skb == d.cookie.skb && x.bufferType == d.bufferType
      && x.first == d.first && x.last == d.last && x.len == d.payloadLen && x.offs == d.payloadOffs
  }

  /** What a descriptor is taken for, by its type and what it names. */
  lemma KindOf(x: Item, d: N2hDesc)
    requires Matches(x, d)
    ensures x.CryptoResp? <==> d.bufferType == BUFFER_CRYPTO_RESP
    ensures x.BadPointer? <==> d.bufferType != BUFFER_CRYPTO_RESP && d.cookie.Other?
    ensures x.Lone? <==> && d.cookie.SkbAddress?
                         && (d.bufferType == BUFFER_EMPTY || d.bufferType == BUFFER_BOUNCED_INTERFACE
                             || d.bufferType == BUFFER_BOUNCED_BRIDGE)
    ensures x.Lone? || x.Piece? ==> x.skb == d.cookie.skb && x.bufferType == d.bufferType
    ensures x.Piece? ==> x.first == d.first && x.last == d.last && x.len == d.payloadLen && x.offs == d.payloadOffs
  {
  }

  /** The crypto responses among some descriptors, as calls of the crypto driver. */
  function CryptoOf(ds: seq<N2hDesc>): seq<Call> {
    if ds == [] then []
    else
      var before, d := CryptoOf(ds[..|ds| - 1]), ds[|ds| - 1];
      if d.bufferType == BUFFER_CRYPTO_RESP then before + [CryptoHandler(d.cookie, d.buffer, d.payloadLen)] else before
  }

  lemma {:induction false} ResponsesOf(xs: seq<Item>, ds: seq<N2hDesc>)
    requires MatchAll(xs, ds)
    ensures CryptoResponses(xs) == CryptoOf(ds[..|xs|])
  {
    if xs != [] {
      var init := xs[..|xs| - 1];
      ResponsesOf(init, ds);
      assert Matches(xs[|init|], ds[|init|]);
      assert ds[..|xs|][..|init|] == ds[..|init|];
    }
  }

  lemma WholeCompletes(xs: seq<Item>, x: Item)
    requires x.Piece? && x.first && x.last && (x.paged ==> x.pullable)
    ensures Completes(xs, x, FrameFrom(xs, x, |xs|))
  {
  }

  ghost predicate MatchAll(items: seq<Item>, ds: seq<N2hDesc>) {
    && |items| <= |ds|
    && forall k :: 0 <= k < |items| ==> Matches(items[k], ds[k])
  }

  /** The firmware returns each buffer once, and lengths are 16 bits wide. */
  ghost predicate WellBehaved(ds: seq<N2hDesc>) {
    && (forall k :: 0 <= k < |ds| ==> ds[k].payloadLen < 0x1_0000)
    && (forall i, j :: 0 <= i < j < |ds| && ds[i].cookie.SkbAddress? && ds[j].cookie.SkbAddress? ==>
         ds[i].cookie != ds[j].cookie)
  }

  ghost function SkbsOf(ds: seq<N2hDesc>): set<SkBuff> {
    set k | 0 <= k < |ds| && ds[k].cookie.SkbAddress? :: ds[k].cookie.skb
  }

  ghost predicate From(frame: seq<Item>, paged: bool, pool: set<SkBuff>) {
    FrameOk(frame, paged) && forall i :: 0 <= i < |frame| ==> frame[i].skb in pool
  }

  lemma StepFrom(s: Asm, x: Item, pool: set<SkBuff>)
    requires Sound(s) && From(s.head, false, pool) && From(s.jumbo, true, pool)
    requires x.Piece? ==> ItemOk(x) && x.skb in pool
    ensures var o := Step(s, x).asm;
            From(o.head, false, pool) && From(o.jumbo, true, pool)
  {
  }

  lemma PoolGrows(ds: seq<N2hDesc>, n: nat)
    requires n < |ds|
    ensures SkbsOf(ds[..n]) <= SkbsOf(ds[..n + 1])
    ensures ds[n].cookie.SkbAddress? ==> ds[n].cookie.skb in SkbsOf(ds[..n + 1])
  {
    assert forall k :: 0 <= k < n ==> ds[..n][k] == ds[..n + 1][k];
    assert ds[..n + 1][n] == ds[n];
  }

  /** Every open piece was popped from the ring, in one of the frame's two kinds. */
  lemma {:induction false} OpenPiecesPopped(xs: seq<Item>, ds: seq<N2hDesc>)
    requires MatchAll(xs, ds)
    ensures var s := Run(xs).asm;
            From(s.head, false, SkbsOf(ds[..|xs|])) && From(s.jumbo, true, SkbsOf(ds[..|xs|]))
  {
    if xs != [] {
      var init, x := xs[..|xs| - 1], xs[|xs| - 1];
      OpenPiecesPopped(init, ds);
      PoolGrows(ds, |init|);
      assert Matches(x, ds[|init|]);
      StepFrom(Run(init).asm, x, SkbsOf(ds[..|xs|]));
    }
  }

  /** A descriptor still waiting names a buffer that no open chain contains. */
  lemma PendingNotOpen(xs: seq<Item>, ds: seq<N2hDesc>, k: nat)
    requires MatchAll(xs, ds) && WellBehaved(ds) && |xs| <= k < |ds| && ds[k].cookie.SkbAddress?
    ensures var s := Run(xs).asm;
            && FrameOk(s.head, false) && FrameOk(s.jumbo, true)
            && ds[k].cookie.skb !in Objects(s.head) && ds[k].cookie.skb !in Objects(s.jumbo)
  {
    OpenPiecesPopped(xs, ds);
    assert ds[k].cookie.skb !in SkbsOf(ds[..|xs|]) by {
      assert forall m :: 0 <= m < |xs| ==> ds[..|xs|][m] == ds[m];
    }
  }

  predicate Carries(x: Item) {
    x.Lone? || x.Piece?
  }

  lemma SameBuffer(xs: seq<Item>, ds: seq<N2hDesc>, j: nat, k: nat)
    requires MatchAll(xs, ds) && WellBehaved(ds) && j < |xs| && k < |xs| && j != k && Carries(xs[j]) && Carries(xs[k])
    ensures xs[j].skb != xs[k].skb
  {
    assert Matches(xs[j], ds[j]) && Matches(xs[k], ds[k]);
  }

  lemma {:induction false} NotPoppedYet(xs: seq<Item>, n: nat, b: SkBuff)
    requires n <= |xs| && forall j :: 0 <= j < n && Carries(xs[j]) ==> xs[j].skb != b
    ensures Sources(xs[..n], b) == 0
  {
    if n > 0 {
      NotPoppedYet(xs, n - 1, b);
      assert xs[..n][..n - 1] == xs[..n - 1];
    }
  }

  /** A buffer taken off the ring was taken once. */
  lemma {:induction false} PoppedOnce(xs: seq<Item>, ds: seq<N2hDesc>, k: nat, n: nat)
    requires MatchAll(xs, ds) && WellBehaved(ds) && k < n <= |xs| && Carries(xs[k])
    ensures Sources(xs[..n], xs[k].skb) == 1
  {
    hide MatchAll, WellBehaved;
    assert xs[..n][..n - 1] == xs[..n - 1];
    if n == k + 1 {
      forall j | 0 <= j < k && Carries(xs[j])
        ensures xs[j].skb != xs[k].skb
      {
        SameBuffer(xs, ds, j, k);
      }
      NotPoppedYet(xs, k, xs[k].skb);
    } else {
      PoppedOnce(xs, ds, k, n - 1);
      if Carries(xs[n - 1]) {
        SameBuffer(xs, ds, n - 1, k);
      }
    }
  }

  class N2hRing {
    const size: nat
    const desc: array<N2hDesc>
    const rx: Receiver
    var hlosIndex: nat   // the host's private copy
    var hlosShared: nat  // what the firmware sees of it
    var nssIndex: nat    // next slot the firmware fills

    ghost var produced: seq<N2hDesc>  // every descriptor the firmware ever put on the ring
    ghost var items: seq<Item>        // every descriptor the host ever took off it
    ghost var events: seq<Event>      // everything that left the ring code
    ghost var released: nat           // how many of those the firmware knows about

    /** The two indices, the slots, and what lies between them. */
    ghost predicate RingOk()
      reads this, desc
    {
      && IsRingSize(size) && size > 0 && desc.Length == size
      && hlosShared == hlosIndex == Slot(released, size)
      && nssIndex == Slot(|produced|, size)
      && released <= |items|
      && Window(desc[..], produced, released)
      && MatchAll(items, produced) && WellBehaved(produced)
    }

    /** Everything taken so far has been handled as the automaton prescribes. */
    ghost predicate Valid()
      reads this, desc, rx, rx.out, OpenSkbs(Run(items).asm)
    {
      && RingOk()
      && events == Run(items).events
      && rx.out.calls == CallsOf(events)
      && rx.Holds(Run(items).asm)
    }

    /** Between polls the firmware knows of everything that was taken. */
    ghost predicate Settled()
      reads this
    {
      released == |items|
    }

    constructor (k: nat, blank: N2hDesc)
      requires k <= MAX_RING_ORDER
      ensures Valid() && Settled() && size == Pow2(k) && produced == [] && items == []
      ensures fresh(desc) && fresh(rx) && fresh(rx.out)
    {
      size := Pow2(k);
      desc := new N2hDesc[Pow2(k)](_ => blank);
      rx := new Receiver();
      hlosIndex, hlosShared, nssIndex := 0, 0, 0;
      produced, items, events, released := [], [], [], 0;
    }

    /** The firmware adds some of the descriptors it has left, as far as it sees free slots. */
    method FirmwareProduces(ds: seq<N2hDesc>) returns (left: seq<N2hDesc>)
      requires RingOk() && WellBehaved(produced + ds)
      modifies this`nssIndex, this`produced, desc
      ensures RingOk() && old(produced) <= produced && produced + left == old(produced) + ds
    {
      left := ds;
      var n: nat := *;
      while n > 0 && left != [] && Next(nssIndex, size) != hlosShared
        invariant RingOk() && old(produced) <= produced && produced + left == old(produced) + ds
        invariant WellBehaved(produced + left)
        decreases n
      {
        left := ProduceOne(left);
        n := n - 1;
      }
    }

    method ProduceOne(ds: seq<N2hDesc>) returns (left: seq<N2hDesc>)
      requires RingOk() && WellBehaved(produced + ds) && ds != [] && Next(nssIndex, size) != hlosShared
      modifies this`nssIndex, this`produced, desc
      ensures RingOk() && old(produced) <= produced && produced + left == old(produced) + ds && left == ds[1..]
    {
      NextSlot(|produced|, size);
      RoomIff(released, |produced|, size);
      var d := ds[0];
      WindowGrown(desc[..], produced, released, d);
      GrownOk(items, produced, ds);
      ghost var slots := desc[..][nssIndex := d];
      desc[nssIndex] := d;
      assert desc[..] == slots;
      nssIndex := Next(nssIndex, size);
      produced := produced + [d];
      return ds[1..];
    }

    /** The same between the turns of the host: what the host has taken and done is untouched. */
    method FirmwareStep(ds: seq<N2hDesc>) returns (left: seq<N2hDesc>)
      requires Valid() && WellBehaved(produced + ds)
      modifies this`nssIndex, this`produced, desc
      ensures Valid() && old(produced) <= produced && produced + left == old(produced) + ds
    {
      hide Window, Slot, Run, MatchAll, WellBehaved, CallsOf;
      OpenInside(items, produced, ds);
      left := FirmwareProduces(ds);
    }

    /** Takes the next waiting descriptor off the ring and handles it. */
    method TakeOne(at: nat) returns (ghost x: Item, ghost pullable: bool)
      requires Valid() && |items| < |produced| && at == Slot(|items|, size)
      modifies this`items, this`events, rx, rx.out, OpenSkbs(Run(items).asm), SkbsOf([produced[|items|]])
      ensures Valid() && items == old(items) + [x] && x == old(ItemOf(produced[|items|], pullable))
      ensures var o := Step(old(Run(items).asm), x);
              events == old(events) + o.events && LeavesWhole(o.events)
    {
      hide Window, Slot, Run, Step, ItemOf, Matches, MatchAll, WellBehaved, CallsOf, LeavesWhole;
      NextWaiting(desc[..], produced, released, |items|);
      var d := desc[at];
      var pull: bool := *;
      pullable := pull;
      x := ItemOf(d, pull);
      ItemMatches(d, pull);
      ghost var s := Run(items).asm;
      PendingApart(items, produced);
      OpenObjects(s);
      ghost var evs := Step(s, x).events;
      RunAppend(items, x);
      CallsConcat(events, evs);
      Note(x, evs);
      rx.Consume(d, pull, s);
    }

    /** Enters a descriptor taken, and what came of it, into the record. */
    ghost method Note(x: Item, evs: seq<Event>)
      requires RingOk() && |items| < |produced| && Matches(x, produced[|items|])
      modifies this`items, this`events
      ensures RingOk() && items == old(items) + [x] && events == old(events) + evs
    {
      hide Window, Slot, Matches, MatchAll, WellBehaved;
      TakenOk(items, produced, x);
      items := items + [x];
      events := events + evs;
    }

    lemma TakesWithin(before: seq<N2hDesc>)
      requires Valid() && before <= produced && |items| < |before|
      ensures OpenSkbs(Run(items).asm) <= SkbsOf(before) && SkbsOf([produced[|items|]]) <= SkbsOf(before)
    {
      OpenWithin(items, produced, before);
    }

    lemma IndexOfNext()
      requires Valid()
      ensures IsRingSize(size) && size > 0 && (Settled() ==> hlosIndex == Slot(|items|, size))
    {
    }

    /** One turn of the consumer loop, with the firmware at work before it; `next` is the host's index then. */
    method TakeNext(at: nat, arrivals: seq<N2hDesc>, ghost before: seq<N2hDesc>)
      returns (next: nat, left: seq<N2hDesc>)
      requires Valid() && WellBehaved(produced + arrivals) && at == Slot(|items|, size)
      requires before <= produced && |items| < |before|
      modifies this`nssIndex, this`produced, this`items, this`events, desc, rx, rx.out, SkbsOf(before)
      ensures Valid() && |items| == old(|items|) + 1 && next == Slot(|items|, size)
      ensures old(items) <= items && old(events) <= events
      ensures old(produced) <= produced && produced + left == old(produced) + arrivals
    {
      hide N2hRing.RingOk, N2hRing.Valid, Slot, Next, Run, Step, WellBehaved, LeavesWhole;
      IndexOfNext();
      left := FirmwareStep(arrivals);
      TakesWithin(before);
      var x, pullable := TakeOne(at);
      NextSlot(|items| - 1, size);
      next := Next(at, size);
    }

    /** The consumer loop and the index store that follows it. */
    method Drain(count: nat, arrivals: seq<N2hDesc>) returns (left: seq<N2hDesc>)
      requires Valid() && Settled() && WellBehaved(produced + arrivals) && |items| + count <= |produced|
      modifies this, desc, rx, rx.out, SkbsOf(produced)
      ensures Valid() && Settled()
      ensures |items| == old(|items|) + count && old(items) <= items && old(events) <= events
      ensures old(produced) <= produced && produced + left == old(produced) + arrivals
    {
      hide N2hRing.RingOk, N2hRing.Valid, Slot, WellBehaved;
      IndexOfNext();
      left := arrivals;
      var hlos := hlosIndex;
      var todo := count;
      while todo > 0
        invariant 0 <= todo <= count && Valid() && released == old(released)
        invariant |items| == old(|items|) + count - todo && hlos == Slot(|items|, size)
        invariant old(items) <= items && old(events) <= events
        invariant old(produced) <= produced && produced + left == old(produced) + arrivals
      {
        hlos, left := TakeNext(hlos, left, old(produced));
        todo := todo - 1;
      }
      PublishRead(hlos);
    }

    /** The two index stores that tell the firmware how far the host has read. */
    method PublishRead(hlos: nat)
      requires Valid() && hlos == Slot(|items|, size)
      modifies this`hlosIndex, this`hlosShared, this`released
      ensures Valid() && Settled()
    {
      hide Window, Run, Matches, WellBehaved;
      WindowRead(desc[..], produced, released, |items|);
      hlosIndex := hlos;
      hlosShared := hlos;
      released := |items|;
    }

    /**
     What the host has done so far is a function of the descriptors taken alone: they are a
     prefix of what the firmware produced, and any way of cutting them into batches explains
     the same frames and the same buffers freed.
     */
    lemma BatchesExplainEvents(batches: seq<seq<Item>>)
      requires Valid() && Flatten(batches) == items
      ensures rx.out.calls == CallsOf(RunBatches(batches).events) && rx.Holds(RunBatches(batches).asm)
      ensures |items| <= |produced| && forall k :: 0 <= k < |items| ==> Matches(items[k], produced[k])
    {
      BatchingIrrelevant(batches);
    }

    /**
     A buffer taken off the ring is in exactly one place -- in an open chain of the receiver, handed
     on, or freed -- if and only if no frame that contains it was freed while it was open.
     */
    lemma EveryBufferInOnePlace(k: nat)
      requires Valid() && k < |items| && Carries(items[k])
      requires forall j :: 0 <= j < |items| ==> Dispatched(items[j])
      ensures var s, b := Run(items).asm, items[k].skb;
              && rx.Holds(s) && rx.out.calls == CallsOf(events)
              && (Held(s, b) + Leaving(events, HandedOn, b) + Leaving(events, Released, b) == 1
                  <==> !FreedWhileOpen(items, b))
    {
      hide Run, FreedWhileOpen, Held, Leaving;
      assert items[..|items|] == items;
      PoppedOnce(items, produced, k, |items|);
      ExactlyOnePlaceIff(items, items[k].skb);
    }

    /**
     A buffer was handed to a consumer if and only if the descriptors taken bring it, alone or as the
     first buffer of a completed frame, as a packet, an extended or virtual packet, or a bounce.
     */
    lemma ConsumersGet(b: SkBuff, t: nat)
      requires Valid()
      ensures HandOn(b, t) in rx.out.calls
         <==> && Brought(items, b, t)
              && (t == BUFFER_PACKET || t == BUFFER_PACKET_EXT || t == BUFFER_PACKET_VIRTUAL
                  || t == BUFFER_BOUNCED_INTERFACE || t == BUFFER_BOUNCED_BRIDGE)
    {
      hide Run, Brought, CallsOf;
      HandedOnIff(items, b, t);
    }

    /** A packet in one descriptor, once taken, has gone to a consumer, unless it is paged and yields no header. */
    lemma WholePacketHandedOn(k: nat, t: nat)
      requires Valid() && k < |items| && items[k].Piece? && (items[k].paged ==> items[k].pullable)
      requires produced[k].first && produced[k].last && produced[k].bufferType == t
      requires t == BUFFER_PACKET || t == BUFFER_PACKET_EXT || t == BUFFER_PACKET_VIRTUAL
      ensures HandOn(produced[k].cookie.skb, t) in rx.out.calls
    {
      hide Run, CallsOf, Completes, FrameFrom;
      var x, b := items[k], produced[k].cookie.skb;
      assert Matches(x, produced[k]);
      WholeCompletes(items[..k], x);
      assert BegunAt(items[..k], x, k, b);
      assert Arrives(items, k, b, t);
      ConsumersGet(b, t);
    }

    /** The crypto driver got exactly the crypto responses among the descriptors taken, in order. */
    lemma CryptoDriverGets()
      requires Valid()
      ensures CryptoCalls(rx.out.calls) == CryptoOf(produced[..|items|])
    {
      hide Run, CallsOf, CryptoCalls, CryptoResponses, CryptoOf;
      CryptoDelivered(items);
      ResponsesOf(items, produced);
    }

    /**
     nss_core_handle_cause_queue: handle what is waiting, up to the weight, then publish how far
     the host has read. The firmware may add any of `arrivals` meanwhile, and before; `seen` is how
     far it had come when its index was sampled.
     */
    method HandleCauseQueue(weight: nat, arrivals: seq<N2hDesc>)
      returns (count: nat, left: seq<N2hDesc>, ghost seen: nat)
      requires Valid() && Settled() && WellBehaved(produced + arrivals)
      modifies this, desc, rx, rx.out, SkbsOf(produced + arrivals)
      ensures Valid() && Settled()
      ensures old(|produced|) <= seen <= |produced|
      ensures count == if seen - old(|items|) <= weight then seen - old(|items|) else weight
      ensures |items| == old(|items|) + count && old(items) <= items && old(events) <= events
      ensures old(produced) <= produced && produced + left == old(produced) + arrivals
    {
      hide N2hRing.RingOk, N2hRing.Valid, WellBehaved, SkbsOf;
      left := FirmwareStep(arrivals);
      seen := |produced|;
      Within(produced, left);
      count := Waiting();
      if count == 0 {
        return;
      }
      if count > weight {
        count := weight;
      }
      left := Drain(count, left);
    }

    lemma OpenWithinPool(future: seq<N2hDesc>)
      requires Valid()
      ensures OpenSkbs(Run(items).asm) <= SkbsOf(produced + future)
    {
      OpenInside(items, produced, future);
    }

    /** The number of descriptors waiting, from the firmware's index and the host's own. */
    method Waiting() returns (count: nat)
      requires Valid() && Settled()
      ensures Valid() && Settled() && count == |produced| - |items|
    {
      hide Run, MatchAll, WellBehaved, CallsOf;
      PendingCountExact(released, |produced|, size);
      count := PendingCount(nssIndex, hlosIndex, size);
    }
  }

  /** Open chains hold only buffers that came over the ring. */
  lemma OpenInside(items: seq<Item>, produced: seq<N2hDesc>, future: seq<N2hDesc>)
    requires MatchAll(items, produced)
    ensures OpenSkbs(Run(items).asm) <= SkbsOf(produced + future)
  {
    hide Run, From, OpenSkbs, SkbsOf, Matches;
    OpenPiecesPopped(items, produced);
    OpenFrom(Run(items).asm, SkbsOf(produced[..|items|]));
    Within(produced[..|items|], produced[|items|..] + future);
    assert produced[..|items|] + (produced[|items|..] + future) == produced + future by {
      Rejoined(produced, |items|, future);
    }
  }

  lemma Rejoined(produced: seq<N2hDesc>, n: nat, future: seq<N2hDesc>)
    requires n <= |produced|
    ensures produced[..n] + (produced[n..] + future) == produced + future
  {
  }

  lemma OpenFrom(s: Asm, pool: set<SkBuff>)
    requires From(s.head, false, pool) && From(s.jumbo, true, pool)
    ensures OpenSkbs(s) <= pool
  {
  }

  lemma Within(produced: seq<N2hDesc>, future: seq<N2hDesc>)
    ensures SkbsOf(produced) <= SkbsOf(produced + future)
  {
    assert forall k :: 0 <= k < |produced| ==> (produced + future)[k] == produced[k];
  }

  lemma WindowRead<T>(slots: seq<T>, history: seq<T>, read: nat, read': nat)
    requires Window(slots, history, read) && read <= read' <= |history|
    ensures Window(slots, history, read')
  {
  }

  lemma NextWaiting<T>(slots: seq<T>, history: seq<T>, read: nat, k: nat)
    requires Window(slots, history, read) && read <= k < |history|
    ensures slots[Slot(k, |slots|)] == history[k]
  {
  }

  lemma ItemMatches(d: N2hDesc, pullable: bool)
    ensures Matches(ItemOf(d, pullable), d)
  {
  }

  lemma OpenObjects(s: Asm)
    requires FrameOk(s.head, false) && FrameOk(s.jumbo, true)
    ensures Objects(s.head) <= OpenSkbs(s) && Objects(s.jumbo) <= OpenSkbs(s)
  {
  }

  /** The buffer of the next waiting descriptor is in no open chain. */
  lemma PendingApart(items: seq<Item>, produced: seq<N2hDesc>)
    requires MatchAll(items, produced) && WellBehaved(produced) && |items| < |produced|
    ensures var s, d := Run(items).asm, produced[|items|];
            && d.payloadLen < 0x1_0000
            && (d.cookie.SkbAddress? ==> SkbsOf([d]) == {d.cookie.skb})
            && FrameOk(s.head, false) && FrameOk(s.jumbo, true)
            && (d.cookie.SkbAddress? ==> d.cookie.skb !in Objects(s.head) && d.cookie.skb !in Objects(s.jumbo))
  {
    OpenPiecesPopped(items, produced);
    if produced[|items|].cookie.SkbAddress? {
      PendingNotOpen(items, produced, |items|);
      assert [produced[|items|]][0] == produced[|items|];
    }
  }

  lemma TakenOk(items: seq<Item>, produced: seq<N2hDesc>, x: Item)
    requires MatchAll(items, produced) && |items| < |produced| && Matches(x, produced[|items|])
    ensures MatchAll(items + [x], produced)
  {
  }

  /** Everything the consumer may touch was on the ring when the poll began. */
  lemma OpenWithin(items: seq<Item>, produced: seq<N2hDesc>, before: seq<N2hDesc>)
    requires MatchAll(items, produced) && before <= produced && |items| < |before|
    ensures OpenSkbs(Run(items).asm) <= SkbsOf(before)
    ensures SkbsOf([produced[|items|]]) <= SkbsOf(before)
  {
    OpenPiecesPopped(items, produced);
    assert produced[..|items|] == before[..|items|];
    assert forall k :: 0 <= k < |items| ==> before[..|items|][k] == before[k];
  }

  lemma WindowGrown<T>(slots: seq<T>, history: seq<T>, read: nat, x: T)
    requires Window(slots, history, read) && |history| + 1 < read + |slots|
    ensures Window(slots[Slot(|history|, |slots|) := x], history + [x], read)
  {
    WindowKept(slots, history, read, |history|, x);
    StagedExtended(slots, |history|, [], x);
    assert [] + [x] == [x];
    WindowPublished(slots[Slot(|history|, |slots|) := x], history, read, [x]);
  }

  lemma GrownOk(items: seq<Item>, produced: seq<N2hDesc>, ds: seq<N2hDesc>)
    requires MatchAll(items, produced) && WellBehaved(produced + ds) && ds != []
    ensures MatchAll(items, produced + [ds[0]]) && WellBehaved(produced + [ds[0]])
    ensures produced + [ds[0]] + ds[1..] == produced + ds
  {
    WellBehavedPrefix(produced + ds, |produced| + 1);
    assert (produced + ds)[..|produced| + 1] == produced + [ds[0]];
  }

  lemma RoomIff(read: nat, written: nat, size: nat)
    requires size > 0 && read <= written < read + size
    ensures Slot(written + 1, size) != Slot(read, size) <==> written + 1 < read + size
  {
    if written + 1 < read + size {
      SlotInjective(read, written + 1, size);
    } else {
      assert written + 1 == read + size;
      SlotAdd(read, size, size);
    }
  }

  lemma WellBehavedPrefix(ds: seq<N2hDesc>, n: nat)
    requires WellBehaved(ds) && n <= |ds|
    ensures WellBehaved(ds[..n])
  {
  }
}
