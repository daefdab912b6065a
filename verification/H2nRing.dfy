/**
 The host-to-firmware descriptor ring: packet sends, crypto sends and the empty-buffer
 refill on one side, the firmware reading on the other.

 Producers of one ring exclude each other (the ring lock, or NAPI context for the refill),
 but the firmware is concurrent with all of them: `FirmwareReads` may run between any two
 steps of a send, takes whatever descriptors it finds in the slots, and is only bound to
 stay behind the index the host published.
 */
module H2nRings {
  import opened Machine
  import opened RingIndex
  import opened RingWindow
  import opened Framing

  datatype Status = Success | Failure | FailureQueue

  /** How the refill allocates: nss_core_get_paged_mode and nss_core_get_jumbo_mru. */
  datatype RefillMode = Paged | JumboMru(mru: nat) | Normal(maxBuf: nat)

  /** The outside of one refill attempt: whether skb and page can be had, and the DMA mapping, if it works. */
  datatype Attempt = Attempt(skb: bool, page: bool, dma: Option<nat>)

  predicate Fails(mode: RefillMode, a: Attempt) {
    !a.skb || (mode.Paged? && !a.page) || a.dma.None?
  }

  const BUFFER_EMPTY: nat := 0

  const JUMBO_LINEAR_BUF_SIZE: nat := 128

  /** The kernel's skb allocator, reduced to which addresses are in use and how large each buffer is. */
  class BufferHeap {
    ghost var live: set<nat>
    ghost var room: map<nat, nat> // bytes from the start of every buffer ever handed out
    var next: nat

    ghost predicate Valid()
      reads this
    {
      (forall a :: a in live ==> a < next) && forall a :: a in room ==> a < next
    }

    constructor ()
      ensures Valid() && live == {} && room == map[]
    {
      live, room, next := {}, map[], 1;
    }

    /** dev_alloc_skb: `size` bytes after a headroom of `pad`. */
    method Alloc(ok: bool, size: nat, pad: nat) returns (a: Option<nat>)
      requires Valid()
      modifies this
      ensures Valid() && (a.Some? <==> ok) && Kept(old(room))
      ensures a.None? ==> live == old(live) && room == old(room)
      ensures a.Some? ==> a.value !in old(live) && live == old(live) + {a.value}
      ensures a.Some? ==> room == old(room)[a.value := size + pad]
    {
      if !ok {
        return None;
      }
      a := Some(next);
      room := room[next := size + pad];
      live, next := live + {next}, next + 1;
    }

    /** Buffers handed out earlier have the size they had. */
    ghost predicate Kept(before: map<nat, nat>)
      reads this
    {
      forall a :: a in before ==> a in room && room[a] == before[a]
    }

    method Free(a: nat)
      requires Valid() && a in live
      modifies this`live
      ensures Valid() && live == old(live) - {a}
    {
      live := live - {a};
    }
  }

  function Cookies(ds: seq<H2nDesc>): (c: set<nat>)
    ensures forall i :: 0 <= i < |ds| ==> ds[i].cookie in c
  {
    set i | 0 <= i < |ds| :: ds[i].cookie
  }

  lemma CookiesAppend(ds: seq<H2nDesc>, d: H2nDesc)
    ensures Cookies(ds + [d]) == Cookies(ds) + {d.cookie}
  {
    assert (ds + [d])[|ds|] == d;
    forall i | 0 <= i < |ds|
      ensures (ds + [d])[i] == ds[i]
    {
    }
  }

  class H2nRing {
    const size: nat
    const desc: array<H2nDesc>
    var hlosIndex: nat   // the host's private copy
    var hlosShared: nat  // what the firmware sees of it
    var nssIndex: nat    // next descriptor the firmware reads; only the firmware writes it
    var txStopped: bool
    var txQFullCnt: nat
    var txEmpty: nat     // refills so far

    ghost var history: seq<H2nDesc>    // every descriptor ever published
    ghost var delivered: seq<H2nDesc>  // every descriptor the firmware ever loaded from a slot
    ghost var sent: seq<Sent>          // every packet ever sent

    ghost predicate Valid()
      reads this, desc
    {
      && IsRingSize(size) && size > 0 && desc.Length == size
      && hlosShared == hlosIndex == Slot(|history|, size)
      && nssIndex == Slot(|delivered|, size)
      && delivered <= history
      && Window(desc[..], history, |delivered|)
    }

    /** Only packets and crypto requests have gone onto this ring. */
    ghost predicate Framed()
      reads this
    {
      FramedAs(history, sent)
    }

    /** Descriptors that could still be published. */
    ghost function Free(): int
      reads this
    {
      size - 1 - (|history| - |delivered|)
    }

    constructor (k: nat, blank: H2nDesc)
      requires k <= MAX_RING_ORDER
      ensures Valid() && Framed() && size == Pow2(k)
      ensures history == [] && delivered == [] && txEmpty == 0 && fresh(desc)
    {
      size := Pow2(k);
      desc := new H2nDesc[Pow2(k)](_ => blank);
      hlosIndex, hlosShared, nssIndex := 0, 0, 0;
      txStopped, txQFullCnt, txEmpty := false, 0, 0;
      history, delivered, sent := [], [], [];
    }

    /**
     At every moment the firmware has recovered whole packets, in the order they were sent,
     and once it has caught up it has recovered all of them; never are more than `size - 1`
     descriptors in flight.
     */
    lemma FirmwareRecoversPackets()
      requires Valid() && Framed()
      ensures Read(delivered).packets <= Meanings(sent)
      ensures |delivered| == |history| ==> Read(delivered) == Reading(Meanings(sent), [])
      ensures 0 <= |history| - |delivered| <= size - 1
    {
      ReaderSeesPrefix(sent, delivered);
      if |delivered| == |history| {
        assert delivered == history;
        ReadAll(sent);
      }
    }

    /** The firmware takes any number of the descriptors it can see, at any moment. */
    method FirmwareReads()
      requires Valid()
      modifies this`nssIndex, this`delivered
      ensures Valid() && old(delivered) <= delivered
    {
      var n: nat := *;
      while n > 0 && nssIndex != hlosShared
        invariant Valid() && old(delivered) <= delivered
        decreases n
      {
        assert |delivered| < |history|;
        NextSlot(|delivered|, size);
        assert desc[..][nssIndex] == history[|delivered|];
        delivered := delivered + [desc[nssIndex]];
        nssIndex := Next(nssIndex, size);
        n := n - 1;
      }
    }

    /** Fills one spare slot past the published ones. */
    method WriteSlot(at: nat, d: H2nDesc, ghost pending: seq<H2nDesc>)
      requires Valid() && Staged(desc[..], |history|, pending)
      requires at == Slot(|history| + |pending|, size) && |pending| < Free()
      modifies desc
      ensures Valid() && Staged(desc[..], |history|, pending + [d])
    {
      WindowKept(desc[..], history, |delivered|, |history| + |pending|, d);
      StagedExtended(desc[..], |history|, pending, d);
      ghost var slots := desc[..][at := d];
      desc[at] := d;
      assert desc[..] == slots;
    }

    /** Rewrites the slot written last. */
    method PatchSlot(at: nat, d: H2nDesc, ghost pending: seq<H2nDesc>)
      requires Valid() && Staged(desc[..], |history|, pending) && pending != []
      requires at == Slot(|history| + |pending| - 1, size) && |pending| <= Free()
      modifies desc
      ensures Valid() && Staged(desc[..], |history|, pending[..|pending| - 1] + [d])
    {
      WindowKept(desc[..], history, |delivered|, |history| + |pending| - 1, d);
      StagedPatched(desc[..], |history|, pending, d);
      ghost var slots := desc[..][at := d];
      desc[at] := d;
      assert desc[..] == slots;
    }

    /** Moves on to the next spare slot and fills it, the firmware possibly reading in between. */
    method AppendSlot(at: nat, d: H2nDesc, ghost pending: seq<H2nDesc>) returns (at': nat)
      requires Valid() && Staged(desc[..], |history|, pending) && pending != []
      requires at == Slot(|history| + |pending| - 1, size) && |pending| < Free()
      modifies desc, this`nssIndex, this`delivered
      ensures Valid() && Staged(desc[..], |history|, pending + [d]) && old(delivered) <= delivered
      ensures at' == Slot(|history| + |pending|, size)
    {
      FirmwareReads();
      NextSlot(|history| + |pending| - 1, size);
      at' := Next(at, size);
      WriteSlot(at', d, pending);
    }

    /** One store of the index makes a whole frame visible. */
    method Publish(count: nat, ghost frame: seq<H2nDesc>)
      requires Valid() && count == |frame| <= Free() && Staged(desc[..], |history|, frame)
      modifies this`hlosIndex, this`hlosShared, this`history
      ensures Valid() && history == old(history) + frame
    {
      AdvanceSlot(|history|, count, size);
      WindowPublished(desc[..], history, |delivered|, frame);
      var hlos := And(hlosIndex + count, size - 1);
      history := history + frame;
      hlosIndex := hlos;
      hlosShared := hlos;
    }

    /** Publishes the frame of one send and records the send. */
    method Commit(count: nat, ghost s: Sent)
      requires Valid() && count == |Encode(s)| <= Free() && Staged(desc[..], |history|, Encode(s)) && Sendable(s)
      modifies this`hlosIndex, this`hlosShared, this`history, this`sent, this`nssIndex, this`delivered
      ensures Valid() && old(delivered) <= delivered
      ensures history == old(history) + Encode(s) && sent == old(sent) + [s]
      ensures old(Framed()) ==> Framed()
    {
      hide Window, Staged, Slot, Encode, EncodeAll;
      FirmwareReads();
      Publish(count, Encode(s));
      if old(Framed()) {
        FramedAppend(old(history), sent, s);
      }
      sent := sent + [s];
    }

    /** The free-space test both senders start with. */
    method Reserve(count: nat) returns (ok: bool)
      requires Valid()
      modifies this`nssIndex, this`delivered, this`txStopped, this`txQFullCnt
      ensures Valid() && old(delivered) <= delivered
      ensures ok ==> Free() >= count && txStopped == old(txStopped) && txQFullCnt == old(txQFullCnt)
      ensures !ok ==> old(Free()) < count && txStopped && txQFullCnt == old(txQFullCnt) + 1
    {
      FirmwareReads();
      FreeCountExact(|delivered|, |history|, size);
      if FreeCount(nssIndex, hlosIndex, size) < count {
        txQFullCnt := txQFullCnt + 1;
        txStopped := true;
        return false;
      }
      return true;
    }

    /** The firmware has room again. */
    method Unblock()
      modifies this`txStopped
      ensures !txStopped
    {
      txStopped := false;
    }

    /** nss_core_send_crypto */
    method SendCrypto(buf: nat, paddr: nat, len: nat) returns (status: Status, ghost stale: H2nDesc)
      requires Valid() && len < 0x1_0000
      modifies this, desc
      ensures Valid() && old(delivered) <= delivered
      ensures old(Framed()) ==> Framed()
      ensures status != Failure && txEmpty == old(txEmpty)
      ensures old(Free()) >= 1 ==> status == Success
      ensures status == Success ==>
        var s := Crypto(stale, buf, paddr, len);
        sent == old(sent) + [s] && history == old(history) + Encode(s)
      ensures status == Success ==>
        |history| == |old(history)| + 1 && CarriesCrypto(history[|old(history)|], buf, paddr, len)
      ensures status == Success ==> txStopped == old(txStopped) && txQFullCnt == old(txQFullCnt)
      ensures status == FailureQueue ==> history == old(history) && sent == old(sent)
      ensures status == FailureQueue ==> txStopped && txQFullCnt == old(txQFullCnt) + 1
    {
      hide Window, Slot, Staged, Encode, EncodeAll, CryptoDesc, FramedAs;
      var ok := Reserve(1);
      stale := desc[hlosIndex];
      if !ok {
        return FailureQueue, stale;
      }
      var d := CryptoDesc(desc[hlosIndex], buf, paddr, len);
      WriteSlot(hlosIndex, d, []);
      CryptoEncoded(stale, buf, paddr, len);
      Commit(1, Crypto(stale, buf, paddr, len));
      return Success, stale;
    }

    /** nss_core_send_buffer_simple_skb; `recycled` is the mapping of a buffer that may be reused. */
    method SimpleSkb(req: Request, dma: Mapping, recycled: Option<nat>, maxBuf: nat) returns (count: int)
      requires Valid() && Free() >= 1
      modifies desc
      ensures Valid()
      ensures count == if recycled.Some? || dma(0).Some? then 1 else 0
      ensures recycled.Some? ==> Staged(desc[..], |history|, ReuseFrame(req, recycled.value, maxBuf))
      ensures recycled.None? && dma(0).Some? ==> Staged(desc[..], |history|, SimpleFrame(req, Addr(dma, 0)))
    {
      if recycled.Some? {
        WriteSlot(hlosIndex, ReuseFrame(req, recycled.value, maxBuf)[0], []);
        assert [] + [ReuseFrame(req, recycled.value, maxBuf)[0]] == ReuseFrame(req, recycled.value, maxBuf);
        return 1;
      }
      if dma(0).None? {
        return 0;
      }
      WriteSlot(hlosIndex, SimpleFrame(req, Addr(dma, 0))[0], []);
      assert [] + [SimpleFrame(req, Addr(dma, 0))[0]] == SimpleFrame(req, Addr(dma, 0));
      return 1;
    }

    /**
     The loop both scatter helpers run after the head descriptor: one descriptor for every
     further piece of the packet, until a piece turns out not to be usable.
     */
    method AppendPieces(body: seq<H2nDesc>, usable: seq<bool>) returns (count: int, at: nat)
      requires Valid() && body != [] && |usable| == |body| - 1 && |body| <= Free()
      requires Staged(desc[..], |history|, body[..1])
      modifies desc, this`nssIndex, this`delivered
      ensures Valid() && old(delivered) <= delivered
      ensures count > 0 <==> forall i :: 0 <= i < |usable| ==> usable[i]
      ensures count > 0 ==> count == |body| && Staged(desc[..], |history|, body)
      ensures count > 0 ==> at == Slot(|history| + |body| - 1, size)
    {
      hide Window, Staged, Slot;
      var i := 0;
      at := hlosIndex;
      while i < |usable|
        invariant 0 <= i <= |usable| && Valid() && old(delivered) <= delivered
        invariant forall j :: 0 <= j < i ==> usable[j]
        invariant Staged(desc[..], |history|, body[..i + 1]) && at == Slot(|history| + i, size)
      {
        if !usable[i] {
          return -(i + 1), at;
        }
        at := AppendSlot(at, body[i + 1], body[..i + 1]);
        assert body[..i + 1] + [body[i + 1]] == body[..i + 2];
        i := i + 1;
      }
      assert body[..i + 1] == body;
      return i + 1, at;
    }

    /** Writes the head descriptor, the pieces, and last of all the closing form of the final one. */
    method ScatterBody(body: seq<H2nDesc>, usable: seq<bool>, last: H2nDesc) returns (count: int)
      requires Valid() && body != [] && |usable| == |body| - 1 && |body| <= Free()
      modifies desc, this`nssIndex, this`delivered
      ensures Valid() && old(delivered) <= delivered
      ensures count > 0 <==> forall i :: 0 <= i < |usable| ==> usable[i]
      ensures count > 0 ==> count == |body| && Staged(desc[..], |history|, body[..|body| - 1] + [last])
    {
      WriteSlot(hlosIndex, body[0], []);
      assert [] + [body[0]] == body[..1];
      var at: nat;
      count, at := AppendPieces(body, usable);
      if count > 0 {
        PatchSlot(at, last, body);
      }
    }

    /** Which fragments can be mapped. */
    static function UsableFrags(req: Request, dma: Mapping): (u: seq<bool>)
      ensures |u| == |req.nbuf.frags|
      ensures (forall i :: 0 <= i < |u| ==> u[i]) <==> forall i :: 1 <= i <= |u| ==> dma(i).Some?
    {
      var u := seq(|req.nbuf.frags|, i requires 0 <= i < |req.nbuf.frags| => dma(i + 1).Some?);
      assert forall i :: 1 <= i <= |u| ==> u[i - 1] == dma(i).Some?;
      u
    }

    /** Which frag_list members can be mapped and hold no page data of their own. */
    static function UsableSegments(req: Request, dma: Mapping): (u: seq<bool>)
      ensures |u| == |req.nbuf.fragList|
      ensures (forall i :: 0 <= i < |u| ==> u[i])
         <==> && (forall i :: 1 <= i <= |u| ==> dma(i).Some?)
              && (forall i :: 0 <= i < |u| ==> req.nbuf.fragList[i].nrFrags == 0)
    {
      var n := req.nbuf;
      var u := seq(|n.fragList|, i requires 0 <= i < |n.fragList| => dma(i + 1).Some? && n.fragList[i].nrFrags == 0);
      assert forall i :: 1 <= i <= |u| ==> u[i - 1] == (dma(i).Some? && n.fragList[i - 1].nrFrags == 0);
      assert forall i :: 0 <= i < |u| ==> u[i] == (dma(i + 1).Some? && n.fragList[i].nrFrags == 0);
      u
    }

    /** nss_core_send_buffer_nr_frags */
    method FragArraySkb(req: Request, dma: Mapping) returns (count: int)
      requires Valid() && Free() >= |req.nbuf.frags| + 1
      modifies desc, this`nssIndex, this`delivered
      ensures Valid() && old(delivered) <= delivered
      ensures count > 0 <==> forall i :: 0 <= i <= |req.nbuf.frags| ==> dma(i).Some?
      ensures count > 0 ==> count == |FragArrayFrame(req, dma)|
      ensures count > 0 ==> Staged(desc[..], |history|, FragArrayFrame(req, dma))
    {
      hide FragArrayFrame, FragArrayBody, FragArrayDesc, UsableFrags, Window, Staged;
      if dma(0).None? {
        return 0;
      }
      var usable := UsableFrags(req, dma);
      FragArrayFrameShape(req, dma);
      count := ScatterBody(FragArrayBody(req, dma), usable,
                           Released(FragArrayDesc(req, dma, |req.nbuf.frags|), req.nbuf.addr));
    }

    /** nss_core_send_buffer_fraglist */
    method FragListSkb(req: Request, dma: Mapping) returns (count: int)
      requires Valid() && Free() >= |req.nbuf.fragList| + 1
      modifies desc, this`nssIndex, this`delivered
      ensures Valid() && old(delivered) <= delivered
      ensures count > 0 <==>
              && (forall i :: 0 <= i <= |req.nbuf.fragList| ==> dma(i).Some?)
              && (forall i :: 0 <= i < |req.nbuf.fragList| ==> req.nbuf.fragList[i].nrFrags == 0)
      ensures count > 0 ==> count == |FragListFrame(req, dma)|
      ensures count > 0 ==> Staged(desc[..], |history|, FragListFrame(req, dma))
    {
      hide FragListFrame, FragListBody, FragListDesc, UsableSegments, Window, Staged;
      if dma(0).None? {
        return 0;
      }
      var usable := UsableSegments(req, dma);
      FragListFrameShape(req, dma);
      count := ScatterBody(FragListBody(req, dma), usable, Closed(FragListDesc(req, dma, |req.nbuf.fragList|)));
    }

    /** The record of a send that succeeded. */
    ghost function SentAs(req: Request, dma: Mapping, recycled: Option<nat>, maxBuf: nat): Sent {
      if recycled.Some? then Recycled(req, recycled.value, maxBuf) else Packet(req, dma)
    }

    /** The three-way choice of nss_core_send_buffer between the scatter helpers. */
    method Scatter(req: Request, dma: Mapping, recycled: Option<nat>, maxBuf: nat) returns (count: int)
      requires Valid() && Free() > Segments(req.nbuf)
      requires recycled.Some? ==> RouteOf(req) == Simple
      modifies desc, this`nssIndex, this`delivered
      ensures Valid() && old(delivered) <= delivered
      ensures count > 0 <==> recycled.Some? || Mapped(req, dma)
      ensures count > 0 ==>
        var frame := Encode(SentAs(req, dma, recycled, maxBuf));
        count == |frame| <= Segments(req.nbuf) + 1 && Staged(desc[..], |history|, frame)
    {
      match RouteOf(req) {
        case Simple => count := SimpleSkb(req, dma, recycled, maxBuf);
        case FragList => count := FragListSkb(req, dma);
        case FragArray => count := FragArraySkb(req, dma);
      }
    }

    /** nss_core_send_buffer once space is known to suffice. */
    method SendReserved(req: Request, dma: Mapping, recycled: Option<nat>, maxBuf: nat) returns (ok: bool)
      requires Valid() && FrameBitsClear(req.flags) && Free() > Segments(req.nbuf)
      requires recycled.Some? ==> RouteOf(req) == Simple
      modifies desc, this`hlosIndex, this`hlosShared, this`history, this`sent, this`nssIndex, this`delivered
      ensures Valid() && old(delivered) <= delivered
      ensures old(Framed()) ==> Framed()
      ensures ok <==> recycled.Some? || Mapped(req, dma)
      ensures ok ==>
        var s := SentAs(req, dma, recycled, maxBuf);
        Sendable(s) && sent == old(sent) + [s] && history == old(history) + Encode(s)
      ensures !ok ==> history == old(history) && sent == old(sent)
    {
      var count := Scatter(req, dma, recycled, maxBuf);
      if count <= 0 {
        return false;
      }
      Commit(count, SentAs(req, dma, recycled, maxBuf));
      return true;
    }

    lemma SentDescribed(req: Request, dma: Mapping, recycled: Option<nat>, maxBuf: nat)
      requires Sendable(SentAs(req, dma, recycled, maxBuf)) && (recycled.Some? ==> RouteOf(req) == Simple)
      ensures var f := Encode(SentAs(req, dma, recycled, maxBuf));
              if recycled.Some? then DescribesReuse(f, req, recycled.value, maxBuf) else DescribesAll(f, req, dma)
    {
      hide Encode, DescribesAll, DescribesReuse;
      if recycled.Some? {
        ReuseDescribed(req, recycled.value, maxBuf);
      } else {
        PacketDescribed(req, dma);
      }
    }

    /** nss_core_send_buffer */
    method SendBuffer(req: Request, dma: Mapping, recycled: Option<nat>, maxBuf: nat) returns (status: Status)
      requires Valid() && FrameBitsClear(req.flags)
      requires req.nbuf.fragList == [] ==> |req.nbuf.frags| <= MAX_SKB_FRAGS
      requires recycled.Some? ==> RouteOf(req) == Simple
      modifies this, desc
      ensures Valid() && old(delivered) <= delivered
      ensures old(Framed()) ==> Framed()
      ensures status == Success ==>
        var s := SentAs(req, dma, recycled, maxBuf);
        Sendable(s) && sent == old(sent) + [s] && history == old(history) + Encode(s)
      ensures status == Success && recycled.None? ==> DescribesAll(history[|old(history)|..], req, dma)
      ensures status == Success && recycled.Some? ==>
                DescribesReuse(history[|old(history)|..], req, recycled.value, maxBuf)
      ensures status != Success ==> history == old(history) && sent == old(sent)
      ensures status != FailureQueue ==> txStopped == old(txStopped) && txQFullCnt == old(txQFullCnt)
      ensures status == FailureQueue ==> txStopped && txQFullCnt == old(txQFullCnt) + 1
      ensures old(Free()) > Segments(req.nbuf) ==> status != FailureQueue
      ensures |req.nbuf.fragList| > size ==> status == Failure
      ensures |req.nbuf.fragList| <= size && Segments(req.nbuf) >= size - 1 ==> status == FailureQueue
      ensures txEmpty == old(txEmpty)
      ensures status == Failure ==> |req.nbuf.fragList| > size || (recycled.None? && !Mapped(req, dma))
    {
      var segments := Segments(req.nbuf);
      if req.nbuf.fragList != [] && segments > size {
        return Failure;
      }
      var ok := Reserve(segments + 1);
      if !ok {
        return FailureQueue;
      }
      ok := SendReserved(req, dma, recycled, maxBuf);
      if ok {
        SentDescribed(req, dma, recycled, maxBuf);
        assert history[|old(history)|..] == Encode(SentAs(req, dma, recycled, maxBuf));
      }
      return if ok then Success else Failure;
    }

    /** Bytes the refill maps for one buffer, and where its payload starts. */
    static function RefillLen(mode: RefillMode, pad: nat): nat {
      match mode
      case Paged => PAGE_SIZE
      case JumboMru(mru) => U16(mru)
      case Normal(maxBuf) => U16(U16(maxBuf) + pad)
    }

    static function RefillOffs(mode: RefillMode, pad: nat): nat {
      if mode.Paged? then 0 else U16(pad)
    }

    /** What dev_alloc_skb is asked for. */
    static function AllocSize(mode: RefillMode): nat {
      match mode
      case Paged => JUMBO_LINEAR_BUF_SIZE
      case JumboMru(mru) => mru
      case Normal(maxBuf) => U16(maxBuf)
    }

    /**
     The announced buffer is the one allocated: a whole page, or the skb's own buffer from its start to
     its end, its data starting after the headroom. With a jumbo MRU the length announced counts the
     headroom, so the end of the buffer, as long as the headroom, goes unused.
     */
    static ghost predicate Fits(d: H2nDesc, mode: RefillMode, pad: nat, room: map<nat, nat>) {
      && d.cookie in room
      && if mode.Paged? then d.bufferLen == PAGE_SIZE && d.payloadOffs == 0
         else
           var size := room[d.cookie];
           && d.payloadOffs == U16(pad) && d.bufferLen <= size
           && (size < 0x1_0000 ==> d.bufferLen == if mode.Normal? then size else size - pad)
    }

    static ghost predicate AllFit(added: seq<H2nDesc>, mode: RefillMode, pad: nat, room: map<nat, nat>) {
      forall i :: 0 <= i < |added| ==> Fits(added[i], mode, pad, room)
    }

    static lemma FitsAppend(added: seq<H2nDesc>, d: H2nDesc, mode: RefillMode, pad: nat,
                            before: map<nat, nat>, room: map<nat, nat>)
      requires AllFit(added, mode, pad, before) && Fits(d, mode, pad, room)
      requires forall a :: a in before ==> a in room && room[a] == before[a]
      ensures AllFit(added + [d], mode, pad, room)
    {
      hide U16;
    }

    /** The empty buffers one refill has staged: properly shaped, distinct, and new to the heap. */
    static ghost predicate FreshEmpties(added: seq<H2nDesc>, mode: RefillMode, pad: nat, before: set<nat>) {
      && (forall i :: 0 <= i < |added| ==>
           && added[i].bufferType == BUFFER_EMPTY
           && added[i].bufferLen == RefillLen(mode, pad)
           && added[i].payloadOffs == RefillOffs(mode, pad)
           && added[i].cookie !in before)
      && (forall i, j :: 0 <= i < j < |added| ==> added[i].cookie != added[j].cookie)
    }

    static lemma NoneFit(mode: RefillMode, pad: nat, room: map<nat, nat>)
      ensures AllFit([], mode, pad, room)
    {
    }

    static lemma StillFit(added: seq<H2nDesc>, mode: RefillMode, pad: nat, before: map<nat, nat>, room: map<nat, nat>)
      requires AllFit(added, mode, pad, before) && forall a :: a in before ==> a in room && room[a] == before[a]
      ensures AllFit(added, mode, pad, room)
    {
      hide U16;
    }

    static lemma NoneFresh(mode: RefillMode, pad: nat, before: set<nat>)
      ensures FreshEmpties([], mode, pad, before)
    {
    }

    static lemma FreshAppend(added: seq<H2nDesc>, d: H2nDesc, mode: RefillMode, pad: nat, before: set<nat>)
      requires FreshEmpties(added, mode, pad, before) && FreshEmpties([d], mode, pad, before)
      requires d.cookie !in Cookies(added)
      ensures FreshEmpties(added + [d], mode, pad, before)
    {
    }

    /** One round of the refill: allocate, map, fill the slot; on any failure give the buffer back. */
    method AddEmpty(mode: RefillMode, pad: nat, heap: BufferHeap, hlos: nat, attempt: Attempt,
                    ghost added: seq<H2nDesc>, ghost before: set<nat>)
      returns (ok: bool, ghost d: H2nDesc)
      requires before <= heap.live
      requires Valid() && heap.Valid() && Staged(desc[..], |history|, added)
      requires hlos == Slot(|history| + |added|, size) && |added| < Free()
      modifies desc, heap, this`nssIndex, this`delivered
      ensures Valid() && heap.Valid() && old(delivered) <= delivered
      ensures ok <==> !Fails(mode, attempt)
      ensures ok <==> attempt.skb && (mode.Paged? ==> attempt.page) && attempt.dma.Some?
      ensures !ok ==> heap.live == old(heap.live) && Staged(desc[..], |history|, added)
      ensures ok ==> Staged(desc[..], |history|, added + [d])
      ensures ok ==> d.cookie !in old(heap.live) && heap.live == old(heap.live) + {d.cookie}
      ensures ok ==> FreshEmpties([d], mode, pad, before) && attempt.dma == Some(d.buffer)
      ensures heap.Kept(old(heap.room)) && (ok ==> Fits(d, mode, pad, heap.room))
    {
      hide Window, Slot, Staged;
      FirmwareReads();
      d := desc[hlos];
      var a := heap.Alloc(attempt.skb, AllocSize(mode), pad);
      if a.None? {
        return false, d;
      }
      var nbuf := a.value;
      if mode.Paged? && !attempt.page {
        heap.Free(nbuf);
        return false, d;
      }
      var shaped := desc[hlos].(bufferLen := RefillLen(mode, pad), payloadOffs := RefillOffs(mode, pad));
      WriteSlot(hlos, shaped, added);
      assert (added + [shaped])[..|added|] == added;
      StagedPrefix(desc[..], |history|, added + [shaped], |added|);
      if attempt.dma.None? {
        heap.Free(nbuf);
        return false, d;
      }
      var full := shaped.(cookie := nbuf, buffer := attempt.dma.value, bufferType := BUFFER_EMPTY);
      d := full;
      WriteSlot(hlos, full, added);
      return true, d;
    }

    /** The first of `count` attempts that fails, or `count` if none does. */
    static ghost predicate FirstFailure(n: nat, mode: RefillMode, attempts: nat -> Attempt, count: nat) {
      && n <= count
      && (forall k :: 0 <= k < n ==> !Fails(mode, attempts(k)))
      && (n < count ==> Fails(mode, attempts(n)))
    }

    /** Each buffer is the one its attempt mapped. */
    static ghost predicate MappedBy(added: seq<H2nDesc>, attempts: nat -> Attempt) {
      forall k :: 0 <= k < |added| ==> attempts(k).dma == Some(added[k].buffer)
    }

    /** The refill loop: stages buffers until `count` are there or one attempt fails. */
    method StageEmpties(mode: RefillMode, pad: nat, heap: BufferHeap, count: nat, attempts: nat -> Attempt)
      returns (filled: nat, ghost added: seq<H2nDesc>)
      requires Valid() && heap.Valid() && count <= Free()
      modifies desc, heap, this`nssIndex, this`delivered
      ensures Valid() && heap.Valid() && old(delivered) <= delivered
      ensures filled == |added| && FirstFailure(filled, mode, attempts, count)
      ensures Staged(desc[..], |history|, added) && MappedBy(added, attempts)
      ensures FreshEmpties(added, mode, pad, old(heap.live)) && heap.live == old(heap.live) + Cookies(added)
      ensures AllFit(added, mode, pad, heap.room)
    {
      hide FreshEmpties, Staged, Slot, Next, Window, Fails, AllFit, Fits;
      var hlos := hlosIndex;
      filled, added := 0, [];
      var ok := true;
      NothingStaged(desc[..], |history|);
      NoneFresh(mode, pad, heap.live);
      NoneFit(mode, pad, heap.room);
      while filled < count && ok
        invariant Valid() && heap.Valid() && old(delivered) <= delivered
        invariant filled == |added| <= count && Staged(desc[..], |history|, added)
        invariant forall k :: 0 <= k < filled ==> !Fails(mode, attempts(k))
        invariant !ok ==> filled < count && Fails(mode, attempts(filled))
        invariant MappedBy(added, attempts)
        invariant hlos == Slot(|history| + filled, size)
        invariant FreshEmpties(added, mode, pad, old(heap.live)) && heap.live == old(heap.live) + Cookies(added)
        invariant AllFit(added, mode, pad, heap.room)
        decreases count - filled, ok
      {
        ghost var d: H2nDesc;
        ghost var room := heap.room;
        ok, d := AddEmpty(mode, pad, heap, hlos, attempts(filled), added, old(heap.live));
        if ok {
          FreshAppend(added, d, mode, pad, old(heap.live));
          FitsAppend(added, d, mode, pad, room, heap.room);
          CookiesAppend(added, d);
          NextSlot(|history| + filled, size);
          added := added + [d];
          hlos := Next(hlos, size);
          filled := filled + 1;
        } else {
          StillFit(added, mode, pad, room, heap.room);
        }
      }
    }

    /**
     The refill of nss_core_handle_cause_nonqueue: keep adding empty buffers until one descriptor
     is left spare or an allocation or mapping fails, then publish what was staged. `seen` is how
     far the firmware had read when the free space was computed, so `size - 1` less what was in
     flight then is what the ring takes; all of it is queued if no attempt fails, and exactly what
     came before the first failure otherwise.
     */
    method Refill(mode: RefillMode, pad: nat, heap: BufferHeap, attempts: nat -> Attempt)
      returns (filled: nat, ghost seen: nat, ghost added: seq<H2nDesc>)
      requires Valid() && heap.Valid()
      modifies this, desc, heap
      ensures Valid() && heap.Valid() && old(delivered) <= delivered
      ensures |old(delivered)| <= seen <= |delivered|
      ensures history == old(history) + added && filled == |added| && txEmpty == old(txEmpty) + 1
      ensures FirstFailure(filled, mode, attempts, seen + size - 1 - |old(history)|) && MappedBy(added, attempts)
      ensures |history| == seen + size - 1
              <==> forall k :: 0 <= k < seen + size - 1 - |old(history)| ==> !Fails(mode, attempts(k))
      ensures FreshEmpties(added, mode, pad, old(heap.live)) && heap.live == old(heap.live) + Cookies(added)
      ensures AllFit(added, mode, pad, heap.room)
    {
      hide FreshEmpties, MappedBy, AllFit;
      FirmwareReads();
      seen := |delivered|;
      FreeCountExact(|delivered|, |history|, size);
      var count := FreeCount(nssIndex, hlosIndex, size);
      filled, added := StageEmpties(mode, pad, heap, count, attempts);
      Publish(filled, added);
      txEmpty := txEmpty + 1;
    }
  }

  ghost predicate FramedAs(history: seq<H2nDesc>, sent: seq<Sent>) {
    && history == EncodeAll(sent)
    && forall i :: 0 <= i < |sent| ==> Sendable(sent[i])
  }

  lemma CryptoEncoded(stale: H2nDesc, buf: nat, paddr: nat, len: nat)
    ensures Encode(Crypto(stale, buf, paddr, len)) == [] + [CryptoDesc(stale, buf, paddr, len)]
    ensures CarriesCrypto(CryptoDesc(stale, buf, paddr, len), buf, paddr, len)
  {
  }

  lemma FramedAppend(history: seq<H2nDesc>, sent: seq<Sent>, s: Sent)
    requires FramedAs(history, sent) && Sendable(s)
    ensures FramedAs(history + Encode(s), sent + [s])
  {
    assert (sent + [s])[..|sent|] == sent;
  }
}
