/**
 The wire format of the host-to-firmware data ring: how one packet becomes a frame of
 descriptors, and how the firmware side finds frames and their owners again.
 */
module Framing {
  import opened Machine

  datatype Option<+T> = None | Some(value: T)

  // ---------------------------------------------------------------- buffers and descriptors

  datatype Checksum = NotSummed | Unnecessary | Complete | Partial

  /** A member of an skb's frag_list. Offsets are relative to the start of its buffer. */
  datatype Segment = Segment(len: nat, dataLen: nat, dataOffs: nat, tailOffs: nat, endOffs: nat,
                             priority: nat, nrFrags: nat)

  /** An skb handed to the transmit path, which reads it but does not change it. */
  datatype Skb = Skb(addr: nat, len: nat, dataLen: nat, dataOffs: nat, tailOffs: nat, endOffs: nat,
                     priority: nat, checksum: Checksum, gsoSize: nat,
                     frags: seq<nat>, fragList: seq<Segment>)

  /** Bits of a descriptor's bit_flags that the ring code touches; `Other` are bits only callers set. */
  datatype Flag = CHECKSUM_GEN | FIRST | LAST | CHECKSUM_NONE | DISCARD | SEGMENTATION | REUSE | Other(bit: nat)

  /** A bit_flags word as the set of its bits: `|` is union and `& ~` is difference. */
  type Flags = set<Flag>

  datatype H2nDesc = H2nDesc(cookie: nat, buffer: nat, bufferLen: nat, payloadLen: nat, mss: nat,
                             payloadOffs: nat, interfaceNum: nat, bufferType: nat, flags: Flags, qosTag: nat)

  const BUFFER_CRYPTO_REQ: nat := 7
  const BUFFER_BOUNCE_INTERFACE: nat := 9
  const BUFFER_BOUNCE_BRIDGE: nat := 10

  const MAX_SKB_FRAGS: nat := 17
  const MAX_NET_INTERFACES: nat := 128

  predicate IsFirst(d: H2nDesc) { FIRST in d.flags }
  predicate IsLast(d: H2nDesc) { LAST in d.flags }
  predicate IsDiscard(d: H2nDesc) { DISCARD in d.flags }

  /** The frame bits belong to the ring code; callers pass other flags only. */
  predicate FrameBitsClear(flags: Flags) { FIRST !in flags && LAST !in flags && DISCARD !in flags }

  /** The (int8_t) cast applied to the interface number, widened again to uint16_t. */
  function InterfaceField(ifNum: nat): nat {
    var low := ifNum % 256;
    if low < 128 then low else 0x1_0000 - 256 + low
  }

  /** nss_core_write_one_descriptor with the integer conversions of its parameters and fields. */
  function Descriptor(bufferType: nat, buffer: nat, ifNum: nat, cookie: nat, payloadOffs: nat,
                      payloadLen: int, bufferLen: nat, qosTag: nat, mss: nat, flags: Flags): H2nDesc {
    H2nDesc(cookie, buffer, U16(bufferLen), U16(payloadLen), U16(mss), U16(payloadOffs),
            InterfaceField(ifNum), bufferType, flags, qosTag)
  }

  // ---------------------------------------------------------------- requests

  /** The arguments of nss_core_send_buffer. */
  datatype Request = Request(ifNum: nat, nbuf: Skb, bufferType: nat, flags: Flags)

  /** Results of the DMA mapping attempts of one send: `None` is a mapping error. */
  type Mapping = nat -> Option<nat>

  predicate IsBounce(bufferType: nat) {
    bufferType == BUFFER_BOUNCE_INTERFACE || bufferType == BUFFER_BOUNCE_BRIDGE
  }

  function Segments(nbuf: Skb): nat {
    if nbuf.fragList == [] then |nbuf.frags| else |nbuf.fragList|
  }

  datatype Route = Simple | FragList | FragArray

  function RouteOf(req: Request): Route {
    if Segments(req.nbuf) == 0 || IsBounce(req.bufferType) then Simple
    else if req.nbuf.fragList != [] then FragList
    else FragArray
  }

  predicate Offloaded(req: Request) { req.nbuf.gsoSize != 0 && !IsBounce(req.bufferType) }

  function TsoFlags(req: Request): Flags {
    if Offloaded(req) then req.flags + {SEGMENTATION} else req.flags
  }

  function Mss(req: Request): nat {
    if Offloaded(req) then req.nbuf.gsoSize else 0
  }

  function Addr(dma: Mapping, i: nat): nat {
    match dma(i) case Some(a) => a case None => 0
  }

  // ---------------------------------------------------------------- frames, one per packet

  function SimpleFlags(req: Request): Flags {
    var f := TsoFlags(req) + {FIRST, LAST};
    match req.nbuf.checksum
    case Partial => f + {CHECKSUM_GEN}
    case Unnecessary => f + {CHECKSUM_NONE}
    case _ => f
  }

  function SimpleFrame(req: Request, addr: nat): seq<H2nDesc> {
    var s := req.nbuf;
    [Descriptor(req.bufferType, addr, req.ifNum, s.addr, s.dataOffs, s.len, s.endOffs, s.priority,
                Mss(req), SimpleFlags(req))]
  }

  /** The recycled form: mapped over the whole buffer and flagged for reuse by the firmware. */
  function ReuseFrame(req: Request, addr: nat, maxBuf: nat): seq<H2nDesc> {
    var s := req.nbuf;
    var sz := if U16(s.tailOffs) >= U16(maxBuf) then U16(s.tailOffs) else U16(maxBuf);
    [Descriptor(req.bufferType, addr, req.ifNum, s.addr, s.dataOffs, s.len, sz, s.priority,
                Mss(req), SimpleFlags(req) + {REUSE})]
  }

  function ScatterFlags(req: Request): Flags {
    if req.nbuf.checksum == Partial then TsoFlags(req) + {CHECKSUM_GEN} else TsoFlags(req)
  }

  /** Head descriptor of a scattered packet: the linear part of the skb. */
  function HeadDesc(req: Request, addr: nat, cookie: nat, flags: Flags): H2nDesc {
    var s := req.nbuf;
    Descriptor(req.bufferType, addr, req.ifNum, cookie, s.dataOffs, s.len - s.dataLen, s.endOffs, s.priority,
               Mss(req), flags + {FIRST})
  }

  function FragDesc(req: Request, addr: nat, size: nat, cookie: nat, flags: Flags): H2nDesc {
    Descriptor(req.bufferType, addr, req.ifNum, cookie, 0, size, size, req.nbuf.priority, Mss(req), flags)
  }

  /** frags[]: everything but the last descriptor is DISCARD, the last one carries the owner. */
  function FragArrayDesc(req: Request, dma: Mapping, i: nat): H2nDesc
    requires i <= |req.nbuf.frags|
  {
    var flags := ScatterFlags(req) + {DISCARD};
    if i == 0 then HeadDesc(req, Addr(dma, 0), 0, flags)
    else FragDesc(req, Addr(dma, i), req.nbuf.frags[i - 1], 0, flags)
  }

  function Released(d: H2nDesc, owner: nat): H2nDesc {
    d.(flags := d.flags + {LAST} - {DISCARD}, cookie := owner)
  }

  function FragArrayBody(req: Request, dma: Mapping): (b: seq<H2nDesc>)
    ensures |b| == |req.nbuf.frags| + 1
    ensures forall i :: 0 <= i < |b| ==> b[i] == FragArrayDesc(req, dma, i)
  {
    seq(|req.nbuf.frags| + 1, i requires 0 <= i <= |req.nbuf.frags| => FragArrayDesc(req, dma, i))
  }

  function FragArrayFrame(req: Request, dma: Mapping): (f: seq<H2nDesc>)
    ensures |f| == |req.nbuf.frags| + 1
  {
    var b := FragArrayBody(req, dma);
    b[..|b| - 1] + [Released(b[|b| - 1], req.nbuf.addr)]
  }

  lemma FragArrayFrameShape(req: Request, dma: Mapping)
    ensures var b := FragArrayBody(req, dma);
            FragArrayFrame(req, dma)
            == b[..|b| - 1] + [Released(FragArrayDesc(req, dma, |req.nbuf.frags|), req.nbuf.addr)]
  {
  }

  function SegmentDesc(req: Request, addr: nat, s: Segment, flags: Flags): H2nDesc {
    Descriptor(req.bufferType, addr, req.ifNum, 0, s.dataOffs, s.len - s.dataLen, s.endOffs, s.priority,
               Mss(req), flags)
  }

  /** frag_list: the head carries the owner, every later descriptor is DISCARD. */
  function FragListDesc(req: Request, dma: Mapping, i: nat): H2nDesc
    requires i <= |req.nbuf.fragList|
  {
    if i == 0 then HeadDesc(req, Addr(dma, 0), req.nbuf.addr, ScatterFlags(req))
    else SegmentDesc(req, Addr(dma, i), req.nbuf.fragList[i - 1], ScatterFlags(req) + {DISCARD})
  }

  function Closed(d: H2nDesc): H2nDesc {
    d.(flags := d.flags + {LAST})
  }

  function FragListBody(req: Request, dma: Mapping): (b: seq<H2nDesc>)
    ensures |b| == |req.nbuf.fragList| + 1
    ensures forall i :: 0 <= i < |b| ==> b[i] == FragListDesc(req, dma, i)
  {
    seq(|req.nbuf.fragList| + 1, i requires 0 <= i <= |req.nbuf.fragList| => FragListDesc(req, dma, i))
  }

  function FragListFrame(req: Request, dma: Mapping): (f: seq<H2nDesc>)
    ensures |f| == |req.nbuf.fragList| + 1
  {
    var b := FragListBody(req, dma);
    b[..|b| - 1] + [Closed(b[|b| - 1])]
  }

  lemma FragListFrameShape(req: Request, dma: Mapping)
    ensures var b := FragListBody(req, dma);
            FragListFrame(req, dma) == b[..|b| - 1] + [Closed(FragListDesc(req, dma, |req.nbuf.fragList|))]
  {
  }

  /** nss_core_send_crypto fills only some fields; `stale` is what the slot held before. */
  function CryptoDesc(stale: H2nDesc, buf: nat, paddr: nat, len: nat): H2nDesc {
    stale.(cookie := buf, bufferType := BUFFER_CRYPTO_REQ, buffer := paddr, bufferLen := len,
           payloadLen := len, payloadOffs := 0, flags := {FIRST, LAST})
  }

  /** A crypto request: the session buffer's address, where and how much to work on, a frame of its own. */
  predicate CarriesCrypto(d: H2nDesc, buf: nat, paddr: nat, len: nat) {
    && d.bufferType == BUFFER_CRYPTO_REQ && d.cookie == buf && d.buffer == paddr
    && d.bufferLen == d.payloadLen == len && d.payloadOffs == 0 && d.flags == {FIRST, LAST}
  }

  // ---------------------------------------------------------------- what was sent

  /** One successful send, with the mappings it obtained. */
  datatype Sent =
    | Packet(req: Request, dma: Mapping)
    | Recycled(req: Request, addr: nat, maxBuf: nat)
    | Crypto(stale: H2nDesc, buf: nat, paddr: nat, len: nat)

  /** The conditions under which every mapping and every segment check of a send succeeds. */
  predicate Mapped(req: Request, dma: Mapping) {
    match RouteOf(req)
    case Simple => dma(0).Some?
    case FragArray => forall i :: 0 <= i <= |req.nbuf.frags| ==> dma(i).Some?
    case FragList =>
      && (forall i :: 0 <= i <= |req.nbuf.fragList| ==> dma(i).Some?)
      && (forall i :: 0 <= i < |req.nbuf.fragList| ==> req.nbuf.fragList[i].nrFrags == 0)
  }

  predicate Sendable(s: Sent) {
    match s
    case Packet(req, dma) => FrameBitsClear(req.flags) && Mapped(req, dma)
    case Recycled(req, _, _) => FrameBitsClear(req.flags) && RouteOf(req) == Simple
    case Crypto(_, _, _, len) => len < 0x1_0000
  }

  function Encode(s: Sent): (f: seq<H2nDesc>)
    ensures |f| > 0
  {
    match s
    case Packet(req, dma) => (
      match RouteOf(req)
      case Simple => SimpleFrame(req, Addr(dma, 0))
      case FragArray => FragArrayFrame(req, dma)
      case FragList => FragListFrame(req, dma))
    case Recycled(req, addr, maxBuf) => ReuseFrame(req, addr, maxBuf)
    case Crypto(stale, buf, paddr, len) => [CryptoDesc(stale, buf, paddr, len)]
  }

  // ---------------------------------------------------------------- what a frame says of its packet

  /** One descriptor, told from the skb: which piece it is, where that was mapped, and how it is to be treated. */
  ghost predicate Describes(f: seq<H2nDesc>, i: nat, req: Request, dma: Mapping)
    requires i < |f| && (|f| > 1 ==> |f| == Segments(req.nbuf) + 1)
  {
    var d, s := f[i], req.nbuf;
    && dma(i) == Some(d.buffer)
    && d.bufferType == req.bufferType && d.interfaceNum == InterfaceField(req.ifNum)
    && Placed(d, s, i, |f|) && Owns(d, s, i, |f|) && Treated(d, req, |f|)
    && (FIRST in d.flags <==> i == 0) && (LAST in d.flags <==> i == |f| - 1)
  }

  /** Where the piece lies in its buffer, and how much of it counts. */
  predicate Placed(d: H2nDesc, s: Skb, i: nat, n: nat)
    requires n != 1 ==> i <= Segments(s)
  {
    if n == 1 then
      d.payloadOffs == U16(s.dataOffs) && d.payloadLen == U16(s.len) && d.bufferLen == U16(s.endOffs)
      && d.qosTag == s.priority
    else if i == 0 then
      d.payloadOffs == U16(s.dataOffs) && d.payloadLen == U16(s.len - s.dataLen) && d.bufferLen == U16(s.endOffs)
      && d.qosTag == s.priority
    else if s.fragList != [] then
      var m := s.fragList[i - 1];
      d.payloadOffs == U16(m.dataOffs) && d.payloadLen == U16(m.len - m.dataLen) && d.bufferLen == U16(m.endOffs)
      && d.qosTag == m.priority
    else
      d.payloadOffs == 0 && d.payloadLen == d.bufferLen == U16(s.frags[i - 1]) && d.qosTag == s.priority
  }

  /** The skb is named once: at the head, unless it is followed by page fragments, then by the last of them. */
  predicate Owns(d: H2nDesc, s: Skb, i: nat, n: nat) {
    var owner := if n > 1 && s.fragList == [] then n - 1 else 0;
    d.cookie == (if i == owner then s.addr else 0) && (DISCARD in d.flags <==> i != owner)
  }

  /** Checksum and segmentation offload; every other bit is the caller's. */
  ghost predicate Treated(d: H2nDesc, req: Request, n: nat) {
    var s, bounced := req.nbuf, req.bufferType == BUFFER_BOUNCE_INTERFACE || req.bufferType == BUFFER_BOUNCE_BRIDGE;
    && (CHECKSUM_GEN in d.flags <==> CHECKSUM_GEN in req.flags || s.checksum == Partial)
    && (CHECKSUM_NONE in d.flags <==> CHECKSUM_NONE in req.flags || (n == 1 && s.checksum == Unnecessary))
    && (SEGMENTATION in d.flags <==> SEGMENTATION in req.flags || (s.gsoSize != 0 && !bounced))
    && d.mss == (if s.gsoSize != 0 && !bounced then U16(s.gsoSize) else 0)
    && (REUSE in d.flags <==> REUSE in req.flags)
    && forall b :: Other(b) in d.flags <==> Other(b) in req.flags
  }

  /** One descriptor per piece -- or one for all of a bounced packet -- and each describes its piece. */
  ghost predicate DescribesAll(f: seq<H2nDesc>, req: Request, dma: Mapping) {
    && |f| == (if req.bufferType == BUFFER_BOUNCE_INTERFACE || req.bufferType == BUFFER_BOUNCE_BRIDGE then 1
               else if req.nbuf.fragList != [] then |req.nbuf.fragList| + 1
               else |req.nbuf.frags| + 1)
    && forall i :: 0 <= i < |f| ==> Describes(f, i, req, dma)
  }

  /** The frame of a mapped packet says of every piece what the skb says. */
  lemma PacketDescribed(req: Request, dma: Mapping)
    requires FrameBitsClear(req.flags) && Mapped(req, dma)
    ensures DescribesAll(Encode(Packet(req, dma)), req, dma)
  {
    hide Encode, FragArrayFrame, FragListFrame, Describes;
    match RouteOf(req)
    case Simple => SimpleDescribed(req, dma);
    case FragArray =>
      forall i: nat | i < |FragArrayFrame(req, dma)|
        ensures Describes(FragArrayFrame(req, dma), i, req, dma)
      {
        FragArrayDescribed(req, dma, i);
      }
      assert Encode(Packet(req, dma)) == FragArrayFrame(req, dma) by { EncodeRoute(req, dma); }
    case FragList =>
      forall i: nat | i < |FragListFrame(req, dma)|
        ensures Describes(FragListFrame(req, dma), i, req, dma)
      {
        FragListDescribed(req, dma, i);
      }
      assert Encode(Packet(req, dma)) == FragListFrame(req, dma) by { EncodeRoute(req, dma); }
  }

  lemma EncodeRoute(req: Request, dma: Mapping)
    ensures Encode(Packet(req, dma))
            == match RouteOf(req)
               case Simple => SimpleFrame(req, Addr(dma, 0))
               case FragArray => FragArrayFrame(req, dma)
               case FragList => FragListFrame(req, dma)
  {
  }

  lemma U16Zero()
    ensures U16(0) == 0
  {
  }

  lemma SimpleDescribed(req: Request, dma: Mapping)
    requires FrameBitsClear(req.flags) && Mapped(req, dma) && RouteOf(req) == Simple
    ensures DescribesAll(Encode(Packet(req, dma)), req, dma)
  {
  }

  lemma FragArrayDescribed(req: Request, dma: Mapping, i: nat)
    requires FrameBitsClear(req.flags) && Mapped(req, dma) && RouteOf(req) == FragArray && i <= |req.nbuf.frags|
    ensures Describes(FragArrayFrame(req, dma), i, req, dma)
  {
    hide U16, InterfaceField;
    U16Zero();
  }

  lemma FragListDescribed(req: Request, dma: Mapping, i: nat)
    requires FrameBitsClear(req.flags) && Mapped(req, dma) && RouteOf(req) == FragList && i <= |req.nbuf.fragList|
    ensures Describes(FragListFrame(req, dma), i, req, dma)
  {
    hide Mapped, Placed, Owns, Treated, FragListDesc;
    ListMember(req, dma, i);
    assert dma(i).Some? by { MappedMember(req, dma, i); }
  }

  lemma MappedMember(req: Request, dma: Mapping, i: nat)
    requires Mapped(req, dma) && RouteOf(req) == FragList && i <= |req.nbuf.fragList|
    ensures dma(i).Some?
  {
  }

  /** A descriptor of a frag_list frame, closed if it is the last. */
  lemma ListMember(req: Request, dma: Mapping, i: nat)
    requires FrameBitsClear(req.flags) && RouteOf(req) == FragList && i <= |req.nbuf.fragList|
    ensures var n, b := |req.nbuf.fragList| + 1, FragListDesc(req, dma, i);
            var d := if i == n - 1 then Closed(b) else b;
            && d.buffer == Addr(dma, i) && d.bufferType == req.bufferType && d.interfaceNum == InterfaceField(req.ifNum)
            && Placed(d, req.nbuf, i, n) && Owns(d, req.nbuf, i, n) && Treated(d, req, n)
            && (FIRST in d.flags <==> i == 0) && (LAST in d.flags <==> i == n - 1)
  {
    hide U16, InterfaceField;
    U16Zero();
  }

  /** A recycled packet is one descriptor over its whole buffer, for the firmware to reuse. */
  ghost predicate DescribesReuse(f: seq<H2nDesc>, req: Request, addr: nat, maxBuf: nat) {
    && |f| == 1
    && var d, s := f[0], req.nbuf;
    && d.buffer == addr && d.bufferType == req.bufferType && d.interfaceNum == InterfaceField(req.ifNum)
    && d.cookie == s.addr && d.qosTag == s.priority
    && d.payloadOffs == U16(s.dataOffs) && d.payloadLen == U16(s.len)
    && (d.bufferLen == U16(s.tailOffs) || d.bufferLen == U16(maxBuf))
    && d.bufferLen >= U16(s.tailOffs) && d.bufferLen >= U16(maxBuf)
    && REUSE in d.flags && Treated(d.(flags := if REUSE in req.flags then d.flags else d.flags - {REUSE}), req, 1)
    && FIRST in d.flags && LAST in d.flags && DISCARD !in d.flags
  }

  lemma ReuseDescribed(req: Request, addr: nat, maxBuf: nat)
    requires FrameBitsClear(req.flags)
    ensures DescribesReuse(Encode(Recycled(req, addr, maxBuf)), req, addr, maxBuf)
  {
  }

  function EncodeAll(sent: seq<Sent>): seq<H2nDesc> {
    if sent == [] then [] else EncodeAll(sent[..|sent| - 1]) + Encode(sent[|sent| - 1])
  }

  // ---------------------------------------------------------------- the reader's side

  /** FIRST opens a frame, LAST closes it, and one descriptor alone may not be discarded: the owner's. */
  ghost predicate WellFramed(f: seq<H2nDesc>, owner: nat, at: nat) {
    && at < |f|
    && (forall i :: 0 <= i < |f| ==> (IsFirst(f[i]) <==> i == 0))
    && (forall i :: 0 <= i < |f| ==> (IsLast(f[i]) <==> i == |f| - 1))
    && (forall i :: 0 <= i < |f| ==> (IsDiscard(f[i]) <==> i != at))
    && (forall i :: 0 <= i < |f| ==> f[i].cookie == if i == at then owner else 0)
  }

  datatype Decoded = Decoded(owner: nat, route: Route, payloads: seq<nat>)

  function Payloads(f: seq<H2nDesc>): (p: seq<nat>)
    ensures |p| == |f|
    ensures forall i :: 0 <= i < |f| ==> p[i] == f[i].payloadLen
  {
    if f == [] then [] else Payloads(f[..|f| - 1]) + [f[|f| - 1].payloadLen]
  }

  /** Index of the first descriptor the firmware must hand back. */
  function OwnerIndex(f: seq<H2nDesc>): nat {
    if f == [] || !IsDiscard(f[0]) then 0 else 1 + OwnerIndex(f[1..])
  }

  /** What a reader recovers from one complete frame, by looking at flags and cookie values alone. */
  function DecodeFrame(f: seq<H2nDesc>): Decoded
    requires f != []
  {
    var at := OwnerIndex(f);
    Decoded(if at < |f| then f[at].cookie else 0,
            if |f| == 1 then Simple else if at == 0 then FragList else FragArray,
            Payloads(f))
  }

  /** Result of reading a stream: the complete packets, and the descriptors of an unfinished one. */
  datatype Reading = Reading(packets: seq<Decoded>, open: seq<H2nDesc>)

  /** A one-pass reader: collect descriptors until LAST, then emit the frame. */
  function Read(stream: seq<H2nDesc>): Reading {
    if stream == [] then Reading([], [])
    else
      var r := Read(stream[..|stream| - 1]);
      var d := stream[|stream| - 1];
      if IsLast(d) then Reading(r.packets + [DecodeFrame(r.open + [d])], [])
      else Reading(r.packets, r.open + [d])
  }

  /** What a packet is, told from the skb and not from any descriptor. */
  function Meaning(s: Sent): Decoded {
    match s
    case Packet(req, _) => (
      var n := req.nbuf;
      var linear := U16(n.len - n.dataLen);
      match RouteOf(req)
      case Simple => Decoded(n.addr, Simple, [U16(n.len)])
      case FragArray => Decoded(n.addr, FragArray, [linear] + FragSizes(n.frags))
      case FragList => Decoded(n.addr, FragList, [linear] + SegmentSizes(n.fragList)))
    case Recycled(req, _, _) => Decoded(req.nbuf.addr, Simple, [U16(req.nbuf.len)])
    case Crypto(_, buf, _, len) => Decoded(buf, Simple, [len])
  }

  function FragSizes(frags: seq<nat>): (r: seq<nat>)
    ensures |r| == |frags|
    ensures forall i :: 0 <= i < |r| ==> r[i] == U16(frags[i])
  {
    if frags == [] then [] else FragSizes(frags[..|frags| - 1]) + [U16(frags[|frags| - 1])]
  }

  function SegmentSizes(segs: seq<Segment>): (r: seq<nat>)
    ensures |r| == |segs|
    ensures forall i :: 0 <= i < |r| ==> r[i] == U16(segs[i].len - segs[i].dataLen)
  {
    if segs == [] then [] else SegmentSizes(segs[..|segs| - 1]) + [U16(segs[|segs| - 1].len - segs[|segs| - 1].dataLen)]
  }

  function Meanings(sent: seq<Sent>): (r: seq<Decoded>)
    ensures |r| == |sent|
    ensures forall i :: 0 <= i < |r| ==> r[i] == Meaning(sent[i])
  {
    if sent == [] then [] else Meanings(sent[..|sent| - 1]) + [Meaning(sent[|sent| - 1])]
  }

  // ---------------------------------------------------------------- frames are well formed

  /** Position of the owner within the frame of a send. */
  function OwnerAt(s: Sent): nat {
    if s.Packet? && RouteOf(s.req) == FragArray then |s.req.nbuf.frags| else 0
  }

  function OwnerOf(s: Sent): nat {
    match s
    case Packet(req, _) => req.nbuf.addr
    case Recycled(req, _, _) => req.nbuf.addr
    case Crypto(_, buf, _, _) => buf
  }

  lemma FragArrayBits(req: Request, dma: Mapping, i: nat)
    requires FrameBitsClear(req.flags) && i <= |req.nbuf.frags|
    ensures var d := FragArrayDesc(req, dma, i);
            (IsFirst(d) <==> i == 0) && !IsLast(d) && IsDiscard(d) && d.cookie == 0
  {
  }

  lemma FragListBits(req: Request, dma: Mapping, i: nat)
    requires FrameBitsClear(req.flags) && i <= |req.nbuf.fragList|
    ensures var d := FragListDesc(req, dma, i);
            (IsFirst(d) <==> i == 0) && !IsLast(d) && (IsDiscard(d) <==> i != 0)
            && d.cookie == if i == 0 then req.nbuf.addr else 0
  {
  }

  lemma FragArrayWellFramed(req: Request, dma: Mapping)
    requires FrameBitsClear(req.flags) && req.nbuf.frags != []
    ensures WellFramed(FragArrayFrame(req, dma), req.nbuf.addr, |req.nbuf.frags|)
  {
    var f, n := FragArrayFrame(req, dma), |req.nbuf.frags|;
    forall i | 0 <= i <= n
      ensures (IsFirst(f[i]) <==> i == 0) && (IsLast(f[i]) <==> i == n) && (IsDiscard(f[i]) <==> i != n)
      ensures f[i].cookie == if i == n then req.nbuf.addr else 0
    {
      FragArrayBits(req, dma, i);
    }
  }

  lemma FragListWellFramed(req: Request, dma: Mapping)
    requires FrameBitsClear(req.flags)
    ensures WellFramed(FragListFrame(req, dma), req.nbuf.addr, 0)
  {
    var f, n := FragListFrame(req, dma), |req.nbuf.fragList|;
    forall i | 0 <= i <= n
      ensures (IsFirst(f[i]) <==> i == 0) && (IsLast(f[i]) <==> i == n) && (IsDiscard(f[i]) <==> i != 0)
      ensures f[i].cookie == if i == 0 then req.nbuf.addr else 0
    {
      FragListBits(req, dma, i);
    }
  }

  /** Every successful send yields a well-formed frame naming its owner exactly once. */
  lemma EncodeWellFramed(s: Sent)
    requires Sendable(s)
    ensures WellFramed(Encode(s), OwnerOf(s), OwnerAt(s))
  {
    match s {
      case Packet(req, dma) =>
        match RouteOf(req) {
          case Simple =>
          case FragArray => FragArrayWellFramed(req, dma);
          case FragList => FragListWellFramed(req, dma);
        }
      case Recycled(req, _, _) =>
      case Crypto(_, _, _, _) =>
    }
  }

  lemma {:induction false} OwnerIndexFound(f: seq<H2nDesc>, at: nat)
    requires at < |f|
    requires forall i :: 0 <= i < |f| ==> (IsDiscard(f[i]) <==> i != at)
    ensures OwnerIndex(f) == at
  {
    if at > 0 {
      assert forall i :: 0 <= i < |f| - 1 ==> f[1..][i] == f[i + 1];
      OwnerIndexFound(f[1..], at - 1);
    }
  }

  lemma FragArrayPayload(req: Request, dma: Mapping, i: nat)
    requires i <= |req.nbuf.frags|
    ensures FragArrayFrame(req, dma)[i].payloadLen
         == if i == 0 then U16(req.nbuf.len - req.nbuf.dataLen) else U16(req.nbuf.frags[i - 1])
  {
    assert FragArrayFrame(req, dma)[i].payloadLen == FragArrayDesc(req, dma, i).payloadLen;
  }

  lemma FragListPayload(req: Request, dma: Mapping, i: nat)
    requires i <= |req.nbuf.fragList|
    ensures FragListFrame(req, dma)[i].payloadLen
         == if i == 0 then U16(req.nbuf.len - req.nbuf.dataLen)
            else U16(req.nbuf.fragList[i - 1].len - req.nbuf.fragList[i - 1].dataLen)
  {
    assert FragListFrame(req, dma)[i].payloadLen == FragListDesc(req, dma, i).payloadLen;
  }

  lemma FragArrayPayloads(req: Request, dma: Mapping)
    ensures Payloads(FragArrayFrame(req, dma)) == [U16(req.nbuf.len - req.nbuf.dataLen)] + FragSizes(req.nbuf.frags)
  {
    var p, m := Payloads(FragArrayFrame(req, dma)), [U16(req.nbuf.len - req.nbuf.dataLen)] + FragSizes(req.nbuf.frags);
    forall i | 0 <= i <= |req.nbuf.frags|
      ensures p[i] == m[i]
    {
      FragArrayPayload(req, dma, i);
    }
  }

  lemma FragListPayloads(req: Request, dma: Mapping)
    ensures Payloads(FragListFrame(req, dma))
            == [U16(req.nbuf.len - req.nbuf.dataLen)] + SegmentSizes(req.nbuf.fragList)
  {
    var p := Payloads(FragListFrame(req, dma));
    var m := [U16(req.nbuf.len - req.nbuf.dataLen)] + SegmentSizes(req.nbuf.fragList);
    forall i | 0 <= i <= |req.nbuf.fragList|
      ensures p[i] == m[i]
    {
      FragListPayload(req, dma, i);
    }
  }

  lemma SinglePayload(s: Sent)
    requires s.Packet? ==> RouteOf(s.req) == Simple
    ensures Payloads(Encode(s)) == Meaning(s).payloads
  {
    assert |Encode(s)| == 1 && |Meaning(s).payloads| == 1;
  }

  lemma EncodePayloads(s: Sent)
    ensures Payloads(Encode(s)) == Meaning(s).payloads
  {
    hide FragArrayFrame, FragListFrame, Payloads, FragSizes, SegmentSizes, SimpleFrame, ReuseFrame, CryptoDesc;
    if s.Packet? && RouteOf(s.req) == FragArray {
      FragArrayPayloads(s.req, s.dma);
    } else if s.Packet? && RouteOf(s.req) == FragList {
      FragListPayloads(s.req, s.dma);
    } else {
      SinglePayload(s);
    }
  }

  /** Decoding the frame of a send gives back the packet. */
  lemma DecodeEncode(s: Sent)
    requires Sendable(s)
    ensures DecodeFrame(Encode(s)) == Meaning(s)
  {
    EncodeWellFramed(s);
    OwnerIndexFound(Encode(s), OwnerAt(s));
    EncodePayloads(s);
  }

  // ---------------------------------------------------------------- whole streams

  lemma ReadAppend(stream: seq<H2nDesc>, d: H2nDesc)
    ensures var r := Read(stream);
            Read(stream + [d]) == if IsLast(d) then Reading(r.packets + [DecodeFrame(r.open + [d])], [])
                                  else Reading(r.packets, r.open + [d])
  {
    assert (stream + [d])[..|stream|] == stream;
  }

  /** A frame with no LAST in it stays open at the reader. */
  lemma {:induction false} ReadOpen(stream: seq<H2nDesc>, part: seq<H2nDesc>)
    requires Read(stream).open == []
    requires forall i :: 0 <= i < |part| ==> !IsLast(part[i])
    ensures Read(stream + part) == Reading(Read(stream).packets, part)
  {
    hide Read, DecodeFrame;
    if part == [] {
      assert stream + part == stream;
    } else {
      var init, d := part[..|part| - 1], part[|part| - 1];
      ReadOpen(stream, init);
      ReadAppend(stream + init, d);
      assert init + [d] == part;
      assert (stream + init) + [d] == stream + part;
    }
  }

  lemma ReadClosed(stream: seq<H2nDesc>, f: seq<H2nDesc>)
    requires Read(stream).open == [] && f != []
    requires forall i :: 0 <= i < |f| ==> (IsLast(f[i]) <==> i == |f| - 1)
    ensures Read(stream + f) == Reading(Read(stream).packets + [DecodeFrame(f)], [])
  {
    hide Read, DecodeFrame;
    var init, d := f[..|f| - 1], f[|f| - 1];
    ReadOpen(stream, init);
    ReadAppend(stream + init, d);
    assert init + [d] == f;
    assert (stream + init) + [d] == stream + f;
  }

  /** A complete frame is read back as one packet. */
  lemma ReadFrame(stream: seq<H2nDesc>, s: Sent)
    requires Read(stream).open == [] && Sendable(s)
    ensures Read(stream + Encode(s)) == Reading(Read(stream).packets + [Meaning(s)], [])
  {
    EncodeWellFramed(s);
    ReadClosed(stream, Encode(s));
    DecodeEncode(s);
  }

  /** The concatenated frames of any sends decode to exactly the packets sent. */
  lemma {:induction false} ReadAll(sent: seq<Sent>)
    requires forall i :: 0 <= i < |sent| ==> Sendable(sent[i])
    ensures Read(EncodeAll(sent)) == Reading(Meanings(sent), [])
  {
    if sent != [] {
      var init := sent[..|sent| - 1];
      ReadAll(init);
      ReadFrame(EncodeAll(init), sent[|sent| - 1]);
    }
  }

  /** No two different packet sequences share a stream. */
  lemma UniquelyDecodable(sent: seq<Sent>, sent': seq<Sent>)
    requires forall i :: 0 <= i < |sent| ==> Sendable(sent[i])
    requires forall i :: 0 <= i < |sent'| ==> Sendable(sent'[i])
    requires EncodeAll(sent) == EncodeAll(sent')
    ensures Meanings(sent) == Meanings(sent')
  {
    ReadAll(sent);
    ReadAll(sent');
  }

  /** Reading less of a stream never yields a packet that reading more does not. */
  lemma {:induction false} ReadPrefix(stream: seq<H2nDesc>, k: nat)
    requires k <= |stream|
    ensures Read(stream[..k]).packets <= Read(stream).packets
  {
    if k < |stream| {
      var init := stream[..|stream| - 1];
      ReadPrefix(init, k);
      assert init[..k] == stream[..k];
    } else {
      assert stream[..k] == stream;
    }
  }

  /** At any moment a reader has recovered a prefix of the packets sent, whole and in order. */
  lemma ReaderSeesPrefix(sent: seq<Sent>, delivered: seq<H2nDesc>)
    requires forall i :: 0 <= i < |sent| ==> Sendable(sent[i])
    requires delivered <= EncodeAll(sent)
    ensures Read(delivered).packets <= Meanings(sent)
  {
    ReadAll(sent);
    ReadPrefix(EncodeAll(sent), |delivered|);
    assert EncodeAll(sent)[..|delivered|] == delivered;
  }

  // ---------------------------------------------------------------- lengths

  function Sum(xs: seq<nat>): nat {
    if xs == [] then 0 else Sum(xs[..|xs| - 1]) + xs[|xs| - 1]
  }

  function SegmentBytes(segs: seq<Segment>): nat {
    if segs == [] then 0 else SegmentBytes(segs[..|segs| - 1]) + segs[|segs| - 1].len
  }

  /** Bytes that the frag_list members keep outside their linear buffers. */
  function NestedBytes(segs: seq<Segment>): nat {
    if segs == [] then 0 else NestedBytes(segs[..|segs| - 1]) + segs[|segs| - 1].dataLen
  }

  /** The length bookkeeping the kernel keeps for every skb, with a total that fits 16 bits. */
  ghost predicate Consistent(n: Skb) {
    && n.dataLen == Sum(n.frags) + SegmentBytes(n.fragList)
    && n.dataLen <= n.len < 0x1_0000
    && forall i :: 0 <= i < |n.fragList| ==> n.fragList[i].dataLen <= n.fragList[i].len
  }

  /** Bytes a scattered send leaves out: page data of a head with a frag_list, and nested data. */
  function Unsent(req: Request): nat {
    if RouteOf(req) == FragList then Sum(req.nbuf.frags) + NestedBytes(req.nbuf.fragList) else 0
  }

  lemma {:induction false} SumFragSizes(frags: seq<nat>)
    requires Sum(frags) < 0x1_0000
    ensures Sum(FragSizes(frags)) == Sum(frags)
  {
    if frags == [] {
    } else {
      SumFragSizes(frags[..|frags| - 1]);
      SumAppend(FragSizes(frags[..|frags| - 1]), U16(frags[|frags| - 1]));
    }
  }

  lemma {:induction false} SumSegmentSizes(segs: seq<Segment>)
    requires forall i :: 0 <= i < |segs| ==> segs[i].dataLen <= segs[i].len
    requires SegmentBytes(segs) < 0x1_0000
    ensures Sum(SegmentSizes(segs)) + NestedBytes(segs) == SegmentBytes(segs)
  {
    if segs == [] {
    } else {
      var init, last := segs[..|segs| - 1], segs[|segs| - 1];
      SumSegmentSizes(init);
      SumAppend(SegmentSizes(init), U16(last.len - last.dataLen));
      assert SegmentSizes(segs) == SegmentSizes(init) + [U16(last.len - last.dataLen)];
      assert U16(last.len - last.dataLen) == last.len - last.dataLen;
    }
  }

  lemma SumAppend(xs: seq<nat>, x: nat)
    ensures Sum(xs + [x]) == Sum(xs) + x
  {
    assert (xs + [x])[..|xs|] == xs;
  }

  lemma {:induction false} SumCons(x: nat, xs: seq<nat>)
    ensures Sum([x] + xs) == x + Sum(xs)
  {
    if xs == [] {
      assert [x] + xs == [x] && [x][..0] == [];
    } else {
      SumCons(x, xs[..|xs| - 1]);
      assert ([x] + xs)[..|xs|] == [x] + xs[..|xs| - 1];
    }
  }

  lemma SumOne(x: nat)
    ensures Sum([x]) == x
  {
    assert [x][..0] == [];
  }

  lemma FragArraySum(n: Skb)
    requires Consistent(n) && n.fragList == []
    ensures Sum([n.len - n.dataLen] + FragSizes(n.frags)) == n.len
  {
    SumFragSizes(n.frags);
    SumCons(n.len - n.dataLen, FragSizes(n.frags));
  }

  lemma FragListSum(n: Skb)
    requires Consistent(n)
    ensures Sum([n.len - n.dataLen] + SegmentSizes(n.fragList)) + Sum(n.frags) + NestedBytes(n.fragList) == n.len
  {
    SumSegmentSizes(n.fragList);
    SumCons(n.len - n.dataLen, SegmentSizes(n.fragList));
  }

  /** The payload lengths told from the skb add up to its length less what is left out. */
  lemma MeaningSum(s: Sent)
    requires s.Packet? && Consistent(s.req.nbuf)
    ensures Sum(Meaning(s).payloads) + Unsent(s.req) == s.req.nbuf.len
  {
    var n := s.req.nbuf;
    match RouteOf(s.req) {
      case Simple => SumOne(n.len);
      case FragArray => FragArraySum(n);
      case FragList => FragListSum(n);
    }
  }

  /** So do the payload lengths written to the ring. */
  lemma PayloadSum(s: Sent)
    requires s.Packet? && Sendable(s) && Consistent(s.req.nbuf)
    ensures Sum(Payloads(Encode(s))) + Unsent(s.req) == s.req.nbuf.len
  {
    EncodePayloads(s);
    MeaningSum(s);
  }

  lemma {:induction false} SumZero(xs: seq<nat>)
    ensures Sum(xs) == 0 <==> forall i :: 0 <= i < |xs| ==> xs[i] == 0
  {
    if xs != [] {
      SumZero(xs[..|xs| - 1]);
    }
  }

  lemma {:induction false} NestedZero(segs: seq<Segment>)
    ensures NestedBytes(segs) == 0 <==> forall i :: 0 <= i < |segs| ==> segs[i].dataLen == 0
  {
    if segs != [] {
      NestedZero(segs[..|segs| - 1]);
    }
  }

  /**
   Payloads cover the packet exactly when a packet sent as a frag_list keeps no bytes in the
   frags[] of its head and none outside the linear buffer of a member.
   */
  lemma PayloadsCoverPacket(s: Sent)
    requires s.Packet? && Sendable(s) && Consistent(s.req.nbuf)
    ensures Sum(Payloads(Encode(s))) == s.req.nbuf.len
       <==> (RouteOf(s.req) == FragList ==>
             && (forall i :: 0 <= i < |s.req.nbuf.frags| ==> s.req.nbuf.frags[i] == 0)
             && (forall i :: 0 <= i < |s.req.nbuf.fragList| ==> s.req.nbuf.fragList[i].dataLen == 0))
  {
    PayloadSum(s);
    SumZero(s.req.nbuf.frags);
    NestedZero(s.req.nbuf.fragList);
  }

  /** A packet that loses bytes: 40 linear, 60 in a page of the head, 100 in a frag_list member. */
  function MixedPacket(): Request {
    Request(0, Skb(1, 200, 160, 0, 40, 64, 0, NotSummed, 0, [60], [Segment(100, 0, 0, 100, 100, 0, 0)]), 2, {})
  }

  lemma MixedPacketLosesBytes(s: Sent)
    requires s.Packet? && s.req == MixedPacket() && Sendable(s)
    ensures Consistent(s.req.nbuf) && s.req.nbuf.len == 200 && Sum(Payloads(Encode(s))) == 140
  {
    SumOne(60);
    var segs := s.req.nbuf.fragList;
    assert SegmentBytes(segs) == 100 && NestedBytes(segs) == 0 by {
      assert segs[..0] == [];
    }
    PayloadSum(s);
  }

  /** The 8-bit cast keeps every number the driver assigns; of the others only the top 128 of uint16_t survive it. */
  lemma InterfaceFieldFaithful(ifNum: nat)
    requires ifNum < 0x1_0000
    ensures InterfaceField(ifNum) == ifNum <==> ifNum < MAX_NET_INTERFACES || ifNum >= 0x1_0000 - 128
  {
  }
}
