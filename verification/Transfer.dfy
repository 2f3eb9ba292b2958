/** The stop-and-wait file transfer of the two UDP programs.

    One side reads a file in 1024-byte chunks, XORs each chunk with a fixed key and sends it
    under an index; the other side appends the chunk whose index it expects and acknowledges
    whatever index it saw. The channel keeps every datagram ever sent and may deliver any of
    them any number of times, in any order, or never.

    The same code runs in both directions: the client's `put` loop against the server's, and
    the server's `get` loop against the client's. The only difference a datagram can show is
    that the server clears its buffer after sending while the client leaves the old bytes in
    it; `clears` selects which.
  */
module Transfer {

  type Byte = bv8

  const BUFSIZE: nat := 1024
  const KEY: Byte := 10

  // ---------------------------------------------------------------------------
  // Encoding

  /** XORs the first `length` bytes with the key and leaves the rest alone. */
  function Encode(data: seq<Byte>, length: nat, key: Byte): (r: seq<Byte>)
    requires length <= |data|
  {
    seq(|data|, i requires 0 <= i < |data| => if i < length then data[i] ^ key else data[i])
  }

  /** Encoding twice with one key and length is the identity, whatever sits past `length`. */
  lemma EncodeUndoesItself(data: seq<Byte>, length: nat, key: Byte)
    requires length <= |data|
    ensures Encode(Encode(data, length, key), length, key) == data
  {
  }

  /** The in-place loop both programs run over a packet buffer. */
  method EncodeInPlace(buf: array<Byte>, length: nat, key: Byte)
    requires length <= buf.Length
    modifies buf
    ensures forall k :: 0 <= k < length ==> buf[k] == old(buf[k]) ^ key
    ensures forall k :: length <= k < buf.Length ==> buf[k] == old(buf[k])
    ensures buf[..] == Encode(old(buf[..]), length, key)
  {
    for i := 0 to length
      invariant forall k :: 0 <= k < i ==> buf[k] == old(buf[k]) ^ key
      invariant forall k :: i <= k < buf.Length ==> buf[k] == old(buf[k])
    {
      buf[i] := buf[i] ^ key;
    }
  }

  // ---------------------------------------------------------------------------
  // The file seen as chunks 1, 2, ..., ChunkCount

  function Min(a: int, b: int): int {
    if a < b then a else b
  }

  /** What fread returns at offset `pos`. */
  function Fread(file: seq<Byte>, pos: nat): seq<Byte>
    requires pos <= |file|
  {
    file[pos..Min(pos + BUFSIZE, |file|)]
  }

  /** A length divisible by 1024 ends with an empty chunk, so there is always a short one. */
  function ChunkCount(file: seq<Byte>): nat {
    |file| / BUFSIZE + 1
  }

  function Chunk(file: seq<Byte>, i: nat): seq<Byte>
    requires 1 <= i <= ChunkCount(file)
  {
    Fread(file, BUFSIZE * (i - 1))
  }

  /** The first `i` chunks. */
  function Prefix(file: seq<Byte>, i: nat): seq<Byte> {
    file[..Min(BUFSIZE * i, |file|)]
  }

  // ---------------------------------------------------------------------------
  // The two ends as values

  datatype Packet = Packet(index: nat, length: nat, data: seq<Byte>)

  datatype Phase = AtHead | AwaitingAck | Left

  datatype Sender = Sender(file: seq<Byte>, pos: nat, index: nat, length: nat, buf: seq<Byte>, phase: Phase)

  datatype Receiver = Receiver(out: seq<Byte>, expected: nat, done: bool)

  ghost predicate ReadyToSend(s: Sender) {
    s.phase == AtHead && s.pos <= |s.file| && |s.buf| == BUFSIZE
  }

  function Zeros(): seq<Byte> {
    seq(BUFSIZE, _ => 0)
  }

  /** fread, encode, sendto. */
  function Sent(s: Sender): (p: Packet)
    requires ReadyToSend(s)
  {
    var got := Fread(s.file, s.pos);
    Packet(s.index, |got|, Encode(got + s.buf[|got|..], |got|, KEY))
  }

  function AfterSend(s: Sender, clears: bool): Sender
    requires ReadyToSend(s)
  {
    var p := Sent(s);
    s.(pos := s.pos + p.length, length := p.length, phase := AwaitingAck,
       buf := if clears then Zeros() else p.data)
  }

  /** A timeout seeks back and goes straight to the loop head: the exit test is skipped. */
  function AfterTimeout(s: Sender): Sender
    requires s.phase == AwaitingAck && s.length <= s.pos
  {
    s.(pos := s.pos - s.length, phase := AtHead)
  }

  /** An acknowledgement, matching or not, is followed by the exit test on the chunk length. */
  function AfterAck(s: Sender, ack: nat): Sender
    requires s.phase == AwaitingAck && s.length <= s.pos
  {
    var s' := if ack == s.index then s.(index := s.index + 1) else s.(pos := s.pos - s.length);
    s'.(phase := if s.length != BUFSIZE then Left else AtHead)
  }

  function AckFor(r: Receiver, p: Packet): nat {
    if p.index != r.expected then p.index else r.expected
  }

  function AfterPacket(r: Receiver, p: Packet): Receiver
    requires p.length <= |p.data|
  {
    var r' := if p.index != r.expected then r
              else r.(out := r.out + Encode(p.data, p.length, KEY)[..p.length], expected := r.expected + 1);
    r'.(done := p.length != BUFSIZE)
  }

  // ---------------------------------------------------------------------------
  // What one end keeps by itself

  /** What every packet ever sent carries. */
  ghost predicate CarriesChunk(file: seq<Byte>, p: Packet) {
    && 1 <= p.index <= ChunkCount(file)
    && |p.data| == BUFSIZE
    && p.length == |Chunk(file, p.index)|
    && Encode(p.data, p.length, KEY)[..p.length] == Chunk(file, p.index)
  }

  /** At a loop head the file offset is that of the chunk about to be sent; while waiting it is
      past that chunk; and the loop is left only at the last chunk. */
  ghost predicate SenderInv(file: seq<Byte>, s: Sender) {
    && s.file == file
    && |s.buf| == BUFSIZE
    && 1 <= s.index <= ChunkCount(file) + 1
    && match s.phase
       case AtHead => s.index <= ChunkCount(file) && s.pos == BUFSIZE * (s.index - 1)
       case AwaitingAck =>
         && s.index <= ChunkCount(file)
         && s.length == |Chunk(file, s.index)|
         && s.pos == BUFSIZE * (s.index - 1) + s.length
       case Left => s.index >= ChunkCount(file)
  }

  lemma ChunkFacts(file: seq<Byte>, i: nat)
    requires 1 <= i <= ChunkCount(file)
    ensures |Chunk(file, i)| == BUFSIZE <==> i < ChunkCount(file)
    ensures |Chunk(file, i)| <= BUFSIZE
    ensures Prefix(file, i - 1) + Chunk(file, i) == Prefix(file, i)
    ensures |Prefix(file, i - 1)| == BUFSIZE * (i - 1)
    ensures Prefix(file, ChunkCount(file)) == file
  {
  }

  lemma SentCarriesChunk(file: seq<Byte>, s: Sender)
    requires SenderInv(file, s) && s.phase == AtHead
    ensures ReadyToSend(s)
    ensures CarriesChunk(file, Sent(s)) && Sent(s).index == s.index
  {
  }

  // ---------------------------------------------------------------------------
  // The two ends as the programs hold them: records and buffers updated in place

  class SendingEnd {
    const file: seq<Byte>
    const clears: bool
    const buf: array<Byte>
    var pos: nat
    var index: nat
    var length: nat
    var phase: Phase

    ghost function State(): Sender
      reads this, buf
    {
      Sender(file, pos, index, length, buf[..], phase)
    }

    ghost predicate Valid()
      reads this, buf
    {
      SenderInv(file, State())
    }

    constructor (file: seq<Byte>, clears: bool)
      ensures this.file == file && this.clears == clears && fresh(buf)
      ensures State() == Sender(file, 0, 1, 0, Zeros(), AtHead) && Valid()
    {
      this.file := file;
      this.clears := clears;
      buf := new Byte[BUFSIZE](_ => 0);
      pos, index, length, phase := 0, 1, 0, AtHead;
    }

    /** The packet carries chunk `index` of the file, whatever the buffer held before. */
    method SendChunk() returns (p: Packet)
      requires Valid() && phase == AtHead
      modifies this, buf
      ensures Valid() && phase == AwaitingAck && index == old(index)
      ensures CarriesChunk(file, p) && p.index == index
      ensures p == Sent(old(State())) && State() == AfterSend(old(State()), clears)
    {
      SentCarriesChunk(file, State());
      var got := Fread(file, pos);
      forall i | 0 <= i < |got| {
        buf[i] := got[i];
      }
      assert buf[..] == got + old(buf[..])[|got|..];
      pos, length := pos + |got|, |got|;
      EncodeInPlace(buf, length, KEY);
      p := Packet(index, length, buf[..]);
      if clears {
        forall i | 0 <= i < buf.Length {
          buf[i] := 0;
        }
        assert buf[..] == Zeros();
      }
      phase := AwaitingAck;
    }

    /** Whatever chunk was out, the next one sent is the same chunk again. */
    method Timeout()
      requires Valid() && phase == AwaitingAck
      modifies this
      ensures Valid() && phase == AtHead && index == old(index)
      ensures pos == BUFSIZE * (index - 1) && Fread(file, pos) == Chunk(file, index)
      ensures State() == AfterTimeout(old(State()))
    {
      pos := pos - length;
      phase := AtHead;
    }

    /** The index advances exactly on a matching acknowledgement; the loop ends exactly when the
        last chunk was out, matching or not; otherwise the next chunk sent is chunk `index`. */
    method Acknowledge(ack: nat)
      requires Valid() && phase == AwaitingAck
      modifies this
      ensures Valid() && index == old(index) + (if ack == old(index) then 1 else 0)
      ensures phase == Left <==> old(index) == ChunkCount(file)
      ensures phase != Left ==> index <= ChunkCount(file) && pos <= |file| && Fread(file, pos) == Chunk(file, index)
      ensures State() == AfterAck(old(State()), ack)
    {
      ChunkFacts(file, index);
      if ack == index {
        index := index + 1;
      } else {
        pos := pos - length;
      }
      if length != BUFSIZE {
        phase := Left;
      } else {
        phase := AtHead;
      }
    }
  }

  class ReceivingEnd {
    var out: seq<Byte>
    var expected: nat
    var done: bool

    ghost function State(): Receiver
      reads this
    {
      Receiver(out, expected, done)
    }

    /** The file is opened for appending, so what it already held stays in front. */
    constructor (existing: seq<Byte>)
      ensures State() == Receiver(existing, 1, false)
    {
      out, expected, done := existing, 1, false;
    }

    /** Whatever the index, it is acknowledged, and a short packet ends the loop; only the
        expected one is appended, each byte decoded. */
    method Receive(p: Packet) returns (ack: nat)
      requires p.length <= |p.data|
      modifies this
      ensures ack == p.index && (done <==> p.length != 1024)
      ensures if p.index != old(expected) then out == old(out) && expected == old(expected)
              else
                && expected == old(expected) + 1
                && |out| == |old(out)| + p.length && old(out) <= out
                && forall k :: 0 <= k < p.length ==> out[|old(out)| + k] == p.data[k] ^ 10
      ensures ack == AckFor(old(State()), p)
      ensures State() == AfterPacket(old(State()), p)
    {
      var buf := new Byte[|p.data|](i requires 0 <= i < |p.data| => p.data[i]);
      assert buf[..] == p.data;
      EncodeInPlace(buf, p.length, KEY);
      if p.index != expected {
        ack := p.index;
      } else {
        out := out + buf[..p.length];
        ack := expected;
        expected := expected + 1;
      }
      done := p.length != BUFSIZE;
    }
  }

  // ---------------------------------------------------------------------------
  // The whole system: two ends and a channel that forgets nothing

  datatype System = System(s: Sender, r: Receiver, packets: set<Packet>, acks: set<nat>, clears: bool)

  datatype Event =
    | Send
    | Timeout
    | DeliverAck(ack: nat)
    | DeliverPacket(p: Packet)

  function Start(file: seq<Byte>, existing: seq<Byte>, clears: bool): System {
    System(Sender(file, 0, 1, 0, Zeros(), AtHead), Receiver(existing, 1, false), {}, {}, clears)
  }

  ghost predicate Enabled(w: System, e: Event) {
    match e
    case Send => ReadyToSend(w.s)
    case Timeout => w.s.phase == AwaitingAck && w.s.length <= w.s.pos
    case DeliverAck(a) => a in w.acks && w.s.phase == AwaitingAck && w.s.length <= w.s.pos
    case DeliverPacket(p) => p in w.packets && !w.r.done && p.length <= |p.data|
  }

  ghost function Step(w: System, e: Event): System
    requires Enabled(w, e)
  {
    match e
    case Send => w.(s := AfterSend(w.s, w.clears), packets := w.packets + {Sent(w.s)})
    case Timeout => w.(s := AfterTimeout(w.s))
    case DeliverAck(a) => w.(s := AfterAck(w.s, a))
    case DeliverPacket(p) => w.(r := AfterPacket(w.r, p), acks := w.acks + {AckFor(w.r, p)})
  }

  ghost predicate Run(w: System, es: seq<Event>, u: System)
    decreases es
  {
    if es == [] then w == u else Enabled(w, es[0]) && Run(Step(w, es[0]), es[1..], u)
  }

  lemma {:induction false} RunConcat(w: System, es: seq<Event>, u: System, fs: seq<Event>, v: System)
    requires Run(w, es, u) && Run(u, fs, v)
    ensures Run(w, es + fs, v)
    decreases es
  {
    if es == [] {
      assert es + fs == fs;
    } else {
      RunConcat(Step(w, es[0]), es[1..], u, fs, v);
      assert (es + fs)[1..] == es[1..] + fs;
    }
  }

  // ---------------------------------------------------------------------------
  // The invariant

  ghost predicate ReceiverInv(file: seq<Byte>, existing: seq<Byte>, r: Receiver) {
    && 1 <= r.expected <= ChunkCount(file) + 1
    && r.out == existing + Prefix(file, r.expected - 1)
    && (r.done <==> r.expected == ChunkCount(file) + 1)
  }

  /** The channel holds only packets that carry chunks, among them the one that is out, and
      acknowledgements of exactly the chunks before the expected one. */
  ghost predicate ChannelInv(file: seq<Byte>, w: System) {
    && (forall p :: p in w.packets ==> CarriesChunk(file, p) && p.index <= w.s.index)
    && (w.s.phase != AtHead && w.s.index <= ChunkCount(file) ==> exists p :: p in w.packets && p.index == w.s.index)
    && (forall a :: a in w.acks <==> 1 <= a < w.r.expected)
  }

  ghost predicate Inv(file: seq<Byte>, existing: seq<Byte>, w: System) {
    && SenderInv(file, w.s)
    && ReceiverInv(file, existing, w.r)
    && ChannelInv(file, w)
    && w.s.index <= w.r.expected <= w.s.index + 1
    && (w.s.phase == Left && ChunkCount(file) == 1 ==> w.s.index == 2)
  }

  lemma SenderKeeps(file: seq<Byte>, w: System, e: Event)
    requires SenderInv(file, w.s) && Enabled(w, e) && !e.DeliverPacket?
    ensures SenderInv(file, Step(w, e).s)
  {
    ChunkFacts(file, if w.s.index <= ChunkCount(file) then w.s.index else 1);
  }

  lemma InvKeptBySender(file: seq<Byte>, existing: seq<Byte>, w: System, e: Event)
    requires Inv(file, existing, w) && Enabled(w, e) && !e.DeliverPacket?
    ensures Inv(file, existing, Step(w, e))
  {
    SenderKeeps(file, w, e);
    match e
    case Send => ChannelKeptBySend(file, w);
    case Timeout =>
    case DeliverAck(a) => ChannelKeptByAck(file, w, a);
  }

  lemma ChannelKeptBySend(file: seq<Byte>, w: System)
    requires SenderInv(file, w.s) && ChannelInv(file, w) && Enabled(w, Send)
    ensures ChannelInv(file, Step(w, Send))
  {
    SentCarriesChunk(file, w.s);
    assert Sent(w.s) in Step(w, Send).packets;
  }

  lemma ChannelKeptByAck(file: seq<Byte>, w: System, a: nat)
    requires SenderInv(file, w.s) && ChannelInv(file, w) && Enabled(w, DeliverAck(a))
    ensures ChannelInv(file, Step(w, DeliverAck(a)))
  {
    ChunkFacts(file, w.s.index);
  }

  lemma ReceiverKeeps(file: seq<Byte>, existing: seq<Byte>, r: Receiver, p: Packet)
    requires ReceiverInv(file, existing, r) && !r.done && CarriesChunk(file, p) && p.index <= r.expected
    ensures ReceiverInv(file, existing, AfterPacket(r, p))
    ensures AckFor(r, p) == p.index
  {
    ChunkFacts(file, p.index);
    if p.index == r.expected {
      assert AfterPacket(r, p).out == existing + (Prefix(file, p.index - 1) + Chunk(file, p.index));
    }
  }

  lemma InvKeptByReceiver(file: seq<Byte>, existing: seq<Byte>, w: System, p: Packet)
    requires Inv(file, existing, w) && Enabled(w, DeliverPacket(p))
    ensures Inv(file, existing, Step(w, DeliverPacket(p)))
  {
    ReceiverKeeps(file, existing, w.r, p);
  }

  lemma {:induction false} InvKeptByRun(file: seq<Byte>, existing: seq<Byte>, w: System, es: seq<Event>, u: System)
    requires Inv(file, existing, w) && Run(w, es, u)
    ensures Inv(file, existing, u)
    decreases es
  {
    if es == [] {
    } else {
      if es[0].DeliverPacket? {
        InvKeptByReceiver(file, existing, w, es[0].p);
      } else {
        InvKeptBySender(file, existing, w, es[0]);
      }
      InvKeptByRun(file, existing, Step(w, es[0]), es[1..], u);
    }
  }

  ghost predicate Reachable(file: seq<Byte>, existing: seq<Byte>, w: System) {
    exists es, clears :: Run(Start(file, existing, clears), es, w)
  }

  lemma ReachableInv(file: seq<Byte>, existing: seq<Byte>, w: System)
    requires Reachable(file, existing, w)
    ensures Inv(file, existing, w)
  {
    var es, clears :| Run(Start(file, existing, clears), es, w);
    assert Prefix(file, 0) == [];
    InvKeptByRun(file, existing, Start(file, existing, clears), es, w);
  }

  // ---------------------------------------------------------------------------
  // Main results

  /** Safety of every run: the receiver's file is what it held before plus the first
      expected - 1 chunks, the two counters never drift apart by more than one, and the
      sender's offset at each loop head is the offset of the chunk it is about to send. */
  lemma NothingLostOrDuplicated(file: seq<Byte>, existing: seq<Byte>, w: System)
    requires Reachable(file, existing, w)
    ensures w.r.expected >= 1 && w.r.out == existing + Prefix(file, w.r.expected - 1)
    ensures w.s.index <= w.r.expected <= w.s.index + 1
    ensures w.s.phase == AtHead ==> w.s.pos == BUFSIZE * (w.s.index - 1)
  {
    ReachableInv(file, existing, w);
  }

  /** The mismatch branch echoes any index, yet the indices acknowledged so far are exactly
      those of the chunks already written. */
  lemma AcksNameWrittenChunks(file: seq<Byte>, existing: seq<Byte>, w: System, ack: nat)
    requires Reachable(file, existing, w)
    ensures ack in w.acks <==> 1 <= ack < w.r.expected
    ensures ack in w.acks ==> existing + Prefix(file, ack) <= w.r.out
  {
    ReachableInv(file, existing, w);
    if ack in w.acks {
      assert Prefix(file, ack) <= Prefix(file, w.r.expected - 1);
    }
  }

  /** The receiver leaves its loop only with the whole file, however late it leaves. */
  lemma ReceiverLeavesWithWholeFile(file: seq<Byte>, existing: seq<Byte>, w: System)
    requires Reachable(file, existing, w)
    ensures w.r.done <==> w.r.expected == ChunkCount(file) + 1
    ensures w.r.done ==> w.r.out == existing + file
  {
    ReachableInv(file, existing, w);
    ChunkFacts(file, ChunkCount(file));
  }

  /** A sender that leaves on a matching acknowledgement has delivered everything. */
  lemma MatchingExitDelivers(file: seq<Byte>, existing: seq<Byte>, w: System, ack: nat)
    requires Reachable(file, existing, w) && Enabled(w, DeliverAck(ack)) && ack == w.s.index
    requires AfterAck(w.s, ack).phase == Left
    ensures w.r.done && w.r.out == existing + file
  {
    ReachableInv(file, existing, w);
    ChunkFacts(file, w.s.index);
    ReceiverLeavesWithWholeFile(file, existing, w);
  }

  // ---------------------------------------------------------------------------
  // What travels: every byte of every packet

  /** Byte k of any packet with index i. Past the chunk there is what the buffer held: zeros if it
      is cleared after sending, else what was sent of the chunk before, which filled it. */
  function WireByte(file: seq<Byte>, clears: bool, i: nat, k: nat): Byte
    requires 1 <= i <= ChunkCount(file) && k < BUFSIZE
  {
    if BUFSIZE * (i - 1) + k < |file| then file[BUFSIZE * (i - 1) + k] ^ 10
    else if clears || i == 1 then 0
    else file[BUFSIZE * (i - 2) + k] ^ 10
  }

  ghost predicate OnWire(file: seq<Byte>, clears: bool, p: Packet) {
    && 1 <= p.index <= ChunkCount(file) && |p.data| == BUFSIZE
    && p.length == Min(BUFSIZE, |file| - BUFSIZE * (p.index - 1))
    && forall k :: 0 <= k < BUFSIZE ==> p.data[k] == WireByte(file, clears, p.index, k)
  }

  /** The buffer: at a loop head its end is what the packet about to be sent will end with; while
      waiting it is cleared or as it was sent. */
  ghost predicate BufferInv(file: seq<Byte>, clears: bool, s: Sender)
    requires SenderInv(file, s)
  {
    match s.phase
    case AtHead =>
      forall k :: 0 <= k < BUFSIZE && BUFSIZE * (s.index - 1) + k >= |file| ==>
        s.buf[k] == WireByte(file, clears, s.index, k)
    case AwaitingAck =>
      forall k :: 0 <= k < BUFSIZE ==> s.buf[k] == if clears then 0 else WireByte(file, clears, s.index, k)
    case Left => true
  }

  ghost predicate WireInv(file: seq<Byte>, w: System) {
    && SenderInv(file, w.s) && BufferInv(file, w.clears, w.s)
    && forall p :: p in w.packets ==> OnWire(file, w.clears, p)
  }

  lemma SentOnWire(file: seq<Byte>, clears: bool, s: Sender)
    requires SenderInv(file, s) && BufferInv(file, clears, s) && s.phase == AtHead
    ensures ReadyToSend(s) && OnWire(file, clears, Sent(s))
  {
  }

  lemma WireKeptByAck(file: seq<Byte>, clears: bool, s: Sender, ack: nat)
    requires SenderInv(file, s) && BufferInv(file, clears, s) && s.phase == AwaitingAck
    ensures var t := AfterAck(s, ack); SenderInv(file, t) && BufferInv(file, clears, t)
  {
    ChunkFacts(file, s.index);
  }

  lemma WireKept(file: seq<Byte>, w: System, e: Event)
    requires WireInv(file, w) && Enabled(w, e)
    ensures WireInv(file, Step(w, e))
  {
    match e
    case Send =>
      SenderKeeps(file, w, e);
      SentOnWire(file, w.clears, w.s);
    case Timeout => SenderKeeps(file, w, e);
    case DeliverAck(a) => WireKeptByAck(file, w.clears, w.s, a);
    case DeliverPacket(_) =>
  }

  lemma {:induction false} WireKeptByRun(file: seq<Byte>, w: System, es: seq<Event>, u: System)
    requires WireInv(file, w) && Run(w, es, u)
    ensures WireInv(file, u)
    decreases es
  {
    if es == [] {
    } else {
      WireKept(file, w, es[0]);
      WireKeptByRun(file, Step(w, es[0]), es[1..], u);
    }
  }

  /** Every byte of every packet of every run: packet i carries the bytes of chunk i, each XORed
      with 10 and so never in clear, and after them zeros or the end of packet i - 1. */
  lemma WireBytesExactly(file: seq<Byte>, existing: seq<Byte>, w: System, p: Packet)
    requires Reachable(file, existing, w) && p in w.packets
    ensures 1 <= p.index <= |file| / 1024 + 1 && |p.data| == 1024
    ensures p.length == Min(1024, |file| - 1024 * (p.index - 1))
    ensures forall k :: 0 <= k < p.length ==>
              p.data[k] == file[1024 * (p.index - 1) + k] ^ 10 && p.data[k] != file[1024 * (p.index - 1) + k]
    ensures forall k :: p.length <= k < 1024 ==>
              p.data[k] == if w.clears || p.index == 1 then 0 else file[1024 * (p.index - 2) + k] ^ 10
  {
    AllOnWire(file, existing, w);
    forall k | 0 <= k < 1024 ensures p.data[k] == WireByte(file, w.clears, p.index, k) {
    }
    forall k | 0 <= k < p.length
      ensures p.data[k] == file[1024 * (p.index - 1) + k] ^ 10 && p.data[k] != file[1024 * (p.index - 1) + k]
    {
      KeyChanges(file[1024 * (p.index - 1) + k]);
    }
  }

  lemma AllOnWire(file: seq<Byte>, existing: seq<Byte>, w: System)
    requires Reachable(file, existing, w)
    ensures forall p :: p in w.packets ==> OnWire(file, w.clears, p)
  {
    var es, clears :| Run(Start(file, existing, clears), es, w);
    WireKeptByRun(file, Start(file, existing, clears), es, w);
  }

  lemma KeyChanges(b: Byte)
    ensures b ^ 10 != b
  {
  }

  // ---------------------------------------------------------------------------
  // Completion: no reachable state with the sender in its loop is a dead end

  lemma {:induction false} RunThen(w: System, es: seq<Event>, u: System, e: Event)
    requires Run(w, es, u) && Enabled(u, e)
    ensures Run(w, es + [e], Step(u, e))
  {
    var v := Step(u, e);
    assert Run(v, [], v);
    assert [e][1..] == [];
    RunConcat(w, es, u, [e], v);
  }

  /** From a loop head one chunk can be carried through to its matching acknowledgement. */
  lemma ChunkArrives(file: seq<Byte>, existing: seq<Byte>, w: System) returns (es: seq<Event>, u: System)
    requires Inv(file, existing, w) && w.s.phase == AtHead
    ensures Run(w, es, u) && Inv(file, existing, u)
    ensures u.s == AfterSend(w.s, w.clears) && u.r.expected == w.s.index + 1
  {
    es, u := [], w;
    SentCarriesChunk(file, w.s);
    var p := Sent(w.s);
    RunThen(w, es, u, Send);
    InvKeptBySender(file, existing, w, Send);
    es, u := es + [Send], Step(u, Send);
    if u.r.expected == p.index {
      RunThen(w, es, u, DeliverPacket(p));
      InvKeptByReceiver(file, existing, u, p);
      es, u := es + [DeliverPacket(p)], Step(u, DeliverPacket(p));
    }
  }

  lemma OneChunk(file: seq<Byte>, existing: seq<Byte>, w: System) returns (es: seq<Event>, u: System)
    requires Inv(file, existing, w) && w.s.phase == AtHead
    ensures Run(w, es, u) && Inv(file, existing, u)
    ensures u.s.index == w.s.index + 1 == u.r.expected
    ensures u.s.phase == if w.s.index == ChunkCount(file) then Left else AtHead
  {
    es, u := ChunkArrives(file, existing, w);
    ChunkFacts(file, w.s.index);
    var a := DeliverAck(w.s.index);
    RunThen(w, es, u, a);
    InvKeptBySender(file, existing, u, a);
    es, u := es + [a], Step(u, a);
  }

  lemma {:induction false} CanComplete(file: seq<Byte>, existing: seq<Byte>, w: System)
    returns (es: seq<Event>, u: System)
    requires Inv(file, existing, w) && w.s.phase == AtHead
    ensures Run(w, es, u) && u.s.phase == Left && u.r.done && u.r.out == existing + file
    decreases ChunkCount(file) - w.s.index
  {
    var last := w.s.index == ChunkCount(file);
    es, u := OneChunk(file, existing, w);
    if last {
      ChunkFacts(file, ChunkCount(file));
    } else {
      var es', u' := CanComplete(file, existing, u);
      RunConcat(w, es, u, es', u');
      es, u := es + es', u';
    }
  }

  /** A sender that left early has left its last packet in the channel. */
  lemma ReceiverCanFinish(file: seq<Byte>, existing: seq<Byte>, w: System) returns (es: seq<Event>, u: System)
    requires Inv(file, existing, w) && w.s.phase == Left
    ensures Run(w, es, u) && u.s == w.s && u.r.done && u.r.out == existing + file
  {
    ChunkFacts(file, ChunkCount(file));
    es, u := [], w;
    if !w.r.done {
      var p :| p in w.packets && p.index == w.s.index;
      RunThen(w, es, u, DeliverPacket(p));
      InvKeptByReceiver(file, existing, w, p);
      es, u := es + [DeliverPacket(p)], Step(w, DeliverPacket(p));
    }
  }

  /** However the channel has behaved so far, and even if the sender has left early, some
      continuation has both sides out of their loops and the whole file delivered. */
  lemma AlwaysCompletable(file: seq<Byte>, existing: seq<Byte>, w: System)
    requires Reachable(file, existing, w)
    ensures exists es, u ::
              Run(w, es, u) && u.s.phase == Left && u.r.done && u.r.out == existing + file
  {
    ReachableInv(file, existing, w);
    var es, u := [], w;
    if w.s.phase == AwaitingAck {
      RunThen(w, es, u, Timeout);
      InvKeptBySender(file, existing, w, Timeout);
      es, u := es + [Timeout], Step(w, Timeout);
    }
    if u.s.phase == Left {
      es, u := ReceiverCanFinish(file, existing, u);
    } else {
      var es', u' := CanComplete(file, existing, u);
      RunConcat(w, es, u, es', u');
    }
  }

  // ---------------------------------------------------------------------------
  // The exit test looks only at the chunk length, so a stale acknowledgement of the
  // previous chunk also ends the sender's loop.

  lemma {:induction false} UpToLastChunk(file: seq<Byte>, existing: seq<Byte>, w: System)
    returns (es: seq<Event>, u: System)
    requires Inv(file, existing, w) && w.s.phase == AtHead && w.r.expected == w.s.index
    ensures Run(w, es, u) && Inv(file, existing, u)
    ensures u.s.phase == AtHead && u.s.index == ChunkCount(file) == u.r.expected
    decreases ChunkCount(file) - w.s.index
  {
    if w.s.index == ChunkCount(file) {
      es, u := [], w;
    } else {
      es, u := OneChunk(file, existing, w);
      var es', u' := UpToLastChunk(file, existing, u);
      RunConcat(w, es, u, es', u');
      es, u := es + es', u';
    }
  }

  /** At the head of the last chunk, the acknowledgement of the chunk before ends the loop. */
  lemma LeaveOnStaleAck(file: seq<Byte>, existing: seq<Byte>, w: System) returns (es: seq<Event>, u: System)
    requires Inv(file, existing, w) && w.s.phase == AtHead
    requires w.s.index == ChunkCount(file) == w.r.expected && ChunkCount(file) >= 2
    ensures Run(w, es, u) && u.s.phase == Left && u.r == w.r
  {
    SentCarriesChunk(file, w.s);
    ChunkFacts(file, ChunkCount(file));
    es, u := [], w;
    RunThen(w, es, u, Send);
    es, u := es + [Send], Step(u, Send);
    var stale := DeliverAck(ChunkCount(file) - 1);
    RunThen(w, es, u, stale);
    es, u := es + [stale], Step(u, stale);
  }

  /** Every file of at least two chunks has a run whose sender leaves on a stale
      acknowledgement while the receiver still waits for the last chunk. */
  lemma StaleAckEndsSender(file: seq<Byte>, existing: seq<Byte>) returns (w: System)
    requires |file| >= BUFSIZE
    ensures Reachable(file, existing, w)
    ensures w.s.phase == Left && !w.r.done && w.r.out == existing + Prefix(file, ChunkCount(file) - 1)
  {
    var w0 := Start(file, existing, false);
    assert Prefix(file, 0) == [];
    var es, u := UpToLastChunk(file, existing, w0);
    var fs;
    fs, w := LeaveOnStaleAck(file, existing, u);
    RunConcat(w0, es, u, fs, w);
    assert Run(Start(file, existing, false), es + fs, w);
  }

  /** Exactly when leaving the sender's loop guarantees delivery: the receiver has always
      finished if and only if the file is a single chunk, and its bytes are always complete if
      and only if, besides, the last of several chunks is empty. */
  lemma LeavingGuaranteesDelivery(file: seq<Byte>, existing: seq<Byte>)
    ensures (forall w | Reachable(file, existing, w) && w.s.phase == Left :: w.r.done)
            <==> |file| < BUFSIZE
    ensures (forall w | Reachable(file, existing, w) && w.s.phase == Left :: w.r.out == existing + file)
            <==> |file| < BUFSIZE || |file| % BUFSIZE == 0
  {
    forall w | Reachable(file, existing, w) && w.s.phase == Left
      ensures |file| < BUFSIZE ==> w.r.done
      ensures |file| < BUFSIZE || |file| % BUFSIZE == 0 ==> w.r.out == existing + file
    {
      ReachableInv(file, existing, w);
      ChunkFacts(file, ChunkCount(file));
      assert |file| % BUFSIZE == 0 ==> Prefix(file, ChunkCount(file) - 1) == file;
    }
    if |file| >= BUFSIZE {
      var w := StaleAckEndsSender(file, existing);
      assert Reachable(file, existing, w) && w.s.phase == Left && !w.r.done;
      if |file| % BUFSIZE != 0 {
        assert |w.r.out| < |existing + file|;
      }
    }
  }
}
