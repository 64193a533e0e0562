/**
 Whole runs of the CTAPHID packet handler: channels do not influence each other,
 the encoder and the reassembler are inverse under every interleaving, a PING
 comes back byte for byte, and channel identifiers are handed out in a cycle.
 */
module CtapHidRuns {
  import opened Bytes
  import opened CtapHid

  datatype HidMessage = HidMessage(command: Command, payload: Bytes)

  // ------------------------------------------------------- one channel alone

  predicate OnCid(report: Bytes, cid: Cid) {
    |report| == REPORT_SIZE && ReportCid(report) == cid
  }

  predicate AllOnCid(packets: seq<Bytes>, cid: Cid) {
    forall i :: 0 <= i < |packets| ==> OnCid(packets[i], cid)
  }

  function ChannelSlot(cid: Cid, slot: Option<Pending>, packets: seq<Bytes>): (s: Option<Pending>)
    requires SlotOk(cid, slot) && AllOnCid(packets, cid)
    ensures SlotOk(cid, s)
  {
    if packets == [] then slot
    else ChannelStep(ChannelSlot(cid, slot, packets[..|packets| - 1]), packets[|packets| - 1]).0
  }

  /** The frames a channel produces when its packets arrive with nothing in between. */
  function ChannelFrames(cid: Cid, slot: Option<Pending>, packets: seq<Bytes>): (f: seq<Frame>)
    requires SlotOk(cid, slot) && AllOnCid(packets, cid)
    ensures |f| == |packets|
  {
    if packets == [] then []
    else
      ChannelFrames(cid, slot, packets[..|packets| - 1])
      + [ChannelStep(ChannelSlot(cid, slot, packets[..|packets| - 1]), packets[|packets| - 1]).1]
  }

  /** The completed messages among some frames, in order. */
  function Delivered(frames: seq<Frame>): seq<HidMessage> {
    if frames == [] then []
    else
      Delivered(frames[..|frames| - 1])
      + var f := frames[|frames| - 1]; if f.Message? then [HidMessage(f.command, f.payload)] else []
  }

  /** Every frame is part of some message: nothing is ignored or rejected. */
  predicate Clean(frames: seq<Frame>) {
    forall i :: 0 <= i < |frames| ==> frames[i].Message? || frames[i].Incomplete?
  }

  lemma {:induction false} DeliveredConcat(a: seq<Frame>, b: seq<Frame>)
    ensures Delivered(a + b) == Delivered(a) + Delivered(b)
  {
    if b == [] {
      assert a + b == a;
    } else {
      DeliveredConcat(a, b[..|b| - 1]);
      assert (a + b)[..|a + b| - 1] == a + b[..|b| - 1];
    }
  }

  lemma {:induction false} ChannelConcat(cid: Cid, slot: Option<Pending>, a: seq<Bytes>, b: seq<Bytes>)
    requires SlotOk(cid, slot) && AllOnCid(a, cid) && AllOnCid(b, cid)
    ensures ChannelSlot(cid, slot, a + b) == ChannelSlot(cid, ChannelSlot(cid, slot, a), b)
    ensures ChannelFrames(cid, slot, a + b)
         == ChannelFrames(cid, slot, a) + ChannelFrames(cid, ChannelSlot(cid, slot, a), b)
  {
    if b == [] {
      assert a + b == a;
    } else {
      ChannelConcat(cid, slot, a, b[..|b| - 1]);
      assert (a + b)[..|a + b| - 1] == a + b[..|b| - 1];
    }
  }

  // -------------------------------------------------------- all channels

  function RunPending(pending: map<Cid, Pending>, trace: seq<Bytes>): (m: map<Cid, Pending>)
    requires PendingMapOk(pending)
    ensures PendingMapOk(m)
  {
    if trace == [] then pending
    else
      var before := RunPending(pending, trace[..|trace| - 1]);
      var report := trace[|trace| - 1];
      if |report| != REPORT_SIZE then before
      else
        var cid := ReportCid(report);
        PutSlot(before, cid, ChannelStep(Slot(before, cid), report).0)
  }

  /** The frame of every report of a run over all channels. */
  function RunFrames(pending: map<Cid, Pending>, trace: seq<Bytes>): (f: seq<Frame>)
    requires PendingMapOk(pending)
    ensures |f| == |trace|
  {
    if trace == [] then []
    else
      var before := RunPending(pending, trace[..|trace| - 1]);
      var report := trace[|trace| - 1];
      RunFrames(pending, trace[..|trace| - 1])
      + [if |report| != REPORT_SIZE then Ignored else ChannelStep(Slot(before, ReportCid(report)), report).1]
  }

  /** The reports of a run that belong to one channel. */
  function Received(trace: seq<Bytes>, cid: Cid): (p: seq<Bytes>)
    ensures AllOnCid(p, cid)
  {
    if trace == [] then []
    else
      Received(trace[..|trace| - 1], cid)
      + if OnCid(trace[|trace| - 1], cid) then [trace[|trace| - 1]] else []
  }

  /** The frames of a run that were caused by one channel's reports. */
  function FramesOf(trace: seq<Bytes>, frames: seq<Frame>, cid: Cid): seq<Frame>
    requires |trace| == |frames|
  {
    if trace == [] then []
    else
      FramesOf(trace[..|trace| - 1], frames[..|trace| - 1], cid)
      + if OnCid(trace[|trace| - 1], cid) then [frames[|trace| - 1]] else []
  }

  function CidAfter(nextCid: Cid, frames: seq<Frame>): Cid {
    if frames == [] then nextCid
    else
      var before := CidAfter(nextCid, frames[..|frames| - 1]);
      var f := frames[|frames| - 1];
      if f.Message? then DispatchNextCid(before, f) else before
  }

  /** The outcomes of a run: each frame answered with the CID counter as it then stood. */
  function Answers(nextCid: Cid, frames: seq<Frame>, cborReplies: seq<Bytes>): seq<Option<Outcome>>
    requires |frames| == |cborReplies|
  {
    if frames == [] then []
    else
      var n := |frames| - 1;
      Answers(nextCid, frames[..n], cborReplies[..n])
      + [FrameOutcome(CidAfter(nextCid, frames[..n]), frames[n], cborReplies[n])]
  }

  function Calls(frames: seq<Frame>): seq<AuthenticatorCall> {
    if frames == [] then []
    else
      var f := frames[|frames| - 1];
      Calls(frames[..|frames| - 1]) + [if f.Message? then DispatchCall(f) else NoCall]
  }

  /** Drives a packet handler over any sequence of reports. */
  method Serve(handler: PacketHandler, trace: seq<Bytes>, cborReplies: seq<Bytes>)
    returns (outcomes: seq<Option<Outcome>>, calls: seq<AuthenticatorCall>)
    requires handler.Valid() && |cborReplies| == |trace|
    modifies handler
    ensures handler.Valid()
    ensures handler.pending == RunPending(old(handler.pending), trace)
    ensures handler.nextCid == CidAfter(old(handler.nextCid), RunFrames(old(handler.pending), trace))
    ensures outcomes == Answers(old(handler.nextCid), RunFrames(old(handler.pending), trace), cborReplies)
    ensures calls == Calls(RunFrames(old(handler.pending), trace))
  {
    hide ChannelStep, ReportCid, DispatchReply, DispatchCall, DispatchNextCid, PutSlot, Slot;
    outcomes, calls := [], [];
    ghost var frames := [];
    var i := 0;
    while i < |trace|
      invariant 0 <= i <= |trace|
      invariant handler.Valid()
      invariant handler.pending == RunPending(old(handler.pending), trace[..i])
      invariant frames == RunFrames(old(handler.pending), trace[..i])
      invariant handler.nextCid == CidAfter(old(handler.nextCid), frames)
      invariant outcomes == Answers(old(handler.nextCid), frames, cborReplies[..i])
      invariant calls == Calls(frames)
    {
      assert trace[..i + 1][..i] == trace[..i] && cborReplies[..i + 1][..i] == cborReplies[..i];
      var outcome, call := handler.HandlePacket(trace[i], cborReplies[i]);
      outcomes, calls := outcomes + [outcome], calls + [call];
      ghost var before := frames;
      frames := RunFrames(old(handler.pending), trace[..i + 1]);
      assert frames[..i] == before;
      i := i + 1;
    }
    assert trace[..i] == trace && cborReplies[..i] == cborReplies;
  }

  /** Channels are independent: what a run yields on one channel, and what it leaves
      pending there, is what that channel's own reports yield on their own. */
  lemma {:induction false} ChannelsAreIndependent(pending: map<Cid, Pending>, trace: seq<Bytes>, cid: Cid)
    requires PendingMapOk(pending)
    ensures FramesOf(trace, RunFrames(pending, trace), cid)
         == ChannelFrames(cid, Slot(pending, cid), Received(trace, cid))
    ensures Slot(RunPending(pending, trace), cid)
         == ChannelSlot(cid, Slot(pending, cid), Received(trace, cid))
  {
    hide ChannelStep, ReportCid, PutSlot, Slot;
    if trace != [] {
      var n, report := |trace| - 1, trace[|trace| - 1];
      var before, after := RunPending(pending, trace[..n]), RunPending(pending, trace);
      var frames, p := RunFrames(pending, trace), Received(trace, cid);
      ChannelsAreIndependent(pending, trace[..n], cid);
      assert frames[..n] == RunFrames(pending, trace[..n]);
      if OnCid(report, cid) {
        assert p == Received(trace[..n], cid) + [report];
        assert p[..|p| - 1] == Received(trace[..n], cid);
        assert frames[n] == ChannelStep(Slot(before, cid), report).1;
        assert Slot(after, cid) == ChannelStep(Slot(before, cid), report).0;
      } else {
        assert p == Received(trace[..n], cid);
        assert Slot(after, cid) == Slot(before, cid);
        assert FramesOf(trace, frames, cid) == FramesOf(trace[..n], frames[..n], cid);
      }
    }
  }

  // -------------------------------------------------------- round trip

  lemma CidOfBytes(cid: Cid, rest: Bytes)
    requires |rest| == 60
    ensures ReportCid(ToBigEndian(cid, 4) + rest) == cid
  {
    assert Pow256(4) == 0x1_0000_0000 by { assert Pow256(2) == 65536; }
    BigEndianRoundTrip(cid, 4);
    assert (ToBigEndian(cid, 4) + rest)[..4] == ToBigEndian(cid, 4);
  }

  lemma InitPacketFields(cid: Cid, command: Command, payload: Bytes)
    ensures var r := InitPacket(cid, command, payload);
            && ReportCid(r) == cid
            && r[4] == CommandByte(command) + TYPE_INIT
            && U16(r[5], r[6]) == |payload| % 65536
            && r[7..7 + Min(|payload|, INIT_DATA)] == payload[..Min(|payload|, INIT_DATA)]
  {
    var r := InitPacket(cid, command, payload);
    var n := Min(|payload|, INIT_DATA);
    var lengthField := ToBigEndian(|payload| % 65536, 2);
    var header := [CommandByte(command) + TYPE_INIT] + lengthField;
    var rest := header + payload[..n] + Zeros(INIT_DATA - n);
    assert r == ToBigEndian(cid, 4) + rest;
    CidOfBytes(cid, rest);
    U16OfBytes(|payload| % 65536);
    assert r[5] == lengthField[0] && r[6] == lengthField[1];
  }

  lemma U16OfBytes(n: nat)
    requires n < 65536
    ensures U16(ToBigEndian(n, 2)[0], ToBigEndian(n, 2)[1]) == n
  {
    assert ToBigEndian(n, 2) == ToBigEndian(n / 256, 1) + [n % 256];
    assert ToBigEndian(n / 256, 1) == ToBigEndian(n / 256 / 256, 0) + [n / 256 % 256];
  }

  lemma ContinuationPacketFields(cid: Cid, payload: Bytes, offset: nat, sequence: byte)
    requires offset <= |payload|
    ensures var r := ContinuationPacket(cid, payload, offset, sequence);
            var n := Min(|payload| - offset, CONT_DATA);
            && ReportCid(r) == cid && r[4] == sequence && r[5..5 + n] == payload[offset..offset + n]
  {
    var r := ContinuationPacket(cid, payload, offset, sequence);
    assert r == ToBigEndian(cid, 4) + r[4..];
    CidOfBytes(cid, r[4..]);
  }

  lemma {:induction false} ContinuationsOnCid(cid: Cid, payload: Bytes, offset: nat, sequence: byte)
    requires offset <= |payload|
    ensures AllOnCid(Continuations(cid, payload, offset, sequence), cid)
    decreases |payload| - offset
  {
    if offset < |payload| {
      ContinuationPacketFields(cid, payload, offset, sequence);
      ContinuationsOnCid(cid, payload, offset + Min(|payload| - offset, CONT_DATA), (sequence + 1) % 256);
    }
  }

  lemma EncodeOnCid(cid: Cid, command: Command, payload: Bytes)
    ensures AllOnCid(Encode(cid, command, payload), cid)
  {
    InitPacketFields(cid, command, payload);
    ContinuationsOnCid(cid, payload, Min(|payload|, INIT_DATA), 0);
  }

  lemma ChannelSingle(cid: Cid, slot: Option<Pending>, packet: Bytes, rest: seq<Bytes>)
    requires SlotOk(cid, slot) && OnCid(packet, cid) && AllOnCid(rest, cid)
    ensures var step := ChannelStep(slot, packet);
            && ChannelFrames(cid, slot, [packet] + rest) == [step.1] + ChannelFrames(cid, step.0, rest)
            && ChannelSlot(cid, slot, [packet] + rest) == ChannelSlot(cid, step.0, rest)
  {
    ChannelConcat(cid, slot, [packet], rest);
    assert [packet][..0] == [];
    assert ChannelSlot(cid, slot, []) == slot;
    assert ChannelSlot(cid, slot, [packet]) == ChannelStep(slot, packet).0;
  }

  lemma DeliveredFirst(f: Frame, rest: seq<Frame>)
    ensures Delivered([f] + rest) == (if f.Message? then [HidMessage(f.command, f.payload)] else []) + Delivered(rest)
  {
    DeliveredConcat([f], rest);
    assert [f][..0] == [];
    assert Delivered([f][..0]) == [];
  }

  lemma InitStep(cid: Cid, slot: Option<Pending>, command: Command, payload: Bytes)
    requires SlotOk(cid, slot) && |payload| <= MAX_PAYLOAD_SIZE
    ensures OnCid(InitPacket(cid, command, payload), cid)
    ensures ChannelStep(slot, InitPacket(cid, command, payload))
         == if |payload| <= INIT_DATA then (None, Message(cid, command, payload))
            else (Some(Pending(cid, command, |payload|, payload[..INIT_DATA], 0)), Incomplete)
  {
    hide InitPacket, ReportCid;
    InitPacketFields(cid, command, payload);
    var r := InitPacket(cid, command, payload);
    if |payload| <= INIT_DATA {
      assert payload[..|payload|] == payload;
    } else {
      assert r[7..7 + INIT_DATA] == r[7..];
    }
  }

  lemma ContinuationStep(cid: Cid, command: Command, payload: Bytes, k: byte)
    requires INIT_DATA + CONT_DATA * k < |payload| <= MAX_PAYLOAD_SIZE
    ensures var offset := INIT_DATA + CONT_DATA * k;
            var slot := Some(Pending(cid, command, |payload|, payload[..offset], k));
            var packet := ContinuationPacket(cid, payload, offset, k);
            && OnCid(packet, cid) && SlotOk(cid, slot) && k < 128
            && ChannelStep(slot, packet)
            == if |payload| <= offset + CONT_DATA then (None, Message(cid, command, payload))
               else (Some(Pending(cid, command, |payload|, payload[..offset + CONT_DATA], k + 1)), Incomplete)
  {
    hide ContinuationPacket, ReportCid;
    var offset := INIT_DATA + CONT_DATA * k;
    var n := Min(|payload| - offset, CONT_DATA);
    ContinuationPacketFields(cid, payload, offset, k);
    assert payload[..offset] + payload[offset..offset + n] == payload[..offset + n];
    if offset + n == |payload| {
      assert payload[..offset + n] == payload;
    }
  }

  /** From a partial request holding the first 57 + 59k bytes of `payload`, the
      remaining continuation packets complete it and nothing else. */
  lemma {:induction false} ContinuationsComplete(cid: Cid, command: Command, payload: Bytes, k: byte)
    requires INIT_DATA + CONT_DATA * k < |payload| <= MAX_PAYLOAD_SIZE
    ensures var offset := INIT_DATA + CONT_DATA * k;
            var slot := Some(Pending(cid, command, |payload|, payload[..offset], k));
            var packets := Continuations(cid, payload, offset, k);
            && SlotOk(cid, slot) && AllOnCid(packets, cid)
            && Delivered(ChannelFrames(cid, slot, packets)) == [HidMessage(command, payload)]
            && Clean(ChannelFrames(cid, slot, packets)) && ChannelSlot(cid, slot, packets) == None
    decreases |payload| - CONT_DATA * k
  {
    hide ChannelStep, ContinuationPacket, ReportCid, Delivered;
    var offset := INIT_DATA + CONT_DATA * k;
    var n := Min(|payload| - offset, CONT_DATA);
    var slot := Some(Pending(cid, command, |payload|, payload[..offset], k));
    var packet := ContinuationPacket(cid, payload, offset, k);
    ContinuationStep(cid, command, payload, k);
    var rest := Continuations(cid, payload, offset + n, k + 1);
    ContinuationsOnCid(cid, payload, offset + n, k + 1);
    assert Continuations(cid, payload, offset, k) == [packet] + rest;
    ChannelSingle(cid, slot, packet, rest);
    var step := ChannelStep(slot, packet);
    DeliveredFirst(step.1, ChannelFrames(cid, step.0, rest));
    if offset + n == |payload| {
      assert rest == [];
      DeliveredNone();
    } else {
      ContinuationsComplete(cid, command, payload, k + 1);
    }
  }

  lemma DeliveredNone()
    ensures Delivered([]) == []
  {
  }

  /** Encoding and reassembly are inverse, whatever the channel held before. */
  lemma MessageRoundTrip(cid: Cid, slot: Option<Pending>, command: Command, payload: Bytes)
    requires SlotOk(cid, slot) && |payload| <= MAX_PAYLOAD_SIZE
    ensures AllOnCid(Encode(cid, command, payload), cid)
    ensures Delivered(ChannelFrames(cid, slot, Encode(cid, command, payload))) == [HidMessage(command, payload)]
    ensures Clean(ChannelFrames(cid, slot, Encode(cid, command, payload)))
    ensures ChannelSlot(cid, slot, Encode(cid, command, payload)) == None
  {
    hide ChannelStep, InitPacket, ReportCid, Delivered, ChannelFrames, ChannelSlot;
    var packet := InitPacket(cid, command, payload);
    var rest := Continuations(cid, payload, Min(|payload|, INIT_DATA), 0);
    InitStep(cid, slot, command, payload);
    ContinuationsOnCid(cid, payload, Min(|payload|, INIT_DATA), 0);
    ChannelSingle(cid, slot, packet, rest);
    var step := ChannelStep(slot, packet);
    DeliveredFirst(step.1, ChannelFrames(cid, step.0, rest));
    if |payload| <= INIT_DATA {
      assert rest == [];
      DeliveredNone();
      EmptyChannel(cid, step.0);
    } else {
      ContinuationsComplete(cid, command, payload, 0);
    }
  }

  /** No delivered message is longer than the protocol's maximum. */
  lemma {:induction false} DeliveredIsBounded(cid: Cid, slot: Option<Pending>, packets: seq<Bytes>, m: HidMessage)
    requires SlotOk(cid, slot) && AllOnCid(packets, cid)
    requires m in Delivered(ChannelFrames(cid, slot, packets))
    ensures |m.payload| <= MAX_PAYLOAD_SIZE
  {
    var n := |packets| - 1;
    if packets != [] {
      var f := ChannelFrames(cid, slot, packets);
      assert f[..n] == ChannelFrames(cid, slot, packets[..n]);
      if m in Delivered(f[..n]) {
        DeliveredIsBounded(cid, slot, packets[..n], m);
      }
    }
  }

  /** The exact condition of the round trip: a message arrives unchanged if and only
      if it fits 57 + 128 * 59 bytes. Longer ones wrap the length field. */
  lemma RoundTripExactly(cid: Cid, slot: Option<Pending>, command: Command, payload: Bytes)
    requires SlotOk(cid, slot)
    ensures AllOnCid(Encode(cid, command, payload), cid)
    ensures HidMessage(command, payload) in Delivered(ChannelFrames(cid, slot, Encode(cid, command, payload)))
            <==> |payload| <= MAX_PAYLOAD_SIZE
  {
    EncodeOnCid(cid, command, payload);
    if |payload| <= MAX_PAYLOAD_SIZE {
      MessageRoundTrip(cid, slot, command, payload);
    } else if HidMessage(command, payload) in Delivered(ChannelFrames(cid, slot, Encode(cid, command, payload))) {
      DeliveredIsBounded(cid, slot, Encode(cid, command, payload), HidMessage(command, payload));
    }
  }

  // -------------------------------------------------------- interleavings

  function EncodeAll(cid: Cid, messages: seq<HidMessage>): seq<Bytes> {
    if messages == [] then []
    else
      EncodeAll(cid, messages[..|messages| - 1])
      + var m := messages[|messages| - 1]; Encode(cid, m.command, m.payload)
  }

  predicate Deliverable(messages: seq<HidMessage>) {
    forall i :: 0 <= i < |messages| ==> |messages[i].payload| <= MAX_PAYLOAD_SIZE
  }

  lemma EmptyChannel(cid: Cid, slot: Option<Pending>)
    requires SlotOk(cid, slot)
    ensures ChannelFrames(cid, slot, []) == [] && ChannelSlot(cid, slot, []) == slot
  {
  }

  lemma {:induction false} StreamRoundTrip(cid: Cid, slot: Option<Pending>, messages: seq<HidMessage>)
    requires SlotOk(cid, slot) && Deliverable(messages)
    ensures AllOnCid(EncodeAll(cid, messages), cid)
    ensures Delivered(ChannelFrames(cid, slot, EncodeAll(cid, messages))) == messages
    ensures Clean(ChannelFrames(cid, slot, EncodeAll(cid, messages)))
    ensures messages != [] ==> ChannelSlot(cid, slot, EncodeAll(cid, messages)) == None
  {
    hide ChannelStep, Encode, ReportCid, Delivered, ChannelFrames, ChannelSlot;
    DeliveredNone();
    if messages == [] {
      EmptyChannel(cid, slot);
    } else {
      var n := |messages| - 1;
      StreamRoundTrip(cid, slot, messages[..n]);
      var a := EncodeAll(cid, messages[..n]);
      var b := Encode(cid, messages[n].command, messages[n].payload);
      MessageRoundTrip(cid, ChannelSlot(cid, slot, a), messages[n].command, messages[n].payload);
      ChannelConcat(cid, slot, a, b);
      DeliveredConcat(ChannelFrames(cid, slot, a), ChannelFrames(cid, ChannelSlot(cid, slot, a), b));
      assert messages == messages[..n] + [messages[n]];
    }
  }

  /** Any interleaving of encoded message streams on distinct channels delivers, on each
      channel, exactly that channel's messages, each once, unchanged and in order. */
  lemma InterleavingsDeliverEveryMessage(pending: map<Cid, Pending>, trace: seq<Bytes>,
                                         streams: map<Cid, seq<HidMessage>>)
    requires PendingMapOk(pending)
    requires forall cid :: cid in streams ==>
               Deliverable(streams[cid]) && Received(trace, cid) == EncodeAll(cid, streams[cid])
    ensures forall cid :: cid in streams ==>
              Delivered(FramesOf(trace, RunFrames(pending, trace), cid)) == streams[cid]
              && Clean(FramesOf(trace, RunFrames(pending, trace), cid))
  {
    hide ChannelStep, ReportCid, Delivered, ChannelFrames, ChannelSlot, RunFrames, RunPending, FramesOf, Received,
         EncodeAll;
    forall cid | cid in streams
      ensures Delivered(FramesOf(trace, RunFrames(pending, trace), cid)) == streams[cid]
              && Clean(FramesOf(trace, RunFrames(pending, trace), cid))
    {
      ChannelsAreIndependent(pending, trace, cid);
      StreamRoundTrip(cid, Slot(pending, cid), streams[cid]);
    }
  }

  /** Only completed messages are answered with a PING response, and that response is
      encoded into exactly the packets the request came in. */
  lemma PingEchoesItsPackets(cid: Cid, slot: Option<Pending>, payload: Bytes, nextCid: Cid, cborReply: Bytes)
    requires SlotOk(cid, slot) && |payload| <= MAX_PAYLOAD_SIZE
    ensures var request := Encode(cid, Ping, payload);
            && AllOnCid(request, cid)
            && var frames := ChannelFrames(cid, slot, request);
            && Delivered(frames) == [HidMessage(Ping, payload)]
            && forall i :: 0 <= i < |frames| && frames[i].Message? ==>
                 var r := DispatchReply(nextCid, frames[i], cborReply);
                 Encode(r.cid, r.command, r.payload) == request
  {
    MessageRoundTrip(cid, slot, Ping, payload);
    var request := Encode(cid, Ping, payload);
    var frames := ChannelFrames(cid, slot, request);
    forall i | 0 <= i < |frames| && frames[i].Message?
      ensures var r := DispatchReply(nextCid, frames[i], cborReply);
              Encode(r.cid, r.command, r.payload) == request
    {
      FrameIsDelivered(cid, slot, request, i);
    }
  }

  lemma {:induction false} FrameIsDelivered(cid: Cid, slot: Option<Pending>, packets: seq<Bytes>, i: nat)
    requires SlotOk(cid, slot) && AllOnCid(packets, cid)
    requires i < |packets| && ChannelFrames(cid, slot, packets)[i].Message?
    ensures var f := ChannelFrames(cid, slot, packets);
            f[i].cid == cid && HidMessage(f[i].command, f[i].payload) in Delivered(f)
  {
    var n := |packets| - 1;
    var f := ChannelFrames(cid, slot, packets);
    assert f[..n] == ChannelFrames(cid, slot, packets[..n]);
    if i < n {
      FrameIsDelivered(cid, slot, packets[..n], i);
    }
  }

  // -------------------------------------------------------- CID allocation

  /** The CID handed to the k-th INIT on the broadcast channel (counting from zero). */
  function AllocatedCid(k: nat): Cid {
    FreshCid(CounterAfter(k))
  }

  /** The allocation counter of a new handler after k allocations. */
  function CounterAfter(k: nat): Cid {
    if k == 0 then 1 else NextCid(FreshCid(CounterAfter(k - 1)))
  }

  lemma {:induction false} AllocationCycle(k: nat)
    ensures AllocatedCid(k) == 1 + k % 0xffff_ffff
  {
    if k > 0 {
      AllocationCycle(k - 1);
      CycleStep(k - 1);
    }
  }

  lemma CycleStep(k: nat)
    ensures (k + 1) % 0xffff_ffff == (if k % 0xffff_ffff == 0xffff_fffe then 0 else k % 0xffff_ffff + 1)
  {
    var q, r := k / 0xffff_ffff, k % 0xffff_ffff;
    assert k == q * 0xffff_ffff + r;
    if r == 0xffff_fffe {
      assert k + 1 == (q + 1) * 0xffff_ffff;
    } else {
      assert k + 1 == q * 0xffff_ffff + (r + 1);
    }
  }

  /** Fewer than 2^32 - 1 consecutive allocations never collide and never yield zero; the
      broadcast identifier itself is handed out once per cycle, as its last member. */
  lemma AllocatedCidsAreDistinct(j: nat, k: nat)
    requires j < k < j + 0xffff_ffff
    ensures AllocatedCid(j) != AllocatedCid(k) && AllocatedCid(j) != 0
    ensures AllocatedCid(j) == BROADCAST_CID <==> j % 0xffff_ffff == 0xffff_fffe
  {
    AllocationCycle(j);
    AllocationCycle(k);
    ResiduesDiffer(j, k);
  }

  lemma ResiduesDiffer(j: nat, k: nat)
    requires j < k < j + 0xffff_ffff
    ensures j % 0xffff_ffff != k % 0xffff_ffff
  {
    var n := 0xffff_ffff;
    var d := k / n - j / n;
    assert k - j == d * n + (k % n - j % n);
  }

  /** An INIT on the broadcast channel with a nonce of the right length. */
  predicate WellFormedInit(f: Frame) {
    Allocates(f) && |f.payload| == 8
  }

  /** An INIT on the broadcast channel. */
  predicate Allocates(f: Frame) {
    f.Message? && f.command.Init? && f.cid == BROADCAST_CID
  }

  function Allocations(frames: seq<Frame>): nat {
    if frames == [] then 0
    else Allocations(frames[..|frames| - 1]) + if Allocates(frames[|frames| - 1]) then 1 else 0
  }

  /** In any run of a new handler the counter has moved once per allocation. */
  lemma {:induction false} CounterOfRun(frames: seq<Frame>)
    ensures CidAfter(1, frames) == CounterAfter(Allocations(frames))
  {
    hide FreshCid, NextCid;
    if frames != [] {
      CounterOfRun(frames[..|frames| - 1]);
    }
  }

  lemma {:induction false} AnswerAt(nextCid: Cid, frames: seq<Frame>, cborReplies: seq<Bytes>, i: nat)
    requires |frames| == |cborReplies| && i < |frames|
    ensures |Answers(nextCid, frames, cborReplies)| == |frames|
    ensures Answers(nextCid, frames, cborReplies)[i]
         == FrameOutcome(CidAfter(nextCid, frames[..i]), frames[i], cborReplies[i])
  {
    hide FrameOutcome, CidAfter;
    var n := |frames| - 1;
    if n > 0 {
      AnswerAt(nextCid, frames[..n], cborReplies[..n], if i < n then i else 0);
    }
    if i < n {
      assert frames[..n][..i] == frames[..i];
    }
  }

  lemma {:induction false} AllocationsGrow(frames: seq<Frame>, i: nat, j: nat)
    requires i < j <= |frames| && Allocates(frames[i])
    ensures Allocations(frames[..i]) < Allocations(frames[..j])
  {
    hide Allocates;
    assert frames[..j][..j - 1] == frames[..j - 1];
    if i < j - 1 {
      AllocationsGrow(frames, i, j - 1);
    }
  }

  /** The CID that the answer to a well-formed INIT carries. */
  function AnsweredCid(o: Option<Outcome>): nat
    requires o.Some? && o.value.Reply? && |o.value.response.payload| >= 12
  {
    BigEndian(o.value.response.payload[8..12])
  }

  /** The answer to the INIT at position i of a run names the CID of its turn. */
  lemma InitIsAnswered(frames: seq<Frame>, cborReplies: seq<Bytes>, i: nat)
    requires |frames| == |cborReplies| && i < |frames| && Allocates(frames[i]) && |frames[i].payload| == 8
    ensures var o := Answers(1, frames, cborReplies);
            && |o| == |frames| && o[i].Some? && o[i].value.Reply? && |o[i].value.response.payload| >= 12
            && AnsweredCid(o[i]) == AllocatedCid(Allocations(frames[..i]))
  {
    AnswerAt(1, frames, cborReplies, i);
    CounterOfRun(frames[..i]);
    var cid := AllocatedCid(Allocations(frames[..i]));
    hide Answers, CidAfter, CounterAfter, AllocatedCid, Allocations;
    var nonce, bytes := frames[i].payload, ToBigEndian(cid, 4);
    var payload := nonce + bytes + [2] + [0, 1, 0] + [0x04 + 0x08];
    assert payload[8..12] == bytes;
    CidRange();
    BigEndianRoundTrip(cid, 4);
  }

  lemma CidRange()
    ensures Pow256(4) == 0x1_0000_0000
  {
    assert Pow256(2) == 65536;
  }

  /** A new handler, over any reports, answers two INITs on the broadcast channel with
      different CIDs, unless a full cycle of allocations lies between them. */
  method ServeNew(trace: seq<Bytes>, cborReplies: seq<Bytes>)
    returns (outcomes: seq<Option<Outcome>>, calls: seq<AuthenticatorCall>)
    requires |cborReplies| == |trace|
    ensures |outcomes| == |trace|
    ensures var frames := RunFrames(map[], trace);
            forall i, j :: 0 <= i < j < |frames| && WellFormedInit(frames[i]) && WellFormedInit(frames[j])
                           && Allocations(frames[..j]) < Allocations(frames[..i]) + 0xffff_ffff ==>
              && outcomes[i].Some? && outcomes[i].value.Reply? && |outcomes[i].value.response.payload| >= 12
              && outcomes[j].Some? && outcomes[j].value.Reply? && |outcomes[j].value.response.payload| >= 12
              && AnsweredCid(outcomes[i]) != AnsweredCid(outcomes[j])
  {
    hide ChannelStep, RunFrames, Answers, Calls, Allocates, Allocations, AnsweredCid, AllocatedCid, CidAfter;
    var handler := new PacketHandler();
    outcomes, calls := Serve(handler, trace, cborReplies);
    ghost var frames := RunFrames(map[], trace);
    AnswersCount(1, frames, cborReplies);
    forall i, j | 0 <= i < j < |frames| && WellFormedInit(frames[i]) && WellFormedInit(frames[j])
                  && Allocations(frames[..j]) < Allocations(frames[..i]) + 0xffff_ffff
      ensures && outcomes[i].Some? && outcomes[i].value.Reply? && |outcomes[i].value.response.payload| >= 12
              && outcomes[j].Some? && outcomes[j].value.Reply? && |outcomes[j].value.response.payload| >= 12
              && AnsweredCid(outcomes[i]) != AnsweredCid(outcomes[j])
    {
      InitIsAnswered(frames, cborReplies, i);
      InitIsAnswered(frames, cborReplies, j);
      AllocationsGrow(frames, i, j);
      AllocatedCidsAreDistinct(Allocations(frames[..i]), Allocations(frames[..j]));
    }
  }

  lemma {:induction false} AnswersCount(nextCid: Cid, frames: seq<Frame>, cborReplies: seq<Bytes>)
    requires |frames| == |cborReplies|
    ensures |Answers(nextCid, frames, cborReplies)| == |frames|
  {
    hide FrameOutcome, CidAfter;
    if frames != [] {
      AnswersCount(nextCid, frames[..|frames| - 1], cborReplies[..|frames| - 1]);
    }
  }
}
