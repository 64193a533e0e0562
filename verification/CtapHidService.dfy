/**
 What a client of the CTAPHID transport observes: which bytes travel, what the
 authenticator behind the packet handler is asked, and what comes back on each
 channel.
 */
module CtapHidService {
  import opened Bytes
  import opened CtapHid
  import opened CtapHidRuns

  // ------------------------------------------------------- bytes on the wire

  /** The number of continuation packets of a payload. */
  function ContinuationCount(length: nat): nat {
    if length <= 57 then 0 else (length - 57 + 58) / 59
  }

  /** Byte `j` of the payload, or the padding. */
  function ByteAt(payload: Bytes, j: nat): byte {
    if j < |payload| then payload[j] else 0
  }

  /** The command codes of section 11.2.9 of FIDO CTAP 2.1. */
  function Code(command: Command): byte {
    match command
    case Ping => 0x01
    case Init => 0x06
    case Wink => 0x08
    case Cbor => 0x10
    case Cancel => 0x11
    case Error => 0x3f
  }

  /** The four bytes of a channel identifier, most significant first. */
  predicate StartsWithCid(report: Bytes, cid: Cid) {
    && |report| == 64
    && report[0] == cid / 0x100_0000 && report[1] == cid / 0x1_0000 % 256 && report[2] == cid / 256 % 256
    && report[3] == cid % 256
  }

  lemma CidBytes(cid: Cid)
    ensures ToBigEndian(cid, 4) == [cid / 0x100_0000, cid / 0x1_0000 % 256, cid / 256 % 256, cid % 256]
  {
    var a, b := cid / 256, cid / 0x1_0000;
    assert ToBigEndian(cid, 4) == ToBigEndian(a, 3) + [cid % 256];
    assert ToBigEndian(a, 3) == ToBigEndian(a / 256, 2) + [a % 256];
    assert a / 256 == b;
    assert ToBigEndian(b, 2) == ToBigEndian(b / 256, 1) + [b % 256];
    assert ToBigEndian(b / 256, 1) == [] + [b / 256 % 256];
    assert b / 256 == cid / 0x100_0000;
  }

  lemma LengthBytes(n: nat)
    requires n < 65536
    ensures ToBigEndian(n, 2) == [n / 256, n % 256]
  {
    assert ToBigEndian(n, 2) == ToBigEndian(n / 256, 1) + [n % 256];
    assert ToBigEndian(n / 256, 1) == [] + [n / 256 % 256];
  }

  lemma HighByte(n: nat)
    ensures n % 65536 / 256 == n / 256 % 256 && n % 65536 % 256 == n % 256
  {
    var q, r := n / 65536, n % 65536;
    assert n == 256 * (256 * q) + r;
    assert n / 256 == 256 * q + r / 256;
  }

  /** One more block of 59 bytes. */
  lemma OneMoreBlock(left: nat)
    ensures left >= 59 ==> (left + 58) / 59 == 1 + (left - 59 + 58) / 59
    ensures 0 < left < 59 ==> (left + 58) / 59 == 1
  {
    if left >= 59 {
      assert left + 58 == 59 * 1 + (left - 59 + 58);
    }
  }

  lemma NextSequence(sequence: byte, i: nat)
    requires i > 0
    ensures ((sequence + 1) % 256 + (i - 1)) % 256 == (sequence + i) % 256
  {
    if sequence == 255 {
      assert sequence + i == 256 + (i - 1);
    }
  }

  /** The i-th continuation packet, by position. */
  lemma {:induction false} ContinuationAt(cid: Cid, payload: Bytes, offset: nat, sequence: byte, i: nat)
    requires offset <= |payload|
    ensures |Continuations(cid, payload, offset, sequence)| == (|payload| - offset + 58) / 59
    ensures i < |Continuations(cid, payload, offset, sequence)| ==>
              && offset + 59 * i < |payload|
              && Continuations(cid, payload, offset, sequence)[i]
                 == ContinuationPacket(cid, payload, offset + 59 * i, (sequence + i) % 256)
    decreases |payload| - offset
  {
    hide ContinuationPacket;
    if offset < |payload| {
      var n := Min(|payload| - offset, 59);
      ContinuationAt(cid, payload, offset + n, (sequence + 1) % 256, if i > 0 then i - 1 else 0);
      OneMoreBlock(|payload| - offset);
      if i > 0 {
        NextSequence(sequence, i);
      }
    }
  }

  /** The bytes of an initialization packet. */
  predicate InitLayout(report: Bytes, cid: Cid, command: Command, payload: Bytes) {
    && StartsWithCid(report, cid) && report[4] == 0x80 + Code(command)
    && report[5] == |payload| / 256 % 256 && report[6] == |payload| % 256
    && forall k :: 7 <= k < 64 ==> report[k] == ByteAt(payload, k - 7)
  }

  /** The bytes of continuation packet number `i`. */
  predicate ContinuationLayout(report: Bytes, cid: Cid, payload: Bytes, i: nat) {
    && StartsWithCid(report, cid) && report[4] == i % 256
    && forall k :: 5 <= k < 64 ==> report[k] == ByteAt(payload, 57 + 59 * i + k - 5)
  }

  /** Every byte of every report of a message, by its position (section 11.2.4 of FIDO
      CTAP 2.1). */
  lemma EncodedBytes(cid: Cid, command: Command, payload: Bytes)
    ensures var reports := Encode(cid, command, payload);
            && |reports| == 1 + ContinuationCount(|payload|)
            && InitLayout(reports[0], cid, command, payload)
            && forall i :: 1 <= i < |reports| ==> ContinuationLayout(reports[i], cid, payload, i - 1)
  {
    InitBytes(cid, command, payload);
    hide InitPacket, ContinuationPacket, InitLayout, ContinuationLayout;
    var reports := Encode(cid, command, payload);
    var first := Min(|payload|, 57);
    ContinuationAt(cid, payload, first, 0, 0);
    forall i | 1 <= i < |reports|
      ensures ContinuationLayout(reports[i], cid, payload, i - 1)
    {
      ContinuationAt(cid, payload, first, 0, i - 1);
      ContinuationBytes(cid, payload, i - 1);
    }
  }

  lemma InitBytes(cid: Cid, command: Command, payload: Bytes)
    ensures InitLayout(InitPacket(cid, command, payload), cid, command, payload)
  {
    CidBytes(cid);
    LengthBytes(|payload| % 65536);
    HighByte(|payload|);
    hide ToBigEndian;
    var n := Min(|payload|, INIT_DATA);
    var r := InitPacket(cid, command, payload);
    var header := ToBigEndian(cid, 4) + [CommandByte(command) + TYPE_INIT] + ToBigEndian(|payload| % 65536, 2);
    assert r == header + (payload[..n] + Zeros(INIT_DATA - n));
    assert header[4] == 0x80 + Code(command) && header[5] == |payload| / 256 % 256 && header[6] == |payload| % 256;
  }

  lemma ContinuationBytes(cid: Cid, payload: Bytes, i: nat)
    requires 57 + 59 * i <= |payload|
    ensures ContinuationLayout(ContinuationPacket(cid, payload, 57 + 59 * i, i % 256), cid, payload, i)
  {
    CidBytes(cid);
    hide ToBigEndian;
  }

  // ------------------------------------------------ what the authenticator sees

  /** The requests that a stream of messages makes of the authenticator. */
  function Requests(messages: seq<HidMessage>): seq<AuthenticatorCall> {
    if messages == [] then []
    else
      var m := messages[|messages| - 1];
      Requests(messages[..|messages| - 1])
      + match m.command
        case Cbor => [HandleCbor(m.payload)]
        case Cancel => [CancelPending]
        case _ => []
  }

  /** The calls made at the reports of one channel, in order. */
  function CallsOn(trace: seq<Bytes>, calls: seq<AuthenticatorCall>, cid: Cid): seq<AuthenticatorCall>
    requires |calls| == |trace|
  {
    if trace == [] then []
    else
      var n := |trace| - 1;
      CallsOn(trace[..n], calls[..n], cid)
      + if OnCid(trace[n], cid) && !calls[n].NoCall? then [calls[n]] else []
  }

  /** A reply, with what the authenticator would have answered at that report. */
  datatype Exchange = Exchange(response: Response, cborReply: Bytes)

  /** The replies given at the reports of one channel, in order. */
  function RepliesOn(trace: seq<Bytes>, outcomes: seq<Option<Outcome>>, cborReplies: seq<Bytes>, cid: Cid): seq<Exchange>
    requires |outcomes| == |trace| == |cborReplies|
  {
    if trace == [] then []
    else
      var n := |trace| - 1;
      RepliesOn(trace[..n], outcomes[..n], cborReplies[..n], cid)
      + if OnCid(trace[n], cid) && outcomes[n].Some? && outcomes[n].value.Reply?
        then [Exchange(outcomes[n].value.response, cborReplies[n])] else []
  }

  /** The reply that a message deserves: its own channel, its own content, and for a CBOR
      request the authenticator's answer. */
  predicate Replies(cid: Cid, m: HidMessage, x: Exchange) {
    && x.response.cid == cid
    && match m.command
       case Ping => x.response.command == Ping && x.response.payload == m.payload
       case Wink => x.response.command == Wink && x.response.payload == []
       case Cbor => x.response.command == Cbor && x.response.payload == x.cborReply
       case Cancel => x.response.command == Error && x.response.payload == [0x01]
       case Error => x.response.command == Error && x.response.payload == [0x01]
       case Init =>
         if |m.payload| != 8 then x.response.command == Error && x.response.payload == [0x03]
         else && x.response.command == Init && |x.response.payload| == 17 && x.response.payload[..8] == m.payload
              && x.response.payload[12..] == [2, 0, 1, 0, 0x0c]
              && (cid != 0xffff_ffff ==> BigEndian(x.response.payload[8..12]) == cid)
  }

  lemma CallAt(f: Frame)
    requires f.Message?
    ensures DispatchCall(f) == (match f.command
                                case Cbor => HandleCbor(f.payload)
                                case Cancel => CancelPending
                                case _ => NoCall)
  {
  }

  lemma ReplyAt(nextCid: Cid, f: Frame, cborReply: Bytes)
    requires f.Message?
    ensures Replies(f.cid, HidMessage(f.command, f.payload), Exchange(DispatchReply(nextCid, f, cborReply), cborReply))
  {
    hide ToBigEndian, BigEndian;
    if f.command.Init? && |f.payload| == 8 {
      var newCid := if f.cid == BROADCAST_CID then FreshCid(nextCid) else f.cid;
      var payload := f.payload + ToBigEndian(newCid, 4) + [2] + [0, 1, 0] + [0x04 + 0x08];
      assert payload[..8] == f.payload && payload[8..12] == ToBigEndian(newCid, 4);
      assert payload[12..] == [2, 0, 1, 0, 0x0c];
      CidRange();
      BigEndianRoundTrip(newCid, 4);
    }
  }

  /** The frames of a run carry the channel of their report. */
  lemma {:induction false} FrameCid(pending: map<Cid, Pending>, trace: seq<Bytes>, i: nat)
    requires PendingMapOk(pending) && i < |trace|
    ensures var f := RunFrames(pending, trace)[i];
            f.Message? ==> |trace[i]| == REPORT_SIZE && OnCid(trace[i], f.cid)
  {
    hide ChannelStep, ReportCid;
    var n := |trace| - 1;
    if i < n {
      FrameCid(pending, trace[..n], i);
    }
  }

  ghost predicate CarryCids(trace: seq<Bytes>, frames: seq<Frame>)
    requires |trace| == |frames|
  {
    forall i :: 0 <= i < |trace| && frames[i].Message? ==> OnCid(trace[i], frames[i].cid)
  }

  lemma DeliveredLast(frames: seq<Frame>, f: Frame)
    ensures Delivered(frames + [f])
         == if f.Message? then Delivered(frames) + [HidMessage(f.command, f.payload)] else Delivered(frames)
  {
    assert (frames + [f])[..|frames|] == frames;
  }

  lemma RequestsLast(messages: seq<HidMessage>, m: HidMessage)
    ensures Requests(messages + [m]) == match m.command
                                        case Cbor => Requests(messages) + [HandleCbor(m.payload)]
                                        case Cancel => Requests(messages) + [CancelPending]
                                        case _ => Requests(messages)
  {
    assert (messages + [m])[..|messages|] == messages;
  }

  lemma {:induction false} RequestsMade(trace: seq<Bytes>, frames: seq<Frame>, cid: Cid)
    requires |trace| == |frames|
    ensures |Calls(frames)| == |trace|
    ensures CallsOn(trace, Calls(frames), cid) == Requests(Delivered(FramesOf(trace, frames, cid)))
  {
    CallsCount(frames);
    if trace != [] {
      var n := |trace| - 1;
      var calls, f := Calls(frames), frames[n];
      CallsCount(frames[..n]);
      assert calls[..n] == Calls(frames[..n]);
      assert calls[n] == if f.Message? then DispatchCall(f) else NoCall;
      RequestsMade(trace[..n], frames[..n], cid);
      var before := FramesOf(trace[..n], frames[..n], cid);
      var made := CallsOn(trace[..n], calls[..n], cid);
      assert FramesOf(trace, frames, cid) == if OnCid(trace[n], cid) then before + [f] else before;
      assert CallsOn(trace, calls, cid)
          == if OnCid(trace[n], cid) && !calls[n].NoCall? then made + [calls[n]] else made;
      hide Calls, FramesOf, CallsOn, OnCid, Delivered, Requests, DispatchCall;
      DeliveredLast(before, f);
      if f.Message? {
        CallAt(f);
        RequestsLast(Delivered(before), HidMessage(f.command, f.payload));
      }
    }
  }

  ghost predicate AllReplied(cid: Cid, messages: seq<HidMessage>, x: seq<Exchange>) {
    |x| == |messages| && forall i :: 0 <= i < |messages| ==> Replies(cid, messages[i], x[i])
  }

  lemma RepliedLast(cid: Cid, messages: seq<HidMessage>, m: HidMessage, made: seq<Exchange>, x: Exchange)
    requires AllReplied(cid, messages, made) && Replies(cid, m, x)
    ensures AllReplied(cid, messages + [m], made + [x])
  {
    hide Replies;
  }

  lemma AnswersLast(nextCid: Cid, frames: seq<Frame>, cborReplies: seq<Bytes>)
    requires |frames| == |cborReplies| && frames != []
    ensures var n, o := |frames| - 1, Answers(nextCid, frames, cborReplies);
            && |o| == n + 1 && o[..n] == Answers(nextCid, frames[..n], cborReplies[..n])
            && o[n] == FrameOutcome(CidAfter(nextCid, frames[..n]), frames[n], cborReplies[n])
  {
    hide FrameOutcome, CidAfter;
    var n := |frames| - 1;
    AnswersCount(nextCid, frames[..n], cborReplies[..n]);
  }

  lemma RepliesOnLast(trace: seq<Bytes>, outcomes: seq<Option<Outcome>>, cborReplies: seq<Bytes>, cid: Cid)
    requires |outcomes| == |trace| == |cborReplies| && trace != []
    ensures var n := |trace| - 1;
            var made := RepliesOn(trace[..n], outcomes[..n], cborReplies[..n], cid);
            RepliesOn(trace, outcomes, cborReplies, cid)
            == if OnCid(trace[n], cid) && outcomes[n].Some? && outcomes[n].value.Reply?
               then made + [Exchange(outcomes[n].value.response, cborReplies[n])] else made
  {
    hide OnCid;
  }

  lemma FramesOfLast(trace: seq<Bytes>, frames: seq<Frame>, cid: Cid)
    requires |trace| == |frames| && trace != []
    ensures var n := |trace| - 1;
            var before := FramesOf(trace[..n], frames[..n], cid);
            FramesOf(trace, frames, cid) == if OnCid(trace[n], cid) then before + [frames[n]] else before
  {
    hide OnCid;
  }

  lemma CleanParts(frames: seq<Frame>, f: Frame)
    requires Clean(frames + [f])
    ensures Clean(frames) && (f.Message? || f.Incomplete?)
  {
    assert (frames + [f])[|frames|] == f;
    assert forall i :: 0 <= i < |frames| ==> (frames + [f])[i] == frames[i];
  }

  lemma {:induction false} RepliesMade(trace: seq<Bytes>, frames: seq<Frame>, nextCid: Cid, cborReplies: seq<Bytes>,
                                       cid: Cid)
    requires |trace| == |frames| == |cborReplies| && CarryCids(trace, frames)
    requires Clean(FramesOf(trace, frames, cid))
    ensures |Answers(nextCid, frames, cborReplies)| == |trace|
    ensures AllReplied(cid, Delivered(FramesOf(trace, frames, cid)),
                       RepliesOn(trace, Answers(nextCid, frames, cborReplies), cborReplies, cid))
  {
    hide *;
    AnswersCount(nextCid, frames, cborReplies);
    if trace == [] {
      NothingAtAll(trace, frames, nextCid, cborReplies, cid);
    } else {
      var n := |trace| - 1;
      var outcomes := Answers(nextCid, frames, cborReplies);
      AnswersLast(nextCid, frames, cborReplies);
      RepliesOnLast(trace, outcomes, cborReplies, cid);
      FramesOfLast(trace, frames, cid);
      CarryLess(trace, frames, cid);
      var before := FramesOf(trace[..n], frames[..n], cid);
      if OnCid(trace[n], cid) {
        CleanParts(before, frames[n]);
      }
      RepliesMade(trace[..n], frames[..n], nextCid, cborReplies[..n], cid);
      RepliedStep(cid, before, frames[n], OnCid(trace[n], cid), RepliesOn(trace[..n], outcomes[..n], cborReplies[..n], cid),
                  CidAfter(nextCid, frames[..n]), cborReplies[n]);
    }
  }

  lemma NothingAtAll(trace: seq<Bytes>, frames: seq<Frame>, nextCid: Cid, cborReplies: seq<Bytes>, cid: Cid)
    requires trace == [] && frames == [] && cborReplies == []
    ensures Answers(nextCid, frames, cborReplies) == [] && FramesOf(trace, frames, cid) == []
    ensures AllReplied(cid, Delivered([]), RepliesOn(trace, [], cborReplies, cid))
  {
  }

  lemma CarryLess(trace: seq<Bytes>, frames: seq<Frame>, cid: Cid)
    requires |trace| == |frames| && CarryCids(trace, frames) && trace != []
    ensures CarryCids(trace[..|trace| - 1], frames[..|trace| - 1])
    ensures var f := frames[|trace| - 1];
            f.Message? && OnCid(trace[|trace| - 1], cid) ==> f.cid == cid
  {
    hide ReportCid;
  }

  /** One more report. */
  lemma RepliedStep(cid: Cid, before: seq<Frame>, f: Frame, on: bool, made: seq<Exchange>, nextCid: Cid, cborReply: Bytes)
    requires AllReplied(cid, Delivered(before), made)
    requires on ==> (f.Message? && f.cid == cid) || f.Incomplete?
    ensures var o := FrameOutcome(nextCid, f, cborReply);
            AllReplied(cid, Delivered(if on then before + [f] else before),
                       if on && o.Some? && o.value.Reply? then made + [Exchange(o.value.response, cborReply)] else made)
  {
    hide AllReplied, Delivered, Replies, DispatchReply;
    if on {
      DeliveredLast(before, f);
      if f.Message? {
        ReplyAt(nextCid, f, cborReply);
        RepliedLast(cid, Delivered(before), HidMessage(f.command, f.payload), made,
                    Exchange(DispatchReply(nextCid, f, cborReply), cborReply));
      }
    }
  }

  lemma {:induction false} QuietAt(frames: seq<Frame>, i: nat)
    requires i < |frames| && !frames[i].Message?
    ensures |Calls(frames)| == |frames| && Calls(frames)[i].NoCall?
  {
    hide DispatchCall;
    var n := |frames| - 1;
    CallsCount(frames[..n]);
    if i < n {
      QuietAt(frames[..n], i);
    }
  }

  lemma {:induction false} CallsCount(frames: seq<Frame>)
    ensures |Calls(frames)| == |frames|
  {
    hide DispatchCall;
    if frames != [] {
      CallsCount(frames[..|frames| - 1]);
    }
  }

  /** Any interleaving of encoded streams on distinct channels, whatever else arrives. On
      each channel the authenticator is handed exactly the payload of every CBOR message and
      one cancel for every CANCEL, in order, and nothing at any other report; and every
      message gets exactly one reply, on its own channel, in order. */
  method ServeStreams(handler: PacketHandler, trace: seq<Bytes>, cborReplies: seq<Bytes>,
                      ghost streams: map<Cid, seq<HidMessage>>)
    returns (outcomes: seq<Option<Outcome>>, calls: seq<AuthenticatorCall>)
    requires handler.Valid() && |cborReplies| == |trace|
    requires forall cid :: cid in streams ==>
               Deliverable(streams[cid]) && Received(trace, cid) == EncodeAll(cid, streams[cid])
    modifies handler
    ensures handler.Valid() && |outcomes| == |calls| == |trace|
    ensures forall cid :: cid in streams ==> CallsOn(trace, calls, cid) == Requests(streams[cid])
    ensures forall cid :: cid in streams ==>
              AllReplied(cid, streams[cid], RepliesOn(trace, outcomes, cborReplies, cid))
    ensures forall i :: 0 <= i < |trace| && |trace[i]| != 64 ==> calls[i].NoCall?
  {
    hide ChannelStep, ReportCid, RunFrames, RunPending, FramesOf, Received, EncodeAll, Delivered, Calls, Answers, CallsOn,
         RepliesOn, Requests, Replies, Clean;
    ghost var pending, nextCid := handler.pending, handler.nextCid;
    outcomes, calls := Serve(handler, trace, cborReplies);
    ghost var frames := RunFrames(pending, trace);
    InterleavingsDeliverEveryMessage(pending, trace, streams);
    CallsCount(frames);
    AnswersCount(nextCid, frames, cborReplies);
    forall i | 0 <= i < |trace|
      ensures frames[i].Message? ==> |trace[i]| == 64 && OnCid(trace[i], frames[i].cid)
    {
      FrameCid(pending, trace, i);
    }
    forall cid | cid in streams
      ensures CallsOn(trace, calls, cid) == Requests(streams[cid])
      ensures AllReplied(cid, streams[cid], RepliesOn(trace, outcomes, cborReplies, cid))
    {
      RequestsMade(trace, frames, cid);
      RepliesMade(trace, frames, nextCid, cborReplies, cid);
    }
    forall i | 0 <= i < |trace| && |trace[i]| != 64
      ensures calls[i].NoCall?
    {
      QuietAt(frames, i);
    }
  }

  // ------------------------------------------------------------ faulty reports

  /** Reports that continue nothing are ignored; one that announces too much, names no
      command or comes out of turn is answered with its error code (CTAPHID_ERROR in
      section 11.2.9 of FIDO CTAP 2.1) on its own channel. The first and the last drop what
      was being received there, the second leaves it. */
  lemma FaultyReports(slot: Option<Pending>, cid: Cid, report: Bytes, nextCid: Cid, cborReply: Bytes)
    requires StartsWithCid(report, cid) && SlotOk(cid, slot)
    ensures ReportCid(report) == cid
    ensures var length, step := (report[5] as int) * 256 + (report[6] as int), ChannelStep(slot, report);
            var outcome := FrameOutcome(nextCid, step.1, cborReply);
            && (report[4] >= 0x80 && length > 7609 ==>
                  outcome == Some(Reply(Response(cid, Error, [0x03]))) && step.0 == None)
            && (report[4] >= 0x80 && length <= 7609 && report[4] !in {0x81, 0x86, 0x88, 0x90, 0x91, 0xbf} ==>
                  outcome == Some(Reply(Response(cid, Error, [0x01]))) && step.0 == slot)
            && (report[4] < 0x80 && slot == None ==> outcome == None && step.0 == None)
            && (report[4] < 0x80 && slot.Some? && slot.value.nextSequence != report[4] ==>
                  outcome == Some(Reply(Response(cid, Error, [0x04]))) && step.0 == None)
  {
    CidBytes(cid);
    assert report == ToBigEndian(cid, 4) + report[4..];
    CidOfBytes(cid, report[4..]);
  }
}
