/**
 CTAPHID message framing: messages of up to 7609 bytes travel as 64-byte
 reports, one initialization packet followed by numbered continuation packets,
 and are reassembled independently for every channel identifier (CID).
 */
module CtapHid {
  import opened Bytes

  const REPORT_SIZE := 64
  const INIT_DATA := REPORT_SIZE - 7
  const CONT_DATA := REPORT_SIZE - 5
  const MAX_PAYLOAD_SIZE := INIT_DATA + 128 * CONT_DATA
  const TYPE_INIT := 0x80
  const CID_COUNT := 0x1_0000_0000
  const BROADCAST_CID: Cid := 0xffff_ffff

  type Cid = c: int | 0 <= c < 0x1_0000_0000

  datatype Command = Ping | Init | Wink | Cbor | Cancel | Error

  function CommandByte(c: Command): (b: byte)
    ensures b < TYPE_INIT
  {
    match c
    case Ping => 0x01
    case Init => 0x06
    case Wink => 0x08
    case Cbor => 0x10
    case Cancel => 0x11
    case Error => 0x3f
  }

  function CommandFromByte(b: byte): (c: Option<Command>)
    ensures forall d :: c == Some(d) <==> CommandByte(d) == b
  {
    if b == 0x01 then Some(Ping)
    else if b == 0x06 then Some(Init)
    else if b == 0x08 then Some(Wink)
    else if b == 0x10 then Some(Cbor)
    else if b == 0x11 then Some(Cancel)
    else if b == 0x3f then Some(Error)
    else None
  }

  datatype HidError = InvalidCommand | InvalidLength | InvalidSeq

  function ErrorCode(e: HidError): byte {
    match e
    case InvalidCommand => 0x01
    case InvalidLength => 0x03
    case InvalidSeq => 0x04
  }

  datatype Response = Response(cid: Cid, command: Command, payload: Bytes)

  datatype Outcome = NeedMore | Reply(response: Response)

  /** A request whose continuation packets are still arriving. */
  datatype Pending = Pending(cid: Cid, command: Command, expectedLen: nat, payload: Bytes, nextSequence: byte)

  /** What one report means to the framing layer. */
  datatype Frame =
    | Ignored
    | Incomplete
    | Rejected(cid: Cid, error: HidError)
    | Message(cid: Cid, command: Command, payload: Bytes)

  /** What a completed message asks of the authenticator behind the transport. */
  datatype AuthenticatorCall = NoCall | HandleCbor(request: Bytes) | CancelPending

  function ReportCid(report: Bytes): Cid
    requires |report| == REPORT_SIZE
  {
    assert BigEndian(report[..4]) < 0x1_0000_0000 by {
      BigEndianBound(report[..4]);
      assert Pow256(4) == 0x1_0000_0000 by { assert Pow256(2) == 65536; }
    }
    BigEndian(report[..4])
  }

  function U16(high: byte, low: byte): nat {
    (high as int) * 256 + (low as int)
  }

  function Min(a: nat, b: nat): nat {
    if a < b then a else b
  }

  /** The invariant of a partial request: it sits under its own CID, is exactly as
      long as the packets seen so far, and still misses something. */
  predicate PendingOk(cid: Cid, p: Pending) {
    && p.cid == cid
    && |p.payload| == INIT_DATA + CONT_DATA * p.nextSequence
    && |p.payload| < p.expectedLen <= MAX_PAYLOAD_SIZE
    && p.nextSequence <= 127
  }

  predicate SlotOk(cid: Cid, slot: Option<Pending>) {
    slot.Some? ==> PendingOk(cid, slot.value)
  }

  /** One report as seen by the channel it is addressed to. */
  function ChannelStep(slot: Option<Pending>, report: Bytes): (r: (Option<Pending>, Frame))
    requires |report| == REPORT_SIZE
    requires SlotOk(ReportCid(report), slot)
    ensures SlotOk(ReportCid(report), r.0)
    ensures r.1.Message? ==> r.0 == None && r.1.cid == ReportCid(report) && |r.1.payload| <= MAX_PAYLOAD_SIZE
    ensures r.1.Rejected? ==> r.1.cid == ReportCid(report)
  {
    var cid := ReportCid(report);
    if report[4] >= TYPE_INIT then
      var length := U16(report[5], report[6]);
      var command := CommandFromByte(report[4] - TYPE_INIT);
      if length > MAX_PAYLOAD_SIZE then (None, Rejected(cid, InvalidLength))
      else if command == None then (slot, Rejected(cid, InvalidCommand))
      else if length <= INIT_DATA then (None, Message(cid, command.value, report[7..7 + length]))
      else (Some(Pending(cid, command.value, length, report[7..], 0)), Incomplete)
    else if slot == None then (None, Ignored)
    else if slot.value.nextSequence != report[4] then (None, Rejected(cid, InvalidSeq))
    else
      var p := slot.value;
      var chunk := Min(p.expectedLen - |p.payload|, CONT_DATA);
      var payload := p.payload + report[5..5 + chunk];
      if |payload| == p.expectedLen then (None, Message(cid, p.command, payload))
      else (Some(p.(payload := payload, nextSequence := (p.nextSequence + 1) % 256)), Incomplete)
  }

  function Slot(pending: map<Cid, Pending>, cid: Cid): Option<Pending> {
    if cid in pending then Some(pending[cid]) else None
  }

  function PutSlot(pending: map<Cid, Pending>, cid: Cid, slot: Option<Pending>): (m: map<Cid, Pending>)
    ensures Slot(m, cid) == slot
    ensures forall other :: other != cid ==> Slot(m, other) == Slot(pending, other)
  {
    if slot.Some? then pending[cid := slot.value] else pending - {cid}
  }

  predicate PendingMapOk(pending: map<Cid, Pending>) {
    forall cid :: cid in pending ==> PendingOk(cid, pending[cid])
  }

  /** The CID counter after an allocation: it wraps past zero. */
  function NextCid(cid: Cid): Cid {
    if cid == 0xffff_ffff then 1 else cid + 1
  }

  /** The CID that the next INIT on the broadcast channel receives. */
  function FreshCid(nextCid: Cid): Cid {
    if nextCid == 0 then 1 else nextCid
  }

  function ErrorResponse(cid: Cid, e: HidError): Response {
    Response(cid, Error, [ErrorCode(e)])
  }

  function InitResponse(cid: Cid, newCid: Cid, nonce: Bytes): Response {
    if |nonce| != 8 then ErrorResponse(cid, InvalidLength)
    else Response(cid, Init, nonce + ToBigEndian(newCid, 4) + [2] + [0, 1, 0] + [0x04 + 0x08])
  }

  /** The reply to a completed message, given what the authenticator would answer to it. */
  function DispatchReply(nextCid: Cid, m: Frame, cborReply: Bytes): Response
    requires m.Message?
  {
    match m.command
    case Init => InitResponse(m.cid, if m.cid == BROADCAST_CID then FreshCid(nextCid) else m.cid, m.payload)
    case Ping => Response(m.cid, Ping, m.payload)
    case Wink => Response(m.cid, Wink, [])
    case Cbor => Response(m.cid, Cbor, cborReply)
    case Cancel => ErrorResponse(m.cid, InvalidCommand)
    case Error => ErrorResponse(m.cid, InvalidCommand)
  }

  function DispatchNextCid(nextCid: Cid, m: Frame): Cid
    requires m.Message?
  {
    if m.command.Init? && m.cid == BROADCAST_CID then NextCid(FreshCid(nextCid)) else nextCid
  }

  function DispatchCall(m: Frame): AuthenticatorCall
    requires m.Message?
  {
    match m.command
    case Cbor => HandleCbor(m.payload)
    case Cancel => CancelPending
    case _ => NoCall
  }

  /** The visible outcome of a report, as a function of its frame. */
  function FrameOutcome(nextCid: Cid, frame: Frame, cborReply: Bytes): Option<Outcome> {
    match frame
    case Ignored => None
    case Incomplete => Some(NeedMore)
    case Rejected(cid, e) => Some(Reply(ErrorResponse(cid, e)))
    case Message(_, _, _) => Some(Reply(DispatchReply(nextCid, frame, cborReply)))
  }

  class PacketHandler {
    var pending: map<Cid, Pending>
    var nextCid: Cid

    constructor ()
      ensures Valid() && pending == map[] && nextCid == 1
    {
      pending := map[];
      nextCid := 1;
    }

    ghost predicate Valid()
      reads this
    {
      PendingMapOk(pending)
    }

    /** Handles one HID report; `cborReply` is what the authenticator would answer
        if the report completed a CBOR request. */
    method HandlePacket(report: Bytes, cborReply: Bytes)
      returns (outcome: Option<Outcome>, call: AuthenticatorCall)
      requires Valid()
      modifies this
      ensures Valid()
      ensures |report| != REPORT_SIZE ==> outcome == None && call == NoCall && unchanged(this)
      ensures |report| == REPORT_SIZE ==>
                var cid := ReportCid(report);
                var step := ChannelStep(Slot(old(pending), cid), report);
                && pending == PutSlot(old(pending), cid, step.0)
                && outcome == FrameOutcome(old(nextCid), step.1, cborReply)
                && call == (if step.1.Message? then DispatchCall(step.1) else NoCall)
                && nextCid == (if step.1.Message? then DispatchNextCid(old(nextCid), step.1) else old(nextCid))
    {
      if |report| != REPORT_SIZE {
        return None, NoCall;
      }
      var cid := ReportCid(report);
      if report[4] >= TYPE_INIT {
        outcome, call := HandleInitPacket(cid, report[4] - TYPE_INIT, report, cborReply);
      } else {
        outcome, call := HandleContinuationPacket(cid, report[4], report, cborReply);
      }
    }

    method HandleInitPacket(cid: Cid, commandId: byte, report: Bytes, cborReply: Bytes)
      returns (outcome: Option<Outcome>, call: AuthenticatorCall)
      requires Valid()
      requires |report| == REPORT_SIZE && report[4] == TYPE_INIT + commandId && cid == ReportCid(report)
      modifies this
      ensures Valid()
      ensures var step := ChannelStep(Slot(old(pending), cid), report);
              && pending == PutSlot(old(pending), cid, step.0)
              && outcome == FrameOutcome(old(nextCid), step.1, cborReply)
              && call == (if step.1.Message? then DispatchCall(step.1) else NoCall)
              && nextCid == (if step.1.Message? then DispatchNextCid(old(nextCid), step.1) else old(nextCid))
    {
      var payloadLen := U16(report[5], report[6]);
      if payloadLen > MAX_PAYLOAD_SIZE {
        pending := pending - {cid};
        return Some(Reply(ErrorResponse(cid, InvalidLength))), NoCall;
      }
      var command := CommandFromByte(commandId);
      if command == None {
        return Some(Reply(ErrorResponse(cid, InvalidCommand))), NoCall;
      }
      var firstLen := Min(payloadLen, INIT_DATA);
      var payload := report[7..7 + firstLen];
      if |payload| == payloadLen {
        pending := pending - {cid};
        var response;
        response, call := Dispatch(cid, command.value, payload, cborReply);
        return Some(Reply(response)), call;
      }
      assert payload == report[7..];
      pending := pending[cid := Pending(cid, command.value, payloadLen, payload, 0)];
      return Some(NeedMore), NoCall;
    }

    method HandleContinuationPacket(cid: Cid, sequence: byte, report: Bytes, cborReply: Bytes)
      returns (outcome: Option<Outcome>, call: AuthenticatorCall)
      requires Valid()
      requires |report| == REPORT_SIZE && report[4] == sequence < TYPE_INIT && cid == ReportCid(report)
      modifies this
      ensures Valid()
      ensures var step := ChannelStep(Slot(old(pending), cid), report);
              && pending == PutSlot(old(pending), cid, step.0)
              && outcome == FrameOutcome(old(nextCid), step.1, cborReply)
              && call == (if step.1.Message? then DispatchCall(step.1) else NoCall)
              && nextCid == (if step.1.Message? then DispatchNextCid(old(nextCid), step.1) else old(nextCid))
    {
      hide ReportCid, CommandFromByte, U16, DispatchReply, DispatchCall, DispatchNextCid;
      if cid !in pending {
        return None, NoCall;
      }
      var request := pending[cid];
      if request.cid != cid || request.nextSequence != sequence {
        pending := pending - {cid};
        return Some(Reply(ErrorResponse(request.cid, InvalidSeq))), NoCall;
      }
      var remaining := request.expectedLen - |request.payload|;
      var chunkLen := Min(remaining, CONT_DATA);
      request := request.(payload := request.payload + report[5..5 + chunkLen]);
      if |request.payload| == request.expectedLen {
        pending := pending - {cid};
        var response;
        response, call := Dispatch(request.cid, request.command, request.payload, cborReply);
        return Some(Reply(response)), call;
      }
      pending := pending[cid := request.(nextSequence := (request.nextSequence + 1) % 256)];
      return Some(NeedMore), NoCall;
    }

    method Dispatch(cid: Cid, command: Command, payload: Bytes, cborReply: Bytes)
      returns (response: Response, call: AuthenticatorCall)
      requires cid !in pending
      modifies this
      ensures pending == old(pending)
      ensures response == DispatchReply(old(nextCid), Message(cid, command, payload), cborReply)
      ensures call == DispatchCall(Message(cid, command, payload))
      ensures nextCid == DispatchNextCid(old(nextCid), Message(cid, command, payload))
    {
      call := NoCall;
      match command {
        case Init =>
          var newCid := cid;
          if cid == BROADCAST_CID {
            if nextCid == 0 {
              nextCid := 1;
            }
            newCid := nextCid;
            var wrapped := (nextCid + 1) % CID_COUNT;
            nextCid := if wrapped < 1 then 1 else wrapped;
          }
          response := InitResponse(cid, newCid, payload);
        case Ping => response := Response(cid, Ping, payload);
        case Wink => response := Response(cid, Wink, []);
        case Cbor =>
          response := Response(cid, Cbor, cborReply);
          call := HandleCbor(payload);
        case Cancel =>
          pending := pending - {cid};
          call := CancelPending;
          response := ErrorResponse(cid, InvalidCommand);
        case Error => response := ErrorResponse(cid, InvalidCommand);
      }
    }
  }

  // ---------------------------------------------------------------- encoding

  function Zeros(n: nat): (s: Bytes)
    ensures |s| == n
  {
    seq(n, i => 0)
  }

  function InitPacket(cid: Cid, command: Command, payload: Bytes): (r: Bytes)
    ensures |r| == REPORT_SIZE
  {
    var n := Min(|payload|, INIT_DATA);
    ToBigEndian(cid, 4) + [CommandByte(command) + TYPE_INIT] + ToBigEndian(|payload| % 65536, 2)
    + payload[..n] + Zeros(INIT_DATA - n)
  }

  function ContinuationPacket(cid: Cid, payload: Bytes, offset: nat, sequence: byte): (r: Bytes)
    requires offset <= |payload|
    ensures |r| == REPORT_SIZE
  {
    var n := Min(|payload| - offset, CONT_DATA);
    ToBigEndian(cid, 4) + [sequence] + payload[offset..offset + n] + Zeros(CONT_DATA - n)
  }

  function Continuations(cid: Cid, payload: Bytes, offset: nat, sequence: byte): seq<Bytes>
    requires offset <= |payload|
    decreases |payload| - offset
  {
    if offset == |payload| then []
    else
      [ContinuationPacket(cid, payload, offset, sequence)]
      + Continuations(cid, payload, offset + Min(|payload| - offset, CONT_DATA), (sequence + 1) % 256)
  }

  /** The reports of one message. The length field is 16 bits and the sequence number
      8 bits wide, so a payload over `MAX_PAYLOAD_SIZE` wraps both. */
  function Encode(cid: Cid, command: Command, payload: Bytes): seq<Bytes> {
    [InitPacket(cid, command, payload)] + Continuations(cid, payload, Min(|payload|, INIT_DATA), 0)
  }

  /** Fills a zeroed report buffer with a header and the message bytes after it. */
  method FillReport(header: Bytes, data: Bytes) returns (report: Bytes)
    requires |header| + |data| <= REPORT_SIZE
    ensures report == header + data + Zeros(REPORT_SIZE - |header| - |data|)
  {
    var buffer := new byte[REPORT_SIZE](i => 0);
    forall i | 0 <= i < |header| {
      buffer[i] := header[i];
    }
    forall i | 0 <= i < |data| {
      buffer[|header| + i] := data[i];
    }
    report := buffer[..];
  }

  method EncodeMessage(cid: Cid, command: Command, payload: Bytes) returns (packets: seq<Bytes>)
    ensures packets == Encode(cid, command, payload)
  {
    var firstLen := Min(|payload|, INIT_DATA);
    var first := FillReport(ToBigEndian(cid, 4) + [CommandByte(command) + TYPE_INIT] + ToBigEndian(|payload| % 65536, 2),
                            payload[..firstLen]);
    packets := [first];
    var offset := firstLen;
    var sequence: byte := 0;
    while offset < |payload|
      invariant offset <= |payload|
      invariant packets + Continuations(cid, payload, offset, sequence) == Encode(cid, command, payload)
    {
      var chunkLen := Min(|payload| - offset, CONT_DATA);
      var continuation := FillReport(ToBigEndian(cid, 4) + [sequence], payload[offset..offset + chunkLen]);
      ghost var rest := Continuations(cid, payload, offset + chunkLen, (sequence + 1) % 256);
      assert packets + ([continuation] + rest) == packets + [continuation] + rest;
      packets := packets + [continuation];
      offset := offset + chunkLen;
      sequence := (sequence + 1) % 256;
    }
  }
}
