/**
 * What the push server does with the bytes the data logger sends
 * (server.py, `SolarmanV5Server._handle_client`): every read is scanned for V5
 * frames on its own; every frame is acknowledged with sequence number 0; the
 * registers of a data frame from the expected logger are handed to the
 * coordinator when there are any. A read whose scan raises ends the connection.
 *
 * The socket is not modelled: the reads are a parameter and the bytes written
 * back are a result. Writing an acknowledgement cannot fail here, as the
 * source ignores any failure to write one.
 */
module V5Server {
  import opened Common
  import opened V5Frames
  import opened PushPayload
  import opened CoordinatorState

  // ---------------------------------------------------------------------------
  // One frame
  // ---------------------------------------------------------------------------

  /** The frame comes from the expected logger, is a data report, and its payload yields
      registers: the case in which `_handle_client` calls `on_data`. */
  predicate Deliverable(expected: u32, f: Frame) {
    f.serial == expected && f.frameType == FRAME_DATA && PayloadRegisters(f.payload) != map[]
  }

  /** The acknowledgement written for a frame echoes its type and serial, with sequence 0. */
  function FrameAck(f: Frame): (a: seq<byte>)
    ensures |a| == 16
  {
    AckFrame(f.frameType, f.serial, 0)
  }

  /** Every frame is acknowledged, whatever its serial or type, and the acknowledgement scans
      back to exactly one frame of the same type and serial with status OK. Heartbeats and
      hellos are never delivered. */
  lemma FrameAckParses(expected: u32, f: Frame)
    ensures ParsedFrames(FrameAck(f)) == Ok([Frame(f.frameType, f.serial, [0x01, 0x00])])
    ensures f.frameType == FRAME_HEARTBEAT || f.frameType == FRAME_HELLO ==> !Deliverable(expected, f)
  {
    AckRoundTrip(f.frameType, f.serial, 0);
  }

  // ---------------------------------------------------------------------------
  // The frames of one read
  // ---------------------------------------------------------------------------

  /** The bytes written back for the frames of a read: their acknowledgements, in order. */
  function Acks(frames: seq<Frame>): (a: seq<byte>)
    ensures |a| == 16 * |frames|
    decreases |frames|
  {
    if frames == [] then []
    else Acks(frames[..|frames| - 1]) + FrameAck(frames[|frames| - 1])
  }

  /** The register maps handed to the coordinator for the frames of a read, in order. */
  function Deliveries(expected: u32, frames: seq<Frame>): seq<RegisterMap>
    decreases |frames|
  {
    if frames == [] then []
    else
      var f := frames[|frames| - 1];
      Deliveries(expected, frames[..|frames| - 1])
        + (if Deliverable(expected, f) then [PayloadRegisters(f.payload)] else [])
  }

  /** The coordinator's pushed slot after `deliveries` were handed to it: the last of them. */
  function LastOr(deliveries: seq<RegisterMap>, slot: Option<RegisterMap>): Option<RegisterMap> {
    if deliveries == [] then slot else Some(deliveries[|deliveries| - 1])
  }

  lemma LastOrAppend(d1: seq<RegisterMap>, d2: seq<RegisterMap>, slot: Option<RegisterMap>)
    ensures LastOr(d1 + d2, slot) == LastOr(d2, LastOr(d1, slot))
  {
    if d2 != [] {
      assert (d1 + d2)[|d1 + d2| - 1] == d2[|d2| - 1];
    } else {
      assert d1 + d2 == d1;
    }
  }

  /** One acknowledgement per frame, in frame order: the `k`-th 16 bytes acknowledge frame `k`. */
  lemma {:induction false} AcksAt(frames: seq<Frame>, k: nat)
    requires k < |frames|
    ensures Acks(frames)[16 * k .. 16 * k + 16] == AckFrame(frames[k].frameType, frames[k].serial, 0)
    decreases |frames|
  {
    var n := |frames| - 1;
    var init := frames[..n];
    var a := Acks(init);
    var last := FrameAck(frames[n]);
    assert Acks(frames) == a + last;
    if k < n {
      AcksAt(init, k);
      assert init[k] == frames[k];
      SliceOfAppend(a, last, 16 * k, 16 * k + 16);
    } else {
      assert (a + last)[|a|..] == last;
    }
  }

  lemma SliceOfAppend(a: seq<byte>, b: seq<byte>, lo: nat, hi: nat)
    requires lo <= hi <= |a|
    ensures (a + b)[lo..hi] == a[lo..hi]
  {
  }

  /** Frames split across two reads are acknowledged as if they came in one. */
  lemma {:induction false} AcksAppend(f1: seq<Frame>, f2: seq<Frame>)
    ensures Acks(f1 + f2) == Acks(f1) + Acks(f2)
    decreases |f2|
  {
    if f2 == [] {
      assert f1 + f2 == f1;
    } else {
      var n := |f2| - 1;
      assert (f1 + f2)[..|f1 + f2| - 1] == f1 + f2[..n];
      assert (f1 + f2)[|f1 + f2| - 1] == f2[n];
      AcksAppend(f1, f2[..n]);
    }
  }

  /** Frames split across two reads deliver the same registers, in the same order. */
  lemma {:induction false} DeliveriesAppend(expected: u32, f1: seq<Frame>, f2: seq<Frame>)
    ensures Deliveries(expected, f1 + f2) == Deliveries(expected, f1) + Deliveries(expected, f2)
    decreases |f2|
  {
    if f2 == [] {
      assert f1 + f2 == f1;
    } else {
      var n := |f2| - 1;
      assert (f1 + f2)[..|f1 + f2| - 1] == f1 + f2[..n];
      assert (f1 + f2)[|f1 + f2| - 1] == f2[n];
      DeliveriesAppend(expected, f1, f2[..n]);
    }
  }

  /** Every delivery is the (non-empty) register map of some deliverable frame of the read. */
  lemma {:induction false} DeliveriesFromFrames(expected: u32, frames: seq<Frame>, i: nat)
    requires i < |Deliveries(expected, frames)|
    ensures exists k | 0 <= k < |frames| ::
      Deliverable(expected, frames[k]) && Deliveries(expected, frames)[i] == PayloadRegisters(frames[k].payload)
    decreases |frames|
  {
    var n := |frames| - 1;
    var init := frames[..n];
    var d := Deliveries(expected, init);
    if i < |d| {
      DeliveriesFromFrames(expected, init, i);
      var k :| 0 <= k < |init| && Deliverable(expected, init[k]) && d[i] == PayloadRegisters(init[k].payload);
      assert frames[k] == init[k];
    } else {
      assert Deliverable(expected, frames[n]);
    }
  }

  /** Every deliverable frame of the read has its registers delivered. */
  lemma {:induction false} DeliverableDelivered(expected: u32, frames: seq<Frame>, k: nat)
    requires k < |frames| && Deliverable(expected, frames[k])
    ensures PayloadRegisters(frames[k].payload) in Deliveries(expected, frames)
    decreases |frames|
  {
    var n := |frames| - 1;
    var init := frames[..n];
    if k < n {
      assert init[k] == frames[k];
      DeliverableDelivered(expected, init, k);
    }
  }

  /** A read delivers something exactly when one of its frames is deliverable. */
  lemma DeliveriesNonEmpty(expected: u32, frames: seq<Frame>)
    ensures Deliveries(expected, frames) != [] <==> exists k | 0 <= k < |frames| :: Deliverable(expected, frames[k])
  {
    if Deliveries(expected, frames) != [] {
      DeliveriesFromFrames(expected, frames, 0);
    }
    if exists k | 0 <= k < |frames| :: Deliverable(expected, frames[k]) {
      var k :| 0 <= k < |frames| && Deliverable(expected, frames[k]);
      DeliverableDelivered(expected, frames, k);
    }
  }

  /** A data frame from the expected logger carrying a register-read response hands exactly the
      response's registers to the coordinator. */
  lemma ReadResponseDelivered(serial: u32, prefix: seq<byte>, slave: byte, functionCode: byte, values: seq<u16>)
    requires |prefix| == PREFIX_SIZE
    requires functionCode == READ_HOLDING_REGISTERS || functionCode == READ_INPUT_REGISTERS
    requires 1 <= |values| < 128
    ensures var f := Frame(FRAME_DATA, serial, ReadResponsePayload(prefix, slave, functionCode, values));
      Deliveries(serial, [f]) == [Block(StartRegister(|values|), values)]
  {
    PayloadRoundTrip(prefix, slave, functionCode, values);
    var f := Frame(FRAME_DATA, serial, ReadResponsePayload(prefix, slave, functionCode, values));
    assert StartRegister(|values|) in Block(StartRegister(|values|), values);
    assert [f][..0] == [];
  }

  /** A frame from another logger is acknowledged but delivers nothing. */
  lemma ForeignFrameIgnored(expected: u32, f: Frame)
    requires f.serial != expected
    ensures Acks([f]) == FrameAck(f)
    ensures Deliveries(expected, [f]) == []
  {
    assert [f][..0] == [];
  }

  // ---------------------------------------------------------------------------
  // A connection
  // ---------------------------------------------------------------------------

  /** What the handler makes of one read: the frames it scans from it, or `None` when the
      connection ends there, because the read is empty (the logger closed) or its scan raises. */
  function ReadOutcome(read: seq<byte>): Option<seq<Frame>> {
    if read == [] then None
    else match ParsedFrames(read)
      case Ok(frames) => Some(frames)
      case Err(_) => None
  }

  /** The frames of the reads the handler processes, one list per read: it goes through the
      reads in order and stops at the first one that ends the connection, never looking at the
      reads after it. */
  function Processed(received: seq<seq<byte>>): seq<seq<Frame>>
    decreases |received|
  {
    if received == [] then []
    else match ReadOutcome(received[0])
      case None => []
      case Some(frames) => [frames] + Processed(received[1..])
  }

  /** The processed reads are a prefix of the reads: each gives its frames, and the read after
      them, if any, is the one that ends the connection. */
  lemma {:induction false} ProcessedReads(received: seq<seq<byte>>)
    ensures var p := Processed(received);
      && |p| <= |received|
      && (forall j | 0 <= j < |p| :: ReadOutcome(received[j]) == Some(p[j]))
      && (|p| < |received| ==> ReadOutcome(received[|p|]) == None)
    decreases |received|
  {
    if received != [] && ReadOutcome(received[0]).Some? {
      var rest := received[1..];
      ProcessedReads(rest);
      var p := Processed(received);
      assert forall j | 1 <= j < |p| :: p[j] == Processed(rest)[j - 1] && received[j] == rest[j - 1];
    }
  }

  /** A read that ends the connection hides everything the logger sends after it. */
  lemma {:induction false} EndedSessionIgnoresMore(received: seq<seq<byte>>, more: seq<seq<byte>>, i: nat)
    requires i < |received| && ReadOutcome(received[i]) == None
    ensures Processed(received + more) == Processed(received)
    decreases i
  {
    assert (received + more)[0] == received[0];
    if i > 0 && ReadOutcome(received[0]).Some? {
      assert (received + more)[1..] == received[1..] + more;
      assert received[1..][i - 1] == received[i];
      EndedSessionIgnoresMore(received[1..], more, i - 1);
    }
  }

  /** A read whose scan raises ends the connection: only the reads before it are processed. */
  lemma FailedScanEndsSession(received: seq<seq<byte>>, i: nat)
    requires i < |received| && ParsedFrames(received[i]).Err?
    requires forall j | 0 <= j < i :: received[j] != [] && ParsedFrames(received[j]).Ok?
    ensures |Processed(received)| == i
  {
    ProcessedReads(received);
  }

  /** The bytes written back over the processed reads. */
  function SessionAcks(lists: seq<seq<Frame>>): seq<byte>
    decreases |lists|
  {
    if lists == [] then [] else Acks(lists[0]) + SessionAcks(lists[1..])
  }

  /** The register maps delivered over the processed reads, in order. */
  function SessionDeliveries(expected: u32, lists: seq<seq<Frame>>): seq<RegisterMap>
    decreases |lists|
  {
    if lists == [] then [] else Deliveries(expected, lists[0]) + SessionDeliveries(expected, lists[1..])
  }

  // ---------------------------------------------------------------------------
  // The handler
  // ---------------------------------------------------------------------------

  /** The body of the frame loop of `_handle_client`: acknowledge the frame, and hand deliverable
      registers to the coordinator's `receive_pushed_data`. */
  method HandleFrame(c: Coordinator, expected: u32, f: Frame) returns (ack: seq<byte>)
    modifies c`pushed
    ensures ack == FrameAck(f)
    ensures c.pushed == if Deliverable(expected, f) then Some(PayloadRegisters(f.payload)) else old(c.pushed)
  {
    ack := BuildV5Ack(f.frameType, f.serial, 0);
    if f.serial == expected && f.frameType == FRAME_DATA {
      var regs := ExtractRegistersFromPayload(f.payload);
      if regs != map[] {
        c.ReceivePushedData(regs);
      }
    }
  }

  /** The frame loop of `_handle_client` for the frames of one read. */
  method RouteFrames(c: Coordinator, expected: u32, frames: seq<Frame>) returns (acks: seq<byte>)
    modifies c`pushed
    ensures acks == Acks(frames)
    ensures c.pushed == LastOr(Deliveries(expected, frames), old(c.pushed))
  {
    acks := [];
    var i := 0;
    while i < |frames|
      invariant i <= |frames|
      invariant acks == Acks(frames[..i])
      invariant c.pushed == LastOr(Deliveries(expected, frames[..i]), old(c.pushed))
    {
      var f := frames[i];
      assert frames[..i + 1][..i] == frames[..i];
      assert frames[..i + 1][i] == f;
      var ack := HandleFrame(c, expected, f);
      acks := acks + ack;
      i := i + 1;
    }
    assert frames[..i] == frames;
  }

  /** One pass of the read loop of `_handle_client`: scan the read and, unless it is empty or
      its scan raises, handle its frames. `live` is false when the connection ends here. */
  method HandleRead(c: Coordinator, expected: u32, read: seq<byte>) returns (live: bool, acks: seq<byte>)
    modifies c`pushed
    ensures live == ReadOutcome(read).Some?
    ensures live ==> (acks == Acks(ReadOutcome(read).value)
      && c.pushed == LastOr(Deliveries(expected, ReadOutcome(read).value), old(c.pushed)))
    ensures !live ==> acks == [] && c.pushed == old(c.pushed)
  {
    if read == [] {
      return false, [];
    }
    var parsed := ParseV5Frames(read);
    if parsed.Err? {
      return false, [];
    }
    live := true;
    acks := RouteFrames(c, expected, parsed.value);
  }

  /** `_handle_client` over the logger's successive reads: handle each read in turn, and stop
      at an empty read or at a read whose scan raises. Returns the bytes written back; the
      coordinator's pushed slot ends up holding the last registers delivered. */
  method HandleClient(c: Coordinator, expected: u32, received: seq<seq<byte>>) returns (sent: seq<byte>)
    modifies c`pushed
    ensures sent == SessionAcks(Processed(received))
    ensures c.pushed == LastOr(SessionDeliveries(expected, Processed(received)), old(c.pushed))
  {
    sent := [];
    var i := 0;
    while i < |received|
      invariant i <= |received|
      invariant SessionAcks(Processed(received)) == sent + SessionAcks(Processed(received[i..]))
      invariant LastOr(SessionDeliveries(expected, Processed(received)), old(c.pushed))
        == LastOr(SessionDeliveries(expected, Processed(received[i..])), c.pushed)
    {
      assert received[i..][0] == received[i];
      assert received[i..][1..] == received[i + 1..];
      ghost var before := c.pushed;
      var live, acks := HandleRead(c, expected, received[i]);
      if !live {
        break;
      }
      ghost var frames := ReadOutcome(received[i]).value;
      ghost var rest := Processed(received[i + 1..]);
      assert Processed(received[i..]) == [frames] + rest;
      assert ([frames] + rest)[1..] == rest;
      LastOrAppend(Deliveries(expected, frames), SessionDeliveries(expected, rest), before);
      sent := sent + acks;
      i := i + 1;
    }
    assert received[i..] == [] || ReadOutcome(received[i]) == None;
  }
}
