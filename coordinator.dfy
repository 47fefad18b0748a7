/**
 * The Home Assistant update coordinator (coordinator.py, class
 * `SolarmanDeyeCoordinator`): the slot the push server fills, the polling path
 * with its three connection attempts, the one-time device identification, and
 * `_async_update_data`, which prefers pushed registers over polling.
 *
 * The data logger is not modelled. What it does during each connection attempt
 * is a parameter (`Attempt`), as is the device-type table. Whether a client is
 * open (`_client is not None`) is the field `connected`.
 */
module CoordinatorState {
  import opened Common
  import opened Registers
  import opened RegisterDecoder

  // ---------------------------------------------------------------------------
  // What the data logger does
  // ---------------------------------------------------------------------------

  /** The logger's answer to one `read_input_registers` call: values, or an exception. */
  datatype BlockAnswer = Answered(values: seq<u16>) | Raised(err: string)

  /** One connection attempt: creating the client raises, or it succeeds and the logger answers
      the block reads of the read plan in order (the reads stop at the first exception). */
  datatype Attempt = Refused(err: string) | Session(answers: seq<BlockAnswer>)

  /** A script of logger behaviour for one poll: at least the three attempts the poller may make,
      each session holding one answer per block of the read plan. */
  predicate Scripted(attempts: seq<Attempt>) {
    && |attempts| >= 3
    && forall a | 0 <= a < |attempts| :: attempts[a].Session? ==> |attempts[a].answers| == |READ_BLOCKS|
  }

  // ---------------------------------------------------------------------------
  // `_read_registers`, as functions
  // ---------------------------------------------------------------------------

  /** `regs[start + i] = val` for every value of a block, in order, on top of what `regs`
      already holds. */
  function Overlay(regs: RegisterMap, start: nat, values: seq<u16>): (r: RegisterMap)
    ensures forall k: nat :: k in r <==> k in regs || start <= k < start + |values|
  {
    if values == [] then regs
    else Overlay(regs, start, values[..|values| - 1])[start + |values| - 1 := values[|values| - 1]]
  }

  /** After the overlay, register `start + i` holds the block's `i`-th value and every register
      outside the block keeps its old value. */
  lemma {:induction false} OverlayAt(regs: RegisterMap, start: nat, values: seq<u16>, k: nat)
    requires k in regs || start <= k < start + |values|
    ensures start <= k < start + |values| ==> Overlay(regs, start, values)[k] == values[k - start]
    ensures !(start <= k < start + |values|) ==> Overlay(regs, start, values)[k] == regs[k]
    decreases |values|
  {
    if values != [] && k != start + |values| - 1 {
      OverlayAt(regs, start, values[..|values| - 1], k);
    }
  }

  /** The block reads of one session: every answered block overlaid in order, or the first
      exception. */
  function MergeBlocks(regs: RegisterMap, plan: seq<(nat, nat)>, answers: seq<BlockAnswer>): Result<RegisterMap, string>
    requires |answers| == |plan|
    decreases |plan|
  {
    if plan == [] then Ok(regs)
    else match answers[0]
      case Raised(e) => Err(e)
      case Answered(values) => MergeBlocks(Overlay(regs, plan[0].0, values), plan[1..], answers[1..])
  }

  /** The outcome of one connection attempt. */
  function AttemptResult(attempt: Attempt): Result<RegisterMap, string>
    requires attempt.Session? ==> |attempt.answers| == |READ_BLOCKS|
  {
    match attempt
    case Refused(e) => Err(e)
    case Session(answers) => MergeBlocks(map[], READ_BLOCKS, answers)
  }

  /** Attempts `a` to 3 (counting from 0), the error of the last failed one being `lastErr`. */
  function Retry(attempts: seq<Attempt>, a: nat, lastErr: string): Result<RegisterMap, string>
    requires Scripted(attempts) && a <= 3
    decreases 3 - a
  {
    if a == 3 then Err(lastErr)
    else match AttemptResult(attempts[a])
      case Ok(regs) => Ok(regs)
      case Err(e) => Retry(attempts, a + 1, e)
  }

  /** What `_read_registers` returns, or the exception it raises. */
  function Polled(attempts: seq<Attempt>): Result<RegisterMap, string>
    requires Scripted(attempts)
  {
    Retry(attempts, 0, "")
  }

  /** The two-second pauses of attempts `a` to 3: one after every failed attempt but the third. */
  function Pauses(attempts: seq<Attempt>, a: nat): nat
    requires Scripted(attempts) && a <= 3
    decreases 3 - a
  {
    if a == 3 || AttemptResult(attempts[a]).Ok? then 0
    else (if a < 2 then 1 else 0) + Pauses(attempts, a + 1)
  }

  /** The message of the `UpdateFailed` a failed poll raises once data has been seen. */
  function FailureMessage(err: string): string {
    "Error communicating with inverter: " + err
  }

  /** `DEVICE_TYPES.get(code, f"Type {code}")`. */
  function DeviceTypeName(deviceTypes: map<int, string>, code: int): string {
    if code in deviceTypes then deviceTypes[code] else "Type " + IntString(code)
  }

  /** `f"{major}.{minor}.{patch}"`. */
  function FirmwareText(major: u16, minor: u16, patch: u16): string {
    DecimalString(major) + "." + DecimalString(minor) + "." + DecimalString(patch)
  }

  /** The device type after one identification read: the name of register 0's code when the
      read answered at least one value, else the type held before. */
  function IdentifiedType(deviceTypes: map<int, string>, answer: BlockAnswer, prior: string): string {
    if answer.Answered? && |answer.values| > 0 then DeviceTypeName(deviceTypes, answer.values[0]) else prior
  }

  /** The firmware version after one identification read: registers 13 to 15 when the read
      answered more than 15 values, else the version held before. */
  function IdentifiedFirmware(answer: BlockAnswer, prior: Option<string>): Option<string> {
    if answer.Answered? && |answer.values| > 15
    then Some(FirmwareText(answer.values[13], answer.values[14], answer.values[15]))
    else prior
  }

  /** What `_async_update_data` returns (or, as `Err`, the message of the `UpdateFailed` it
      raises), given the pushed slot, the data of the last successful update and the logger's
      behaviour should it poll. */
  function UpdateOutcome(pushed: Option<RegisterMap>, data: Option<Snapshot>, attempts: seq<Attempt>, cal: Calibration): Result<Snapshot, string>
    requires Scripted(attempts) && cal.ratedCycles > 0
  {
    if pushed.Some? then Ok(ParseSpec(pushed.value, cal))
    else match Polled(attempts)
      case Err(e) => if data.None? then Ok(map[]) else Err(FailureMessage(e))
      case Ok(regs) => Ok(ParseSpec(regs, cal))
  }

  // ---------------------------------------------------------------------------
  // Properties of the polling path
  // ---------------------------------------------------------------------------

  /** A session whose every read is answered yields the registers of the read plan: exactly the
      fetched addresses when each answer has the block's size, each holding its answer's word. */
  lemma SessionRegisters(answers: seq<BlockAnswer>)
    requires |answers| == |READ_BLOCKS|
    requires forall b | 0 <= b < |answers| :: answers[b].Answered? && |answers[b].values| == READ_BLOCKS[b].1
    ensures var r := MergeBlocks(map[], READ_BLOCKS, answers);
      && r.Ok?
      && (forall a: nat :: a in r.value <==> Fetched(a))
      && (forall i | 0 <= i < 55 :: r.value[59 + i] == answers[0].values[i])
      && (forall i | 0 <= i < 45 :: r.value[150 + i] == answers[1].values[i])
  {
    ReadBlocksCoverage();
    var rest := READ_BLOCKS[1..];
    assert rest[0].0 == 150 && rest[1..] == [];
    var m0 := Overlay(map[], 59, answers[0].values);
    var m1 := Overlay(m0, 150, answers[1].values);
    assert MergeBlocks(map[], READ_BLOCKS, answers) == MergeBlocks(m0, rest, answers[1..]);
    assert MergeBlocks(m0, rest, answers[1..]) == Ok(m1);
    forall i | 0 <= i < 55 ensures m1[59 + i] == answers[0].values[i] {
      OverlayAt(map[], 59, answers[0].values, 59 + i);
      OverlayAt(m0, 150, answers[1].values, 59 + i);
    }
    forall i | 0 <= i < 45 ensures m1[150 + i] == answers[1].values[i] {
      OverlayAt(m0, 150, answers[1].values, 150 + i);
    }
  }

  /** The poll fails exactly when all three attempts fail, with the third attempt's error; it
      pauses after each failed attempt but the last, so twice when it gives up and never when
      the first attempt succeeds. */
  lemma RetryOutcome(attempts: seq<Attempt>)
    requires Scripted(attempts)
    ensures Polled(attempts).Err? <==> forall a | 0 <= a < 3 :: AttemptResult(attempts[a]).Err?
    ensures Polled(attempts).Err? ==> Polled(attempts).error == AttemptResult(attempts[2]).error
    ensures Polled(attempts).Err? ==> Pauses(attempts, 0) == 2
    ensures AttemptResult(attempts[0]).Ok? ==> Polled(attempts) == AttemptResult(attempts[0]) && Pauses(attempts, 0) == 0
    ensures Pauses(attempts, 0) <= 2
  {
    assert Pauses(attempts, 2) == 0;
  }

  /** A poll that succeeds returns the registers of the first attempt that succeeds among the
      three, after as many pauses as attempts failed before it. */
  lemma {:induction false} RetryFirstSuccess(attempts: seq<Attempt>, a: nat, lastErr: string)
    requires Scripted(attempts) && a <= 3
    requires Retry(attempts, a, lastErr).Ok?
    ensures exists k | a <= k < 3 ::
      && Retry(attempts, a, lastErr) == AttemptResult(attempts[k])
      && (forall j | a <= j < k :: AttemptResult(attempts[j]).Err?)
      && Pauses(attempts, a) == k - a
    decreases 3 - a
  {
    if AttemptResult(attempts[a]).Ok? {
      assert Retry(attempts, a, lastErr) == AttemptResult(attempts[a]) && Pauses(attempts, a) == 0;
    } else {
      var e := AttemptResult(attempts[a]).error;
      RetryFirstSuccess(attempts, a + 1, e);
      var k :| a + 1 <= k < 3
        && Retry(attempts, a + 1, e) == AttemptResult(attempts[k])
        && (forall j | a + 1 <= j < k :: AttemptResult(attempts[j]).Err?)
        && Pauses(attempts, a + 1) == k - (a + 1);
      assert Retry(attempts, a, lastErr) == AttemptResult(attempts[k]);
      assert Pauses(attempts, a) == k - a;
    }
  }

  // ---------------------------------------------------------------------------
  // Properties of the device identification and the update
  // ---------------------------------------------------------------------------

  /** Two all-digit texts followed by a dot split apart at that dot. */
  lemma DigitsThenDot(x: string, y: string, x': string, y': string)
    requires forall i | 0 <= i < |x| :: IsDigit(x[i])
    requires forall i | 0 <= i < |x'| :: IsDigit(x'[i])
    requires x + "." + y == x' + "." + y'
    ensures x == x' && y == y'
  {
    var s := x + "." + y;
    assert s[|x|] == '.' && s[|x'|] == '.';
    assert x == s[..|x|] == x';
    assert y == s[|x| + 1..] == y';
  }

  /** The firmware text names its three registers: different registers give different texts. */
  lemma FirmwareTextInjective(a: u16, b: u16, c: u16, a': u16, b': u16, c': u16)
    requires FirmwareText(a, b, c) == FirmwareText(a', b', c')
    ensures a == a' && b == b' && c == c'
  {
    var tail := DecimalString(b) + "." + DecimalString(c);
    var tail' := DecimalString(b') + "." + DecimalString(c');
    assert FirmwareText(a, b, c) == DecimalString(a) + "." + tail;
    assert FirmwareText(a', b', c') == DecimalString(a') + "." + tail';
    DigitsThenDot(DecimalString(a), tail, DecimalString(a'), tail');
    DigitsThenDot(DecimalString(b), DecimalString(c), DecimalString(b'), DecimalString(c'));
    DecimalStringValue(a);
    DecimalStringValue(a');
    DecimalStringValue(b);
    DecimalStringValue(b');
    DecimalStringValue(c);
    DecimalStringValue(c');
  }

  /** A code missing from the table is named after its own digits: `"Type "` then the decimal
      code, so different unknown codes get different names. */
  lemma UnknownDeviceType(deviceTypes: map<int, string>, code: u16)
    requires code !in deviceTypes
    ensures var name := DeviceTypeName(deviceTypes, code);
      name[..5] == "Type " && DigitsValue(name[5..]) == code
  {
    var name := DeviceTypeName(deviceTypes, code);
    assert name[5..] == DecimalString(code);
    DecimalStringValue(code);
  }

  /** The first update always succeeds: with nothing pushed and no previous data, a poll that
      fails yields an empty snapshot instead of an error. Once data exists, a failed poll is
      reported with the poll's error. */
  lemma UpdateFailureCases(pushed: Option<RegisterMap>, data: Option<Snapshot>, attempts: seq<Attempt>, cal: Calibration)
    requires Scripted(attempts) && cal.ratedCycles > 0
    ensures data.None? ==> UpdateOutcome(pushed, data, attempts, cal).Ok?
    ensures UpdateOutcome(pushed, data, attempts, cal).Err? <==> pushed.None? && data.Some? && Polled(attempts).Err?
    ensures UpdateOutcome(pushed, data, attempts, cal).Err? ==>
      UpdateOutcome(pushed, data, attempts, cal).error == FailureMessage(AttemptResult(attempts[2]).error)
    ensures pushed.None? && data.None? && Polled(attempts).Err? ==> UpdateOutcome(pushed, data, attempts, cal) == Ok(map[])
  {
    RetryOutcome(attempts);
  }

  /** Pushed registers win: the logger's behaviour is irrelevant when something was pushed. */
  lemma PushedPreferred(regs: RegisterMap, data: Option<Snapshot>, attempts: seq<Attempt>, attempts': seq<Attempt>, cal: Calibration)
    requires Scripted(attempts) && Scripted(attempts') && cal.ratedCycles > 0
    ensures UpdateOutcome(Some(regs), data, attempts, cal) == UpdateOutcome(Some(regs), data, attempts', cal)
    ensures UpdateOutcome(Some(regs), data, attempts, cal) == Ok(ParseSpec(regs, cal))
  {
  }

  // ---------------------------------------------------------------------------
  // The coordinator
  // ---------------------------------------------------------------------------

  class Coordinator {
    /** The user's CO2 factor, battery capacity and rated cycles. */
    const cal: Calibration
    /** A client is open (`_client is not None`). */
    var connected: bool
    var deviceType: string
    var firmwareVersion: Option<string>
    /** `_device_info_read`: identification was attempted once and is never tried again. */
    var deviceInfoRead: bool
    /** `_pushed_registers`: the last push not yet consumed by an update. */
    var pushed: Option<RegisterMap>
    /** The framework's `data`: the result of the last successful update, if any. */
    var data: Option<Snapshot>

    constructor (cal: Calibration)
      requires cal.ratedCycles > 0
      ensures this.cal == cal && !connected
      ensures deviceType == "Hybrid Inverter" && firmwareVersion == None && !deviceInfoRead
      ensures pushed == None && data == None
    {
      this.cal := cal;
      connected := false;
      deviceType := "Hybrid Inverter";
      firmwareVersion := None;
      deviceInfoRead := false;
      pushed := None;
      data := None;
    }

    /** `receive_pushed_data`: the new push replaces any that was not consumed yet. */
    method ReceivePushedData(regs: RegisterMap)
      modifies this`pushed
      ensures pushed == Some(regs)
    {
      pushed := Some(regs);
    }

    /** `_disconnect`: closing a client never fails from the caller's point of view. */
    method Disconnect()
      modifies this`connected
      ensures !connected
    {
      connected := false;
    }

    /** `for i, val in enumerate(values): regs[start + i] = val`. */
    static method StoreValues(regs: RegisterMap, start: nat, values: seq<u16>) returns (out: RegisterMap)
      ensures out == Overlay(regs, start, values)
    {
      out := regs;
      var i := 0;
      while i < |values|
        invariant i <= |values|
        invariant out == Overlay(regs, start, values[..i])
      {
        assert values[..i + 1][..i] == values[..i];
        out := out[start + i := values[i]];
        i := i + 1;
      }
      assert values[..i] == values;
    }

    /** The block reads of one session, into a fresh map. */
    static method ReadBlocks(answers: seq<BlockAnswer>) returns (r: Result<RegisterMap, string>)
      requires |answers| == |READ_BLOCKS|
      ensures r == MergeBlocks(map[], READ_BLOCKS, answers)
    {
      var regs: RegisterMap := map[];
      var b := 0;
      while b < |READ_BLOCKS|
        invariant b <= |READ_BLOCKS|
        invariant MergeBlocks(regs, READ_BLOCKS[b..], answers[b..]) == MergeBlocks(map[], READ_BLOCKS, answers)
      {
        assert READ_BLOCKS[b..][1..] == READ_BLOCKS[b + 1..];
        assert answers[b..][1..] == answers[b + 1..];
        match answers[b] {
          case Raised(e) =>
            return Err(e);
          case Answered(values) =>
            regs := StoreValues(regs, READ_BLOCKS[b].0, values);
        }
        b := b + 1;
      }
      return Ok(regs);
    }

    /** `_read_registers` as written: up to three attempts, each starting from a closed client,
        a pause after each failed one but the last; the error of the third failure is raised.
        A successful poll returns with its client still open. */
    method ReadRegisters(attempts: seq<Attempt>) returns (r: Result<RegisterMap, string>, pauses: nat)
      requires Scripted(attempts)
      modifies this`connected
      ensures r == Polled(attempts) && pauses == Pauses(attempts, 0)
      ensures connected <==> r.Ok?
    {
      var lastErr := "";
      pauses := 0;
      var attempt := 0;
      while attempt < 3
        invariant attempt <= 3 && (attempt > 0 ==> !connected)
        invariant Retry(attempts, attempt, lastErr) == Polled(attempts)
        invariant pauses + Pauses(attempts, attempt) == Pauses(attempts, 0)
      {
        Disconnect();
        var outcome: Result<RegisterMap, string>;
        match attempts[attempt] {
          case Refused(e) =>
            outcome := Err(e);
          case Session(answers) =>
            connected := true;
            outcome := ReadBlocks(answers);
        }
        if outcome.Ok? {
          return outcome, pauses;
        }
        lastErr := outcome.error;
        Disconnect();
        if attempt < 2 {
          pauses := pauses + 1;
        }
        attempt := attempt + 1;
      }
      r := Err(lastErr);
    }

    /** `_read_registers` as its documentation describes it: the client is closed again after a
        successful poll too, so the logger's single connection slot is free between polls. */
    method ReadRegistersAndRelease(attempts: seq<Attempt>) returns (r: Result<RegisterMap, string>, pauses: nat)
      requires Scripted(attempts)
      modifies this`connected
      ensures r == Polled(attempts) && pauses == Pauses(attempts, 0)
      ensures !connected
    {
      r, pauses := ReadRegisters(attempts);
      Disconnect();
    }

    /** `_read_device_info`: tried at most once. The identification client is a local one, and any
        failure (no client, a raised read, an empty answer) leaves the defaults in place. */
    method ReadDeviceInfo(deviceTypes: map<int, string>, answer: BlockAnswer)
      modifies this`connected, this`deviceType, this`firmwareVersion, this`deviceInfoRead
      ensures old(deviceInfoRead) ==> unchanged(this)
      ensures !old(deviceInfoRead) ==>
        && deviceInfoRead && !connected
        && deviceType == IdentifiedType(deviceTypes, answer, old(deviceType))
        && firmwareVersion == IdentifiedFirmware(answer, old(firmwareVersion))
    {
      if deviceInfoRead {
        return;
      }
      Disconnect();
      if answer.Answered? && |answer.values| > 0 {
        var values := answer.values;
        deviceType := DeviceTypeName(deviceTypes, values[0]);
        if |values| > 15 {
          firmwareVersion := Some(FirmwareText(values[13], values[14], values[15]));
        }
      }
      deviceInfoRead := true;
    }

    /** The polling fallback of `_async_update_data`: `_read_registers` as written, the client
        dropped when it raises, and on success the one-time identification. A successful poll
        after the first one therefore leaves its client connected. */
    method Poll(attempts: seq<Attempt>, deviceTypes: map<int, string>, info: BlockAnswer)
      returns (polled: Result<RegisterMap, string>)
      requires Scripted(attempts)
      modifies this`connected, this`deviceType, this`firmwareVersion, this`deviceInfoRead
      ensures polled == Polled(attempts)
      ensures connected == (polled.Ok? && old(deviceInfoRead))
      ensures polled.Ok? ==> deviceInfoRead
      ensures polled.Ok? && !old(deviceInfoRead) ==>
        deviceType == IdentifiedType(deviceTypes, info, old(deviceType))
        && firmwareVersion == IdentifiedFirmware(info, old(firmwareVersion))
      ensures polled.Err? || old(deviceInfoRead) ==>
        deviceInfoRead == old(deviceInfoRead) && deviceType == old(deviceType) && firmwareVersion == old(firmwareVersion)
    {
      var pauses;
      polled, pauses := ReadRegisters(attempts);
      if polled.Err? {
        // `self._client = None` in the failure handler.
        connected := false;
        return;
      }
      if !deviceInfoRead {
        ReadDeviceInfo(deviceTypes, info);
      }
    }

    /** `_async_update_data`: the pushed registers if there are any (the slot is emptied), else a
        poll, followed on success by the one-time identification. */
    method AsyncUpdateData(attempts: seq<Attempt>, deviceTypes: map<int, string>, info: BlockAnswer)
      returns (r: Result<Snapshot, string>)
      requires Scripted(attempts) && cal.ratedCycles > 0
      modifies this`connected, this`deviceType, this`firmwareVersion, this`deviceInfoRead, this`pushed
      ensures r == UpdateOutcome(old(pushed), old(data), attempts, cal)
      ensures pushed == None
      ensures connected == if old(pushed).Some? then old(connected)
                           else Polled(attempts).Ok? && old(deviceInfoRead)
      ensures old(pushed).None? && Polled(attempts).Ok? ==> deviceInfoRead
      ensures old(pushed).None? && Polled(attempts).Ok? && !old(deviceInfoRead) ==>
        deviceType == IdentifiedType(deviceTypes, info, old(deviceType))
        && firmwareVersion == IdentifiedFirmware(info, old(firmwareVersion))
      ensures old(pushed).Some? || Polled(attempts).Err? || old(deviceInfoRead) ==>
        deviceInfoRead == old(deviceInfoRead) && deviceType == old(deviceType) && firmwareVersion == old(firmwareVersion)
    {
      var regs: RegisterMap;
      if pushed.Some? {
        regs := pushed.value;
        pushed := None;
      } else {
        var polled := Poll(attempts, deviceTypes, info);
        if polled.Err? {
          if data.None? {
            return Ok(map[]);
          }
          return Err(FailureMessage(polled.error));
        }
        regs := polled.value;
      }
      var snapshot := Parse(regs, cal);
      r := Ok(snapshot);
    }

    /** One refresh by the Home Assistant framework: a successful update becomes the data the
        sensors show; a failed one leaves the previous data. */
    method Refresh(attempts: seq<Attempt>, deviceTypes: map<int, string>, info: BlockAnswer)
      returns (r: Result<Snapshot, string>)
      requires Scripted(attempts) && cal.ratedCycles > 0
      modifies this
      ensures r == UpdateOutcome(old(pushed), old(data), attempts, cal)
      ensures data == if r.Ok? then Some(r.value) else old(data)
      ensures pushed == None
      ensures connected == if old(pushed).Some? then old(connected)
                           else Polled(attempts).Ok? && old(deviceInfoRead)
      ensures old(pushed).None? && Polled(attempts).Ok? ==> deviceInfoRead
      ensures old(pushed).None? && Polled(attempts).Ok? && !old(deviceInfoRead) ==>
        deviceType == IdentifiedType(deviceTypes, info, old(deviceType))
        && firmwareVersion == IdentifiedFirmware(info, old(firmwareVersion))
      ensures old(pushed).Some? || Polled(attempts).Err? || old(deviceInfoRead) ==>
        deviceInfoRead == old(deviceInfoRead) && deviceType == old(deviceType) && firmwareVersion == old(firmwareVersion)
    {
      r := AsyncUpdateData(attempts, deviceTypes, info);
      if r.Ok? {
        data := Some(r.value);
      }
    }
  }

  /** Two pushes before an update: the update parses the second, and the one after it polls. */
  method LastPushWins(c: Coordinator, first: RegisterMap, second: RegisterMap, attempts: seq<Attempt>, deviceTypes: map<int, string>, info: BlockAnswer)
    returns (r1: Result<Snapshot, string>, r2: Result<Snapshot, string>)
    requires Scripted(attempts) && c.cal.ratedCycles > 0
    modifies c
    ensures r1 == Ok(ParseSpec(second, c.cal))
    ensures r2 == UpdateOutcome(None, Some(r1.value), attempts, c.cal)
  {
    c.ReceivePushedData(first);
    c.ReceivePushedData(second);
    r1 := c.Refresh(attempts, deviceTypes, info);
    r2 := c.Refresh(attempts, deviceTypes, info);
  }

  /** A client left open by a successful poll: the logger answers both blocks at once. */
  lemma ClientLeftOpen(v0: seq<u16>, v1: seq<u16>)
    requires |v0| == 55 && |v1| == 45
    ensures var attempts := [Session([Answered(v0), Answered(v1)]), Refused(""), Refused("")];
      Scripted(attempts) && Polled(attempts).Ok?
  {
    var attempts := [Session([Answered(v0), Answered(v1)]), Refused(""), Refused("")];
    SessionRegisters([Answered(v0), Answered(v1)]);
  }
}
