/**
 * The "Download Diagnostics" document (diagnostics.py): the config entry with its
 * sensitive keys masked, and the inverter's configuration read from its holding
 * registers: labelled, enumerations translated, units appended and the time-of-use
 * slot registers folded into one text per slot.
 *
 * The holding-register client is not modelled: each block read is given with what
 * the device answered, and the client's creation as a possible error. The tables
 * HOLDING_READ_BLOCKS, HOLDING_REGISTER_LABELS, WORK_MODES and BATTERY_TYPES are not
 * part of this model and are parameters.
 */
module Diagnostics {
  import opened Common
  import opened RegisterDecoder
  import opened CoordinatorState

  /** A value of the JSON document: the integers read or configured, or a text. */
  datatype Value = Int(n: int) | Str(s: string)

  // ---------------------------------------------------------------------------
  // _redact
  // ---------------------------------------------------------------------------

  const REDACTED := "**REDACTED**"
  const REDACT_KEYS: set<string> := {"serial_number"}

  /** `_redact`: the same keys; the sensitive ones masked, every other value kept. */
  function Redact(data: map<string, Value>): (r: map<string, Value>)
    ensures r.Keys == data.Keys
    ensures forall k | k in r && k in REDACT_KEYS :: r[k] == Str(REDACTED)
    ensures forall k | k in r && k !in REDACT_KEYS :: r[k] == data[k]
  {
    map k | k in data :: if k in REDACT_KEYS then Str(REDACTED) else data[k]
  }

  /** Redacting twice is redacting once. */
  lemma RedactIdempotent(data: map<string, Value>)
    ensures Redact(Redact(data)) == Redact(data)
  {
  }

  /** The logger's serial number never reaches the document, whatever it was. */
  lemma SerialNumberMasked(data: map<string, Value>, serial: Value)
    ensures var r := Redact(data["serial_number" := serial]);
      "serial_number" in r && r["serial_number"] == Str(REDACTED)
  {
  }

  // ---------------------------------------------------------------------------
  // Reading the holding registers (_read_inverter_config, lines 43-54)
  // ---------------------------------------------------------------------------

  /** One read of a `HOLDING_READ_BLOCKS` block: its first register, and what the device
      answered (the values, or the exception the read raised). */
  datatype BlockRead = BlockRead(start: nat, answer: BlockAnswer)

  /** The address of the register at offset `i` of a block starting at `start`. */
  function Reg(start: nat, i: nat): nat {
    start + i
  }

  /** The labels of the registers of one block that have one. */
  function BlockLabels(start: nat, values: seq<u16>, labels: map<nat, string>): set<string> {
    set i | 0 <= i < |values| && Reg(start, i) in labels :: labels[Reg(start, i)]
  }

  /** The values of one block written over `config`, in register order, each under its
      register's label; registers without a label are passed over. */
  function LabelBlock(config: map<string, u16>, start: nat, values: seq<u16>, labels: map<nat, string>): map<string, u16>
    decreases |values|
  {
    if values == [] then config
    else
      var n := |values| - 1;
      var c := LabelBlock(config, start, values[..n], labels);
      if start + n in labels then c[labels[start + n] := values[n]] else c
  }

  /** The block reads folded over `config` in order: a read that raised is skipped. */
  function CollectFrom(config: map<string, u16>, blocks: seq<BlockRead>, labels: map<nat, string>): map<string, u16>
    decreases |blocks|
  {
    if blocks == [] then config
    else
      var c := CollectFrom(config, blocks[..|blocks| - 1], labels);
      match blocks[|blocks| - 1].answer
      case Raised(_) => c
      case Answered(values) => LabelBlock(c, blocks[|blocks| - 1].start, values, labels)
  }

  /** The labelled configuration `_read_inverter_config` has collected when its read loop ends. */
  function Collected(blocks: seq<BlockRead>, labels: map<nat, string>): map<string, u16> {
    CollectFrom(map[], blocks, labels)
  }

  lemma BlockLabelsSnoc(start: nat, values: seq<u16>, labels: map<nat, string>)
    requires values != []
    ensures var n := |values| - 1;
      BlockLabels(start, values, labels)
        == BlockLabels(start, values[..n], labels) + (if start + n in labels then {labels[start + n]} else {})
  {
    var n := |values| - 1;
    var init := values[..n];
    forall k | k in BlockLabels(start, values, labels)
      ensures k in BlockLabels(start, init, labels) || (start + n in labels && k == labels[start + n])
    {
      var i :| 0 <= i < |values| && Reg(start, i) in labels && labels[Reg(start, i)] == k;
      if i < n {
        assert k in BlockLabels(start, init, labels);
      }
    }
    forall k | k in BlockLabels(start, init, labels) ensures k in BlockLabels(start, values, labels) {
      var i :| 0 <= i < n && Reg(start, i) in labels && labels[Reg(start, i)] == k;
    }
    if start + n in labels {
      assert Reg(start, n) in labels && labels[Reg(start, n)] == labels[start + n];
    }
  }

  /** A block adds exactly the labels of its registers, and each label it adds holds the value
      of some register of the block with that label; other entries are untouched. */
  lemma {:induction false} LabelBlockEntries(config: map<string, u16>, start: nat, values: seq<u16>, labels: map<nat, string>)
    ensures var r := LabelBlock(config, start, values, labels);
      && r.Keys == config.Keys + BlockLabels(start, values, labels)
      && (forall k | k in r && k !in BlockLabels(start, values, labels) :: r[k] == config[k])
      && (forall k | k in BlockLabels(start, values, labels) :: exists i | 0 <= i < |values| ::
            Reg(start, i) in labels && labels[Reg(start, i)] == k && r[k] == values[i])
    decreases |values|
  {
    if values != [] {
      var n := |values| - 1;
      var init := values[..n];
      LabelBlockEntries(config, start, init, labels);
      var c := LabelBlock(config, start, init, labels);
      var r := LabelBlock(config, start, values, labels);
      assert forall i | 0 <= i < n :: values[i] == init[i];
      if start + n in labels {
        BlockLabelsSnoc(start, values, labels);
        forall k | k in BlockLabels(start, values, labels)
          ensures exists i | 0 <= i < |values| :: Reg(start, i) in labels && labels[Reg(start, i)] == k && r[k] == values[i]
        {
          if k == labels[start + n] {
            assert Reg(start, n) in labels && labels[Reg(start, n)] == k && r[k] == values[n];
          } else {
            var i :| 0 <= i < n && Reg(start, i) in labels && labels[Reg(start, i)] == k && c[k] == init[i];
            assert r[k] == values[i];
          }
        }
      } else {
        BlockLabelsSnoc(start, values, labels);
        forall k | k in BlockLabels(start, values, labels)
          ensures exists i | 0 <= i < |values| :: Reg(start, i) in labels && labels[Reg(start, i)] == k && r[k] == values[i]
        {
          var i :| 0 <= i < n && Reg(start, i) in labels && labels[Reg(start, i)] == k && c[k] == init[i];
          assert r[k] == values[i];
        }
      }
    }
  }

  /** Reading the blocks in two runs is reading them in one. */
  lemma {:induction false} CollectAppend(config: map<string, u16>, r1: seq<BlockRead>, r2: seq<BlockRead>, labels: map<nat, string>)
    ensures CollectFrom(config, r1 + r2, labels) == CollectFrom(CollectFrom(config, r1, labels), r2, labels)
    decreases |r2|
  {
    if r2 == [] {
      assert r1 + r2 == r1;
    } else {
      var n := |r2| - 1;
      assert (r1 + r2)[..|r1 + r2| - 1] == r1 + r2[..n];
      assert (r1 + r2)[|r1 + r2| - 1] == r2[n];
      CollectAppend(config, r1, r2[..n], labels);
    }
  }

  /** A block whose read raises is skipped, and the blocks around it still contribute as if it
      were not there. */
  lemma FailedBlockSkipped(r1: seq<BlockRead>, start: nat, err: string, r2: seq<BlockRead>, labels: map<nat, string>)
    ensures Collected(r1 + [BlockRead(start, Raised(err))] + r2, labels) == Collected(r1 + r2, labels)
  {
    var failed := [BlockRead(start, Raised(err))];
    CollectAppend(map[], r1 + failed, r2, labels);
    CollectAppend(map[], r1, r2, labels);
    assert (r1 + failed)[..|r1 + failed| - 1] == r1;
  }

  /** The register `start + i` of an answered read carries label `k`. */
  predicate LabelledIn(blocks: seq<BlockRead>, labels: map<nat, string>, k: string, j: nat) {
    j < |blocks| && blocks[j].answer.Answered? && k in BlockLabels(blocks[j].start, blocks[j].answer.values, labels)
  }

  /** Only labelled registers of answered blocks produce entries: a label is present exactly
      when some answered block has a register with that label. */
  lemma {:induction false} CollectedKeys(blocks: seq<BlockRead>, labels: map<nat, string>, k: string)
    ensures k in Collected(blocks, labels) <==> exists j :: LabelledIn(blocks, labels, k, j)
    decreases |blocks|
  {
    if blocks != [] {
      var n := |blocks| - 1;
      var init := blocks[..n];
      CollectedKeys(init, labels, k);
      var c := Collected(init, labels);
      var last := blocks[n];
      if (exists j :: LabelledIn(blocks, labels, k, j)) {
        var j: nat :| LabelledIn(blocks, labels, k, j);
        if j < n {
          assert blocks[j] == init[j];
          assert LabelledIn(init, labels, k, j);
        }
      }
      if (exists j :: LabelledIn(init, labels, k, j)) {
        var j: nat :| LabelledIn(init, labels, k, j);
        assert blocks[j] == init[j];
        assert LabelledIn(blocks, labels, k, j);
      }
      match last.answer {
        case Raised(_) =>
          assert !LabelledIn(blocks, labels, k, n);
        case Answered(values) =>
          LabelBlockEntries(c, last.start, values, labels);
          if k in BlockLabels(last.start, values, labels) {
            assert LabelledIn(blocks, labels, k, n);
          }
      }
    }
  }

  /** Register `i` of the answered block `j` carries label `k` and holds `v`. */
  predicate Supplies(blocks: seq<BlockRead>, labels: map<nat, string>, k: string, v: u16, j: nat, i: nat) {
    j < |blocks| && blocks[j].answer.Answered? && i < |blocks[j].answer.values|
      && Reg(blocks[j].start, i) in labels && labels[Reg(blocks[j].start, i)] == k && blocks[j].answer.values[i] == v
  }

  /** Each collected entry holds the value of a register with its label in an answered block. */
  lemma {:induction false} CollectedValues(blocks: seq<BlockRead>, labels: map<nat, string>, k: string)
    requires k in Collected(blocks, labels)
    ensures exists j, i :: Supplies(blocks, labels, k, Collected(blocks, labels)[k], j, i)
    decreases |blocks|
  {
    var n := |blocks| - 1;
    var init := blocks[..n];
    var c := Collected(init, labels);
    var r := Collected(blocks, labels);
    var last := blocks[n];
    match last.answer {
      case Raised(_) =>
        CollectedValues(init, labels, k);
        var j: nat, i: nat :| Supplies(init, labels, k, c[k], j, i);
        assert blocks[j] == init[j];
        assert Supplies(blocks, labels, k, r[k], j, i);
      case Answered(values) =>
        LabelBlockEntries(c, last.start, values, labels);
        if k in BlockLabels(last.start, values, labels) {
          var i: nat :| i < |values| && Reg(last.start, i) in labels && labels[Reg(last.start, i)] == k && r[k] == values[i];
          assert Supplies(blocks, labels, k, r[k], n, i);
        } else {
          assert r[k] == c[k];
          CollectedValues(init, labels, k);
          var j: nat, i: nat :| Supplies(init, labels, k, c[k], j, i);
          assert blocks[j] == init[j];
          assert Supplies(blocks, labels, k, r[k], j, i);
        }
    }
  }

  /** The read loop of `_read_inverter_config`: every block in order, skipping a block whose read
      raises, each value stored under its register's label if it has one. */
  method CollectConfig(blocks: seq<BlockRead>, labels: map<nat, string>) returns (config: map<string, u16>)
    ensures config == Collected(blocks, labels)
  {
    config := map[];
    for b := 0 to |blocks|
      invariant config == Collected(blocks[..b], labels)
    {
      assert blocks[..b + 1][..b] == blocks[..b];
      var read := blocks[b];
      match read.answer {
        case Raised(_) =>
        case Answered(values) =>
          ghost var before := config;
          for i := 0 to |values|
            invariant config == LabelBlock(before, read.start, values[..i], labels)
          {
            assert values[..i + 1][..i] == values[..i];
            var reg := read.start + i;
            if reg in labels {
              config := config[labels[reg] := values[i]];
            }
          }
          assert values[..|values|] == values;
      }
    }
    assert blocks[..|blocks|] == blocks;
  }

  // ---------------------------------------------------------------------------
  // Decoding the configuration (_read_inverter_config, lines 61-89)
  // ---------------------------------------------------------------------------

  const WORK_MODE := "Work mode"
  const BATTERY_TYPE := "Battery type"
  const VOLTAGE_KEYS: seq<string> := ["Battery empty voltage", "Battery full voltage", "Battery low voltage warning"]
  const CURRENT_KEYS: seq<string> := ["Max charge current", "Max discharge current", "Grid charge current limit"]
  const SOC_KEYS: seq<string> := ["Battery empty SOC", "Battery shutdown SOC", "Battery low SOC warning"]
  const BATTERY_CAPACITY := "Battery capacity"

  /** `table.get(raw, f"Unknown ({raw})")`. */
  function EnumText(table: map<int, string>, raw: int): string {
    if raw in table then table[raw] else "Unknown (" + IntString(raw) + ")"
  }

  /** `f"{raw * 0.1:.1f} V"`: the tenths of a volt written with one decimal. */
  function VoltageText(raw: nat): string {
    DecimalString(raw / 10) + "." + [DigitChar(raw % 10)] + " V"
  }

  /** What the formatting steps leave under key `k`, whose raw value is `v`. */
  function Format(k: string, v: u16, workModes: map<int, string>, batteryTypes: map<int, string>): Value {
    if k == WORK_MODE then Str(EnumText(workModes, v))
    else if k == BATTERY_TYPE then Str(EnumText(batteryTypes, v))
    else if k in VOLTAGE_KEYS then Str(VoltageText(v))
    else if k in CURRENT_KEYS then Str(DecimalString(v) + " A")
    else if k in SOC_KEYS then Str(DecimalString(v) + " %")
    else if k == BATTERY_CAPACITY then Str(DecimalString(v) + " Ah")
    else Int(v)
  }

  /** The configuration after the formatting steps, before the slots are folded. */
  function Formatted(raw: map<string, u16>, workModes: map<int, string>, batteryTypes: map<int, string>): map<string, Value> {
    map k | k in raw :: Format(k, raw[k], workModes, batteryTypes)
  }

  /** The configuration part way through the formatting steps: the keys in `done` formatted. */
  function PartlyFormatted(raw: map<string, u16>, done: set<string>, workModes: map<int, string>, batteryTypes: map<int, string>): map<string, Value> {
    map k | k in raw :: if k in done then Format(k, raw[k], workModes, batteryTypes) else Int(raw[k])
  }

  /** A voltage text blocks back to the raw register: the digits before the point are the whole
      volts, the one after it the tenths. Test: 470 is shown as "47.0 V". */
  lemma VoltageTextValue(raw: nat)
    ensures var t := VoltageText(raw); var w := DecimalString(raw / 10);
      && t == w + "." + [t[|w| + 1]] + " V"
      && DigitsValue(w) * 10 + (t[|w| + 1] as int - '0' as int) == raw
    ensures VoltageText(470) == "47.0 V"
  {
    DecimalStringValue(raw / 10);
    assert DecimalString(47) == "47" by {
      assert DecimalString(4) == "4";
    }
  }

  /** The capacity, current and state-of-charge texts the tests expect: 100 Ah, 30 A, 5 %. */
  lemma UnitTexts(workModes: map<int, string>, batteryTypes: map<int, string>)
    ensures Format(BATTERY_CAPACITY, 100, workModes, batteryTypes) == Str("100 Ah")
    ensures Format("Max charge current", 30, workModes, batteryTypes) == Str("30 A")
    ensures Format("Battery shutdown SOC", 5, workModes, batteryTypes) == Str("5 %")
  {
    assert DecimalString(100) == "100" by {
      assert DecimalString(1) == "1";
      assert DecimalString(10) == "10";
    }
    assert DecimalString(30) == "30" by {
      assert DecimalString(3) == "3";
    }
  }

  /** A code the table lacks is shown as `"Unknown ("`, its decimal code and `")"`, so the raw
      code can be read back from it. */
  lemma UnknownEnumText(table: map<int, string>, raw: u16)
    requires raw !in table
    ensures var t := EnumText(table, raw);
      t[..9] == "Unknown (" && t[|t| - 1] == ')' && DigitsValue(t[9..|t| - 1]) == raw
  {
    var t := EnumText(table, raw);
    assert t[9..|t| - 1] == DecimalString(raw);
    DecimalStringValue(raw);
  }

  // ---------------------------------------------------------------------------
  // Folding the time-of-use slots (_read_inverter_config, lines 91-106)
  // ---------------------------------------------------------------------------

  const START_HOUR := "start hour"
  const START_MINUTE := "start minute"
  const END_HOUR := "end hour"
  const END_MINUTE := "end minute"
  const ENABLE := "enable"
  const CHARGE_DISCHARGE := "charge/discharge"
  const SOC_TARGET := "SOC target"

  /** The message of the `TypeError` `f"{None:02d}"` raises. */
  const FORMAT_NONE_ERROR := "unsupported format string passed to NoneType.__format__"

  function SlotKey(n: nat, field: string): string
    requires 1 <= n <= 6
  {
    "Slot " + [DigitChar(n)] + " " + field
  }

  /** The seven raw keys of slot `n`. */
  function SlotKeys(n: nat): set<string>
    requires 1 <= n <= 6
  {
    {SlotKey(n, START_HOUR), SlotKey(n, START_MINUTE), SlotKey(n, END_HOUR), SlotKey(n, END_MINUTE),
     SlotKey(n, ENABLE), SlotKey(n, CHARGE_DISCHARGE), SlotKey(n, SOC_TARGET)}
  }

  function TimeSlotKey(n: nat): string
    requires 1 <= n <= 6
  {
    "Time slot " + [DigitChar(n)]
  }

  /** `config.pop(key, None)`, read from the raw registers: the slot entries still hold them. */
  function Get(raw: map<string, u16>, key: string): Option<u16> {
    if key in raw then Some(raw[key]) else None
  }

  /** `f"{v:02d}"`: at least two digits, zero-padded. */
  function Pad2(v: nat): string {
    if v < 10 then "0" + [DigitChar(v)] else DecimalString(v)
  }

  function ModeText(cd: Option<u16>): string {
    match cd
    case None => "Mode None"
    case Some(x) => if x == 0 then "Charge" else if x == 1 then "Discharge" else "Mode " + DecimalString(x)
  }

  function EnabledText(en: Option<u16>): string {
    if en == Some(1) then "ON" else "OFF"
  }

  /** `f"{soc}"`, `None` included. */
  function OptionText(v: Option<u16>): string {
    match v
    case None => "None"
    case Some(x) => DecimalString(x)
  }

  /** The text of slot `n`, given its four time registers. */
  function SlotText(raw: map<string, u16>, n: nat, sh: nat, sm: nat, eh: nat, em: nat): string
    requires 1 <= n <= 6
  {
    Pad2(sh) + ":" + Pad2(sm) + "-" + Pad2(eh) + ":" + Pad2(em) + "  "
      + ModeText(Get(raw, SlotKey(n, CHARGE_DISCHARGE))) + "  SOC " + OptionText(Get(raw, SlotKey(n, SOC_TARGET)))
      + "%  [" + EnabledText(Get(raw, SlotKey(n, ENABLE))) + "]"
  }

  /** Slot `n` has a start hour but misses one of the other time registers, so its text cannot
      be formatted. */
  predicate Broken(raw: map<string, u16>, n: nat)
    requires 1 <= n <= 6
  {
    SlotKey(n, START_HOUR) in raw
      && (SlotKey(n, START_MINUTE) !in raw || SlotKey(n, END_HOUR) !in raw || SlotKey(n, END_MINUTE) !in raw)
  }

  /** Slot `n` has all four time registers. */
  predicate Timed(raw: map<string, u16>, n: nat)
    requires 1 <= n <= 6
  {
    SlotKey(n, START_HOUR) in raw && !Broken(raw, n)
  }

  /** The text of a slot that has its four time registers. */
  function SlotTextOf(raw: map<string, u16>, n: nat): string
    requires 1 <= n <= 6 && Timed(raw, n)
  {
    SlotText(raw, n, raw[SlotKey(n, START_HOUR)], raw[SlotKey(n, START_MINUTE)],
             raw[SlotKey(n, END_HOUR)], raw[SlotKey(n, END_MINUTE)])
  }

  /** One pass of the slot loop: the slot's raw keys go; its text comes in when it has a start
      hour; a missing minute or end time raises. */
  function FoldSlot(config: map<string, Value>, raw: map<string, u16>, n: nat): Result<map<string, Value>, string>
    requires 1 <= n <= 6
  {
    var c := config - SlotKeys(n);
    if SlotKey(n, START_HOUR) !in raw then Ok(c)
    else if Broken(raw, n) then Err(FORMAT_NONE_ERROR)
    else Ok(c[TimeSlotKey(n) := Str(SlotTextOf(raw, n))])
  }

  /** The slot loop for slots 1 to `n`. */
  function FoldSlots(config: map<string, Value>, raw: map<string, u16>, n: nat): Result<map<string, Value>, string>
    requires n <= 6
  {
    if n == 0 then Ok(config)
    else match FoldSlots(config, raw, n - 1)
      case Err(e) => Err(e)
      case Ok(c) => FoldSlot(c, raw, n)
  }

  /** The configuration `_read_inverter_config` returns from the labelled raw values, or the
      message of the error it raises. */
  function Decoded(raw: map<string, u16>, workModes: map<int, string>, batteryTypes: map<int, string>): Result<map<string, Value>, string> {
    FoldSlots(Formatted(raw, workModes, batteryTypes), raw, 6)
  }

  /** `k` is a raw key of one of the slots 1 to `n`. */
  predicate SlotKeyUpTo(k: string, n: nat)
    requires n <= 6
  {
    n > 0 && (k in SlotKeys(n) || SlotKeyUpTo(k, n - 1))
  }

  /** `k` is the text key of one of the slots 1 to `n` that has a start hour. */
  predicate TimeSlotUpTo(raw: map<string, u16>, k: string, n: nat)
    requires n <= 6
  {
    n > 0 && ((k == TimeSlotKey(n) && SlotKey(n, START_HOUR) in raw) || TimeSlotUpTo(raw, k, n - 1))
  }

  /** A slot's text key is none of the raw slot keys, and differs from every other slot's. */
  lemma TimeKeyDistinct(m: nat, m': nat)
    requires 1 <= m <= 6 && 1 <= m' <= 6
    ensures TimeSlotKey(m) !in SlotKeys(m')
    ensures m != m' ==> TimeSlotKey(m) != TimeSlotKey(m')
  {
    assert TimeSlotKey(m)[0] == 'T';
    assert TimeSlotKey(m)[10] == DigitChar(m) && TimeSlotKey(m')[10] == DigitChar(m');
    forall k | k in SlotKeys(m') ensures k[0] == 'S' {
    }
  }

  /** The text keys are never raw slot keys. */
  lemma {:induction false} TimeKeyNotSlotKeyUpTo(m: nat, n: nat)
    requires 1 <= m <= 6 && n <= 6
    ensures !SlotKeyUpTo(TimeSlotKey(m), n)
  {
    if n > 0 {
      TimeKeyDistinct(m, n);
      TimeKeyNotSlotKeyUpTo(m, n - 1);
    }
  }

  lemma {:induction false} TimeSlotUpToShape(raw: map<string, u16>, k: string, n: nat)
    requires n <= 6 && TimeSlotUpTo(raw, k, n)
    ensures exists m | 1 <= m <= n :: k == TimeSlotKey(m)
  {
    if !(k == TimeSlotKey(n) && SlotKey(n, START_HOUR) in raw) {
      TimeSlotUpToShape(raw, k, n - 1);
    }
  }

  /** The slot loop fails exactly when one of the slots it has passed is broken. */
  lemma {:induction false} FoldSlotsError(config: map<string, Value>, raw: map<string, u16>, n: nat)
    requires n <= 6
    ensures FoldSlots(config, raw, n).Err? <==> exists m | 1 <= m <= n :: Broken(raw, m)
    ensures FoldSlots(config, raw, n).Err? ==> FoldSlots(config, raw, n).error == FORMAT_NONE_ERROR
  {
    if n > 0 {
      FoldSlotsError(config, raw, n - 1);
    }
  }

  /** After slots 1 to `n`, the keys are the original ones but the raw slot keys, plus a text
      key for each slot with a start hour. */
  lemma {:induction false} FoldSlotsKeys(config: map<string, Value>, raw: map<string, u16>, n: nat, k: string)
    requires n <= 6 && FoldSlots(config, raw, n).Ok?
    ensures k in FoldSlots(config, raw, n).value <==> (k in config && !SlotKeyUpTo(k, n)) || TimeSlotUpTo(raw, k, n)
  {
    if n > 0 {
      FoldSlotsKeys(config, raw, n - 1, k);
      if k == TimeSlotKey(n) {
        TimeKeyNotSlotKeyUpTo(n, n);
      }
      if TimeSlotUpTo(raw, k, n - 1) {
        TimeSlotUpToShape(raw, k, n - 1);
        var m :| 1 <= m <= n - 1 && k == TimeSlotKey(m);
        TimeKeyDistinct(m, n);
      }
    }
  }

  /** After slots 1 to `n`, the text key of each slot with its time registers holds the slot's
      text, and an entry that is neither a raw slot key nor a written text key is unchanged. */
  lemma {:induction false} FoldSlotsValues(config: map<string, Value>, raw: map<string, u16>, n: nat, k: string)
    requires n <= 6 && FoldSlots(config, raw, n).Ok?
    ensures var r := FoldSlots(config, raw, n).value;
      && (forall m | 1 <= m <= n && Timed(raw, m) :: TimeSlotKey(m) in r && r[TimeSlotKey(m)] == Str(SlotTextOf(raw, m)))
      && (k in config && !SlotKeyUpTo(k, n) && !TimeSlotUpTo(raw, k, n) ==> k in r && r[k] == config[k])
  {
    if n > 0 {
      FoldSlotsValues(config, raw, n - 1, k);
      forall m | 1 <= m <= n {
        TimeKeyDistinct(m, n);
      }
    }
  }

  /** What `_read_inverter_config` makes of the labelled values: it raises exactly when a slot
      with a start hour misses a time register; otherwise its keys are the labelled keys but
      the raw slot keys, plus "Time slot N" exactly for the slots with a start hour, each
      holding its slot's text, and every other key holds its formatted value. */
  lemma DecodedEntries(raw: map<string, u16>, workModes: map<int, string>, batteryTypes: map<int, string>, k: string)
    ensures Decoded(raw, workModes, batteryTypes).Err? <==> exists m | 1 <= m <= 6 :: Broken(raw, m)
    ensures Decoded(raw, workModes, batteryTypes).Ok? ==>
      var r := Decoded(raw, workModes, batteryTypes).value;
      && (k in r <==> (k in raw && !SlotKeyUpTo(k, 6)) || TimeSlotUpTo(raw, k, 6))
      && (forall m | 1 <= m <= 6 && Timed(raw, m) :: TimeSlotKey(m) in r && r[TimeSlotKey(m)] == Str(SlotTextOf(raw, m)))
      && (k in raw && !SlotKeyUpTo(k, 6) && !TimeSlotUpTo(raw, k, 6) ==> k in r && r[k] == Format(k, raw[k], workModes, batteryTypes))
  {
    var f := Formatted(raw, workModes, batteryTypes);
    FoldSlotsError(f, raw, 6);
    if Decoded(raw, workModes, batteryTypes).Ok? {
      FoldSlotsKeys(f, raw, 6, k);
      FoldSlotsValues(f, raw, 6, k);
    }
  }

  /** `f"{v:02d}"` is all digits, two of them below 100, and reads back to `v`. */
  lemma Pad2Value(v: nat)
    ensures 2 <= |Pad2(v)| && (v < 100 ==> |Pad2(v)| == 2)
    ensures forall i | 0 <= i < |Pad2(v)| :: IsDigit(Pad2(v)[i])
    ensures DigitsValue(Pad2(v)) == v
  {
    DecimalStringValue(v);
    if v < 10 {
      assert DigitsValue(Pad2(v)[..1]) == 0;
    }
  }

  /** A slot's mode text names its code: different codes (or none) give different texts. */
  lemma ModeTextInjective(a: Option<u16>, b: Option<u16>)
    requires ModeText(a) == ModeText(b)
    ensures a == b
  {
    if a.Some? && a.value > 1 {
      assert ModeText(a)[5..] == DecimalString(a.value);
      DecimalStringValue(a.value);
    }
    if b.Some? && b.value > 1 {
      assert ModeText(b)[5..] == DecimalString(b.value);
      DecimalStringValue(b.value);
    }
  }

  // ---------------------------------------------------------------------------
  // The methods
  // ---------------------------------------------------------------------------

  /** Formatting one more key: its entry, if any, takes its formatted value. */
  lemma FormatStep(raw: map<string, u16>, done: set<string>, key: string, v: Value,
                   workModes: map<int, string>, batteryTypes: map<int, string>)
    requires key in raw && v == Format(key, raw[key], workModes, batteryTypes)
    ensures PartlyFormatted(raw, done, workModes, batteryTypes)[key := v]
      == PartlyFormatted(raw, done + {key}, workModes, batteryTypes)
  {
  }

  lemma FormatSkip(raw: map<string, u16>, done: set<string>, key: string,
                   workModes: map<int, string>, batteryTypes: map<int, string>)
    requires key !in raw
    ensures PartlyFormatted(raw, done, workModes, batteryTypes) == PartlyFormatted(raw, done + {key}, workModes, batteryTypes)
  {
  }

  /** Every key of the formatting steps formatted is the whole of `Formatted`. */
  lemma FormatDone(raw: map<string, u16>, done: set<string>, workModes: map<int, string>, batteryTypes: map<int, string>)
    requires {WORK_MODE, BATTERY_TYPE, BATTERY_CAPACITY} <= done
    requires forall i | 0 <= i < 3 :: VOLTAGE_KEYS[i] in done && CURRENT_KEYS[i] in done && SOC_KEYS[i] in done
    ensures PartlyFormatted(raw, done, workModes, batteryTypes) == Formatted(raw, workModes, batteryTypes)
  {
    forall k | k in raw && k !in done ensures Format(k, raw[k], workModes, batteryTypes) == Int(raw[k]) {
      assert k !in VOLTAGE_KEYS && k !in CURRENT_KEYS && k !in SOC_KEYS;
    }
  }

  /** One `if key in config: config[key] = ...` of lines 61-89: the entry, if present, takes
      its formatted text. */
  method Reformat(config: map<string, Value>, raw: map<string, u16>, ghost done: set<string>, key: string,
                  workModes: map<int, string>, batteryTypes: map<int, string>)
    returns (next: map<string, Value>)
    requires config == PartlyFormatted(raw, done, workModes, batteryTypes)
    ensures next == PartlyFormatted(raw, done + {key}, workModes, batteryTypes)
  {
    if key in raw {
      FormatStep(raw, done, key, Format(key, raw[key], workModes, batteryTypes), workModes, batteryTypes);
      next := config[key := Format(key, raw[key], workModes, batteryTypes)];
    } else {
      FormatSkip(raw, done, key, workModes, batteryTypes);
      next := config;
    }
  }

  /** Lines 61-89 of `_read_inverter_config`: translate the two enumerations and append the
      units, key list by key list. */
  method FormatConfig(raw: map<string, u16>, workModes: map<int, string>, batteryTypes: map<int, string>)
    returns (config: map<string, Value>)
    ensures config == Formatted(raw, workModes, batteryTypes)
  {
    config := map k | k in raw :: Int(raw[k]);
    ghost var done: set<string> := {};
    config := Reformat(config, raw, done, WORK_MODE, workModes, batteryTypes);
    done := done + {WORK_MODE};
    config := Reformat(config, raw, done, BATTERY_TYPE, workModes, batteryTypes);
    done := done + {BATTERY_TYPE};
    for i := 0 to |VOLTAGE_KEYS|
      invariant config == PartlyFormatted(raw, done, workModes, batteryTypes)
      invariant {WORK_MODE, BATTERY_TYPE} <= done
      invariant forall j | 0 <= j < i :: VOLTAGE_KEYS[j] in done
    {
      config := Reformat(config, raw, done, VOLTAGE_KEYS[i], workModes, batteryTypes);
      done := done + {VOLTAGE_KEYS[i]};
    }
    for i := 0 to |CURRENT_KEYS|
      invariant config == PartlyFormatted(raw, done, workModes, batteryTypes)
      invariant {WORK_MODE, BATTERY_TYPE} <= done
      invariant forall j | 0 <= j < 3 :: VOLTAGE_KEYS[j] in done
      invariant forall j | 0 <= j < i :: CURRENT_KEYS[j] in done
    {
      config := Reformat(config, raw, done, CURRENT_KEYS[i], workModes, batteryTypes);
      done := done + {CURRENT_KEYS[i]};
    }
    for i := 0 to |SOC_KEYS|
      invariant config == PartlyFormatted(raw, done, workModes, batteryTypes)
      invariant {WORK_MODE, BATTERY_TYPE} <= done
      invariant forall j | 0 <= j < 3 :: VOLTAGE_KEYS[j] in done && CURRENT_KEYS[j] in done
      invariant forall j | 0 <= j < i :: SOC_KEYS[j] in done
    {
      config := Reformat(config, raw, done, SOC_KEYS[i], workModes, batteryTypes);
      done := done + {SOC_KEYS[i]};
    }
    config := Reformat(config, raw, done, BATTERY_CAPACITY, workModes, batteryTypes);
    done := done + {BATTERY_CAPACITY};
    FormatDone(raw, done, workModes, batteryTypes);
  }

  /** Lines 91-106 of `_read_inverter_config`: for slots 1 to 6, pop the slot's seven keys and,
      when it has a start hour, write its text (raising when a time register is missing). */
  method FoldTimeSlots(formatted: map<string, Value>, raw: map<string, u16>)
    returns (r: Result<map<string, Value>, string>)
    ensures r == FoldSlots(formatted, raw, 6)
  {
    var config := formatted;
    var n := 1;
    while n <= 6
      invariant 1 <= n <= 7
      invariant FoldSlots(formatted, raw, n - 1) == Ok(config)
    {
      var sh := Get(raw, SlotKey(n, START_HOUR));
      var sm := Get(raw, SlotKey(n, START_MINUTE));
      var eh := Get(raw, SlotKey(n, END_HOUR));
      var em := Get(raw, SlotKey(n, END_MINUTE));
      config := config - SlotKeys(n);
      if sh.Some? {
        if sm.None? || eh.None? || em.None? {
          assert Broken(raw, n);
          FoldSlotsError(formatted, raw, 6);
          return Err(FORMAT_NONE_ERROR);
        }
        var text := SlotText(raw, n, sh.value, sm.value, eh.value, em.value);
        config := config[TimeSlotKey(n) := Str(text)];
      }
      n := n + 1;
    }
    r := Ok(config);
  }

  /** Lines 61-106 of `_read_inverter_config`: format, then fold the slots. */
  method DecodeConfig(raw: map<string, u16>, workModes: map<int, string>, batteryTypes: map<int, string>)
    returns (r: Result<map<string, Value>, string>)
    ensures r == Decoded(raw, workModes, batteryTypes)
  {
    var config := FormatConfig(raw, workModes, batteryTypes);
    r := FoldTimeSlots(config, raw);
  }

  /** `_read_inverter_config`, once the client exists: read the blocks, then decode. */
  method ReadInverterConfig(blocks: seq<BlockRead>, labels: map<nat, string>, workModes: map<int, string>, batteryTypes: map<int, string>)
    returns (r: Result<map<string, Value>, string>)
    ensures r == Decoded(Collected(blocks, labels), workModes, batteryTypes)
  {
    var raw := CollectConfig(blocks, labels);
    r := DecodeConfig(raw, workModes, batteryTypes);
  }

  // ---------------------------------------------------------------------------
  // The document (async_get_config_entry_diagnostics)
  // ---------------------------------------------------------------------------

  datatype Document = Document(
    configEntry: map<string, Value>,
    options: map<string, Value>,
    inverterStatus: Snapshot,
    inverterConfiguration: map<string, Value>)

  /** The diagnostics document. `client` is the client `_new_client` builds and the block blocks
      made with it, or the message of the exception building it raised. */
  method GetConfigEntryDiagnostics(entryData: map<string, Value>, options: map<string, Value>, data: Option<Snapshot>,
                                   client: Result<seq<BlockRead>, string>, labels: map<nat, string>,
                                   workModes: map<int, string>, batteryTypes: map<int, string>)
    returns (doc: Document)
    ensures doc.configEntry == Redact(entryData) && doc.options == options
    ensures doc.inverterStatus == (if data.Some? then data.value else map[])
    ensures client.Err? ==> doc.inverterConfiguration == map["error" := Str(client.error)]
    ensures client.Ok? ==>
      doc.inverterConfiguration == (match Decoded(Collected(client.value, labels), workModes, batteryTypes)
        case Ok(config) => config
        case Err(e) => map["error" := Str(e)])
  {
    var status: Snapshot := if data.Some? then data.value else map[];
    var configuration: map<string, Value>;
    match client {
      case Err(e) =>
        configuration := map["error" := Str(e)];
      case Ok(blocks) =>
        var r := ReadInverterConfig(blocks, labels, workModes, batteryTypes);
        match r {
          case Ok(config) => configuration := config;
          case Err(e) => configuration := map["error" := Str(e)];
        }
    }
    doc := Document(Redact(entryData), options, status, configuration);
  }
}
