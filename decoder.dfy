/**
 * Decoding raw input registers into named sensor readings (coordinator.py:
 * `_signed`, `_signed32`, `_parse`).
 *
 * Readings are exact reals: the final `round(value, precision)` of every
 * reading is not modelled, so each value here is the one that is rounded.
 */
module RegisterDecoder {
  import opened Common
  import opened Registers

  // ---------------------------------------------------------------------------
  // Two's complement
  // ---------------------------------------------------------------------------

  /** `_signed`: an unsigned 16-bit word read as two's complement. */
  function Signed(value: int): (r: int)
    ensures 0 <= value < 0x1_0000 ==> -0x8000 <= r < 0x8000 && (r - value) % 0x1_0000 == 0
  {
    if value >= 32768 then value - 65536 else value
  }

  /** `_signed32`: an unsigned 32-bit value read as two's complement. */
  function Signed32(value: int): (r: int)
    ensures 0 <= value < 0x1_0000_0000 ==> -0x8000_0000 <= r < 0x8000_0000 && (r - value) % 0x1_0000_0000 == 0
  {
    if value >= 2147483648 then value - 4294967296 else value
  }

  /** Reading a word as signed and storing it back as 16 bits gives the word, and every signed
      16-bit number is the reading of its 16-bit pattern. */
  lemma SignedInverse(v: u16, s: int)
    requires -0x8000 <= s < 0x8000
    ensures Signed(v) % 0x1_0000 == v
    ensures Signed(s % 0x1_0000) == s
    ensures Signed(v) < 0 <==> v >= 0x8000
  {
  }

  /** The 32-bit counterpart of `SignedInverse`. */
  lemma Signed32Inverse(v: u32, s: int)
    requires -0x8000_0000 <= s < 0x8000_0000
    ensures Signed32(v) % 0x1_0000_0000 == v
    ensures Signed32(s % 0x1_0000_0000) == s
    ensures Signed32(v) < 0 <==> v >= 0x8000_0000
  {
  }

  // ---------------------------------------------------------------------------
  // Python's int() of a float
  // ---------------------------------------------------------------------------

  /** `int(x)`: the integer part of `x`, truncated toward zero. */
  function Trunc(x: real): (i: int)
    ensures 0.0 <= x ==> i as real <= x < i as real + 1.0
    ensures x < 0.0 ==> i as real - 1.0 < x <= i as real
  {
    if x >= 0.0 then x.Floor else -((-x).Floor)
  }

  lemma TruncOfInt(n: int)
    ensures Trunc(n as real) == n
  {
  }

  // ---------------------------------------------------------------------------
  // Sensor readings
  // ---------------------------------------------------------------------------

  /** A value of the parsed snapshot: a number or a text. */
  datatype SensorValue = Num(x: real) | Text(s: string)

  /** Sensor name -> value, as `_parse` returns it. */
  type Snapshot = map<string, SensorValue>

  /** The user's calibration of the derived sensors. */
  datatype Calibration = Calibration(co2Factor: real, batteryCapacity: real, ratedCycles: int)

  const BATTERY_TEMPERATURE := "Battery Temperature"
  const RUNNING_STATE := "Running State"
  const GRID_CONNECTED_STATUS := "Grid Connected Status"
  const DAILY_PV_ENERGY := "Daily PV Energy"
  const TOTAL_PV_ENERGY := "Total PV Energy"
  const TOTAL_BATTERY_DISCHARGE := "Total Battery Discharge Energy"
  const DAILY_CO2_SAVED := "Daily CO2 Saved"
  const TOTAL_CO2_SAVED := "Total CO2 Saved"
  const BATTERY_CYCLES := "Battery Cycles"
  const BATTERY_HEALTH := "Battery Health"

  /** The single-register tables `_parse` reads through the generic path, in its order. */
  const GENERIC_ROWS: seq<SingleRow> :=
    REGISTERS_PV + REGISTERS_GRID + REGISTERS_LOAD + REGISTERS_INVERTER
    + REGISTERS_TEMPERATURE + REGISTERS_ENERGY_DAILY + REGISTERS_STATUS

  /** A reading times a factor (a row's scale, the CO2 emission factor). */
  function Scale(v: real, factor: real): real {
    v * factor
  }

  /** The reading of a named row from its raw word: two's complement when the row is signed,
      times the row's scale. In the battery table the battery temperature is instead stored with
      an offset of 1000 in tenths of a degree. */
  function Reading(row: SingleRow, raw: u16, battery: bool): real
    requires row.Named?
  {
    if battery && row.name == BATTERY_TEMPERATURE then (raw - 1000) as real * 0.1
    else Scale((if row.signed then Signed(raw) else raw) as real, row.scale)
  }

  /** One row of a single-register loop: skipped when unnamed or when its register is missing,
      otherwise its reading is stored under its name. */
  function ApplyRow(data: map<string, real>, row: SingleRow, regs: RegisterMap, battery: bool): map<string, real> {
    match row
    case Placeholder(_) => data
    case Named(address, name, _, _, _) =>
      if address !in regs then data else data[name := Reading(row, regs[address], battery)]
  }

  /** A whole single-register loop over `rows`, in order. */
  function ApplyRows(data: map<string, real>, rows: seq<SingleRow>, regs: RegisterMap, battery: bool): map<string, real>
    decreases |rows|
  {
    if rows == [] then data else ApplyRows(ApplyRow(data, rows[0], regs, battery), rows[1..], regs, battery)
  }

  /** `(high << 16) | low` of two 16-bit words: the high word shifted past the low one. */
  function Combine(high: u16, low: u16): nat {
    high as int * 0x1_0000 + low as int
  }

  /** The combined value is a 32-bit number whose upper and lower halves are the two words. */
  lemma CombineSplit(high: u16, low: u16)
    ensures Combine(high, low) < 0x1_0000_0000
    ensures Combine(high, low) / 0x1_0000 == high && Combine(high, low) % 0x1_0000 == low
  {
  }

  /** One row of the 32-bit loop: stored only when both words are present. */
  function ApplyTotal(data: map<string, real>, row: TotalRow, regs: RegisterMap): map<string, real> {
    if row.low in regs && row.high in regs then
      data[row.name := Scale(Combine(regs[row.high], regs[row.low]) as real, row.scale)]
    else data
  }

  function ApplyTotals(data: map<string, real>, rows: seq<TotalRow>, regs: RegisterMap): map<string, real>
    decreases |rows|
  {
    if rows == [] then data else ApplyTotals(ApplyTotal(data, rows[0], regs), rows[1..], regs)
  }

  /** The numeric readings `_parse` has stored before it translates any of them to text. */
  function Numeric(regs: RegisterMap): map<string, real> {
    var generic := ApplyRows(map[], GENERIC_ROWS, regs, false);
    var battery := ApplyRows(generic, REGISTERS_BATTERY, regs, true);
    ApplyTotals(battery, REGISTERS_ENERGY_TOTAL, regs)
  }

  /** The text of a running-state code: its name, or `"Unknown (<code>)"`. */
  function StateText(code: int): string {
    if code in RUNNING_STATES then RUNNING_STATES[code] else "Unknown (" + IntString(code) + ")"
  }

  /** The text of the grid-connected flag. */
  function GridText(code: int): (t: string) {
    if code == 1 then "Connected" else "Disconnected"
  }

  function Max0(x: real): (m: real)
    ensures 0.0 <= m && x <= m && (m == x || m == 0.0)
  {
    if x < 0.0 then 0.0 else x
  }

  /** The numeric readings as snapshot values, with the running state and the grid-connected
      flag translated to text. */
  function Translated(nums: map<string, real>): Snapshot {
    var data := map k | k in nums :: Num(nums[k]);
    var data := if RUNNING_STATE in nums then data[RUNNING_STATE := Text(StateText(Trunc(nums[RUNNING_STATE])))] else data;
    if GRID_CONNECTED_STATUS in nums then data[GRID_CONNECTED_STATUS := Text(GridText(Trunc(nums[GRID_CONNECTED_STATUS])))] else data
  }

  /** The CO2 savings: the daily and total PV energy times the emission factor, each only when
      that energy was read. */
  function WithCo2(data: Snapshot, nums: map<string, real>, cal: Calibration): Snapshot {
    var data := if DAILY_PV_ENERGY in nums then data[DAILY_CO2_SAVED := Num(Scale(nums[DAILY_PV_ENERGY], cal.co2Factor))] else data;
    if TOTAL_PV_ENERGY in nums then data[TOTAL_CO2_SAVED := Num(Scale(nums[TOTAL_PV_ENERGY], cal.co2Factor))] else data
  }

  /** Full discharge cycles so far and the remaining health in percent, never below 0. */
  function WithCycles(data: Snapshot, nums: map<string, real>, cal: Calibration): Snapshot
    requires cal.ratedCycles > 0
  {
    if TOTAL_BATTERY_DISCHARGE in nums && cal.batteryCapacity > 0.0 then
      var cycles := nums[TOTAL_BATTERY_DISCHARGE] / cal.batteryCapacity;
      data[BATTERY_CYCLES := Num(cycles)][BATTERY_HEALTH := Num(Max0(100.0 * (1.0 - cycles / cal.ratedCycles as real)))]
    else data
  }

  /** The snapshot `_parse` returns from its numeric readings `nums`. */
  function Finish(nums: map<string, real>, cal: Calibration): Snapshot
    requires cal.ratedCycles > 0
  {
    WithCycles(WithCo2(Translated(nums), nums, cal), nums, cal)
  }

  /** What `_parse(regs)` returns, before rounding. */
  function ParseSpec(regs: RegisterMap, cal: Calibration): Snapshot
    requires cal.ratedCycles > 0
  {
    Finish(Numeric(regs), cal)
  }

  // ---------------------------------------------------------------------------
  // The method
  // ---------------------------------------------------------------------------

  /** The generic single-register loop of `_parse` over `rows`. */
  method StoreSingles(data: map<string, real>, rows: seq<SingleRow>, regs: RegisterMap) returns (out: map<string, real>)
    ensures out == ApplyRows(data, rows, regs, false)
  {
    out := data;
    var i := 0;
    while i < |rows|
      invariant i <= |rows|
      invariant ApplyRows(out, rows[i..], regs, false) == ApplyRows(data, rows, regs, false)
    {
      var row := rows[i];
      assert rows[i..][1..] == rows[i + 1..];
      ghost var before := out;
      if row.Named? && row.address in regs {
        var raw: int := regs[row.address];
        var val := if row.signed then Signed(raw) else raw;
        out := out[row.name := Scale(val as real, row.scale)];
        assert out == ApplyRow(before, row, regs, false);
      } else {
        assert out == ApplyRow(before, row, regs, false);
      }
      i := i + 1;
    }
  }

  /** The battery loop of `_parse`, with its temperature special case. */
  method StoreBattery(data: map<string, real>, rows: seq<SingleRow>, regs: RegisterMap) returns (out: map<string, real>)
    ensures out == ApplyRows(data, rows, regs, true)
  {
    out := data;
    var i := 0;
    while i < |rows|
      invariant i <= |rows|
      invariant ApplyRows(out, rows[i..], regs, true) == ApplyRows(data, rows, regs, true)
    {
      var row := rows[i];
      assert rows[i..][1..] == rows[i + 1..];
      ghost var before := out;
      if row.Named? && row.address in regs {
        var raw: int := regs[row.address];
        if row.name == BATTERY_TEMPERATURE {
          assert Reading(row, regs[row.address], true) == (raw - 1000) as real * 0.1;
          out := out[row.name := (raw - 1000) as real * 0.1];
        } else {
          var val := if row.signed then Signed(raw) else raw;
          out := out[row.name := Scale(val as real, row.scale)];
        }
        assert out == ApplyRow(before, row, regs, true);
      } else {
        assert out == ApplyRow(before, row, regs, true);
      }
      i := i + 1;
    }
  }

  /** The 32-bit loop of `_parse`. */
  method StoreTotals(data: map<string, real>, rows: seq<TotalRow>, regs: RegisterMap) returns (out: map<string, real>)
    ensures out == ApplyTotals(data, rows, regs)
  {
    out := data;
    var i := 0;
    while i < |rows|
      invariant i <= |rows|
      invariant ApplyTotals(out, rows[i..], regs) == ApplyTotals(data, rows, regs)
    {
      var row := rows[i];
      assert rows[i..][1..] == rows[i + 1..];
      ghost var before := out;
      if row.low in regs && row.high in regs {
        var combined: int := regs[row.high] as int * 0x1_0000 + regs[row.low] as int;
        assert combined == Combine(regs[row.high], regs[row.low]);
        out := out[row.name := Scale(combined as real, row.scale)];
        assert out == ApplyTotal(before, row, regs);
      } else {
        assert out == ApplyTotal(before, row, regs);
      }
      i := i + 1;
    }
  }

  /** The three register loops of `_parse`. */
  method StoreReadings(regs: RegisterMap) returns (nums: map<string, real>)
    ensures nums == Numeric(regs)
  {
    nums := StoreSingles(map[], GENERIC_ROWS, regs);
    nums := StoreBattery(nums, REGISTERS_BATTERY, regs);
    nums := StoreTotals(nums, REGISTERS_ENERGY_TOTAL, regs);
  }

  /** `_parse`: the register loops, then the text translations and the derived sensors. */
  method Parse(regs: RegisterMap, cal: Calibration) returns (data: Snapshot)
    requires cal.ratedCycles > 0
    ensures data == ParseSpec(regs, cal)
  {
    var nums := StoreReadings(regs);
    data := FinishReadings(nums, cal);
  }

  /** The end of `_parse`: the text translations and the derived sensors. */
  method FinishReadings(nums: map<string, real>, cal: Calibration) returns (data: Snapshot)
    requires cal.ratedCycles > 0
    ensures data == Finish(nums, cal)
  {
    data := map k | k in nums :: Num(nums[k]);
    if RUNNING_STATE in nums {
      var rawState := Trunc(nums[RUNNING_STATE]);
      data := data[RUNNING_STATE := Text(StateText(rawState))];
    }
    if GRID_CONNECTED_STATUS in nums {
      data := data[GRID_CONNECTED_STATUS := Text(if Trunc(nums[GRID_CONNECTED_STATUS]) == 1 then "Connected" else "Disconnected")];
    }
    assert data == Translated(nums);
    ghost var translated := data;
    if DAILY_PV_ENERGY in nums {
      data := data[DAILY_CO2_SAVED := Num(Scale(nums[DAILY_PV_ENERGY], cal.co2Factor))];
    }
    if TOTAL_PV_ENERGY in nums {
      data := data[TOTAL_CO2_SAVED := Num(Scale(nums[TOTAL_PV_ENERGY], cal.co2Factor))];
    }
    assert data == WithCo2(translated, nums, cal);
    if TOTAL_BATTERY_DISCHARGE in nums && cal.batteryCapacity > 0.0 {
      var cycles := nums[TOTAL_BATTERY_DISCHARGE] / cal.batteryCapacity;
      data := data[BATTERY_CYCLES := Num(cycles)];
      var health := Max0(100.0 * (1.0 - cycles / cal.ratedCycles as real));
      data := data[BATTERY_HEALTH := Num(health)];
    }
  }

  // ---------------------------------------------------------------------------
  // Which keys a loop stores, and with what
  // ---------------------------------------------------------------------------

  /** Some named row of `rows` for sensor `k` has its register in `regs`. */
  ghost predicate RowPresent(rows: seq<SingleRow>, regs: RegisterMap, k: string) {
    exists i | 0 <= i < |rows| :: rows[i].Named? && rows[i].name == k && rows[i].address in regs
  }

  /** No row of `rows` is named `k`. */
  predicate NotNamedIn(rows: seq<SingleRow>, k: string) {
    forall j | 0 <= j < |rows| :: rows[j].Named? ==> rows[j].name != k
  }

  /** A single-register loop adds exactly the names of the rows whose register is present. */
  lemma {:induction false} ApplyRowsKeys(data: map<string, real>, rows: seq<SingleRow>, regs: RegisterMap, battery: bool)
    decreases |rows|
    ensures forall k :: k in ApplyRows(data, rows, regs, battery) <==> k in data || RowPresent(rows, regs, k)
  {
    if rows != [] {
      var d1 := ApplyRow(data, rows[0], regs, battery);
      ApplyRowsKeys(d1, rows[1..], regs, battery);
      forall k
        ensures k in ApplyRows(data, rows, regs, battery) <==> k in data || RowPresent(rows, regs, k)
      {
        if RowPresent(rows[1..], regs, k) {
          var i :| 0 <= i < |rows[1..]| && rows[1..][i].Named? && rows[1..][i].name == k && rows[1..][i].address in regs;
          assert rows[i + 1] == rows[1..][i];
        }
        if RowPresent(rows, regs, k) && !(k in d1) {
          var i :| 0 <= i < |rows| && rows[i].Named? && rows[i].name == k && rows[i].address in regs;
          if i == 0 {
          } else {
            assert rows[1..][i - 1] == rows[i];
          }
        }
      }
    }
  }

  /** A sensor no row of the loop names keeps its presence and value. */
  lemma {:induction false} ApplyRowsOther(data: map<string, real>, rows: seq<SingleRow>, regs: RegisterMap, battery: bool, k: string)
    requires NotNamedIn(rows, k)
    decreases |rows|
    ensures var r := ApplyRows(data, rows, regs, battery);
      (k in r <==> k in data) && (k in data ==> r[k] == data[k])
  {
    if rows != [] {
      assert NotNamedIn(rows[1..], k) by {
        forall j | 0 <= j < |rows[1..]| ensures rows[1..][j].Named? ==> rows[1..][j].name != k {
          assert rows[1..][j] == rows[j + 1];
        }
      }
      assert rows[0].Named? ==> rows[0].name != k;
      ApplyRowsOther(ApplyRow(data, rows[0], regs, battery), rows[1..], regs, battery, k);
    }
  }

  /** A sensor read by row `i` and named by no later row ends up with row `i`'s reading. */
  lemma {:induction false} ApplyRowsLast(data: map<string, real>, rows: seq<SingleRow>, regs: RegisterMap, battery: bool, i: nat)
    requires i < |rows| && rows[i].Named? && rows[i].address in regs
    requires NotNamedIn(rows[i + 1..], rows[i].name)
    decreases |rows|
    ensures var r := ApplyRows(data, rows, regs, battery);
      rows[i].name in r && r[rows[i].name] == Reading(rows[i], regs[rows[i].address], battery)
  {
    var d1 := ApplyRow(data, rows[0], regs, battery);
    if i == 0 {
      ApplyRowsOther(d1, rows[1..], regs, battery, rows[0].name);
    } else {
      assert rows[1..][i - 1] == rows[i];
      assert rows[1..][i - 1 + 1..] == rows[i + 1..];
      ApplyRowsLast(d1, rows[1..], regs, battery, i - 1);
    }
  }

  /** Some row of `rows` for sensor `k` has both its registers in `regs`. */
  ghost predicate TotalPresent(rows: seq<TotalRow>, regs: RegisterMap, k: string) {
    exists i | 0 <= i < |rows| :: rows[i].name == k && rows[i].low in regs && rows[i].high in regs
  }

  predicate NotTotalIn(rows: seq<TotalRow>, k: string) {
    forall j | 0 <= j < |rows| :: rows[j].name != k
  }

  /** The 32-bit loop adds exactly the names of the rows whose two registers are both present. */
  lemma {:induction false} ApplyTotalsKeys(data: map<string, real>, rows: seq<TotalRow>, regs: RegisterMap)
    decreases |rows|
    ensures forall k :: k in ApplyTotals(data, rows, regs) <==> k in data || TotalPresent(rows, regs, k)
  {
    if rows != [] {
      var d1 := ApplyTotal(data, rows[0], regs);
      ApplyTotalsKeys(d1, rows[1..], regs);
      forall k
        ensures k in ApplyTotals(data, rows, regs) <==> k in data || TotalPresent(rows, regs, k)
      {
        if TotalPresent(rows[1..], regs, k) {
          var i :| 0 <= i < |rows[1..]| && rows[1..][i].name == k && rows[1..][i].low in regs && rows[1..][i].high in regs;
          assert rows[i + 1] == rows[1..][i];
        }
        if TotalPresent(rows, regs, k) && !(k in d1) {
          var i :| 0 <= i < |rows| && rows[i].name == k && rows[i].low in regs && rows[i].high in regs;
          if i == 0 {
          } else {
            assert rows[1..][i - 1] == rows[i];
          }
        }
      }
    }
  }

  lemma {:induction false} ApplyTotalsOther(data: map<string, real>, rows: seq<TotalRow>, regs: RegisterMap, k: string)
    requires NotTotalIn(rows, k)
    decreases |rows|
    ensures var r := ApplyTotals(data, rows, regs);
      (k in r <==> k in data) && (k in data ==> r[k] == data[k])
  {
    if rows != [] {
      assert NotTotalIn(rows[1..], k) by {
        forall j | 0 <= j < |rows[1..]| ensures rows[1..][j].name != k {
          assert rows[1..][j] == rows[j + 1];
        }
      }
      ApplyTotalsOther(ApplyTotal(data, rows[0], regs), rows[1..], regs, k);
    }
  }

  /** A total whose two words are present and named by no later row ends up as the 32-bit value
      `high * 65536 + low`, scaled. */
  lemma {:induction false} ApplyTotalsLast(data: map<string, real>, rows: seq<TotalRow>, regs: RegisterMap, i: nat)
    requires i < |rows| && rows[i].low in regs && rows[i].high in regs
    requires NotTotalIn(rows[i + 1..], rows[i].name)
    decreases |rows|
    ensures var r := ApplyTotals(data, rows, regs);
      rows[i].name in r && r[rows[i].name] == Scale(Combine(regs[rows[i].high], regs[rows[i].low]) as real, rows[i].scale)
  {
    var d1 := ApplyTotal(data, rows[0], regs);
    if i == 0 {
      ApplyTotalsOther(d1, rows[1..], regs, rows[0].name);
    } else {
      assert rows[1..][i - 1] == rows[i];
      assert rows[1..][i - 1 + 1..] == rows[i + 1..];
      ApplyTotalsLast(d1, rows[1..], regs, i - 1);
    }
  }

  // ---------------------------------------------------------------------------
  // Which keys `_parse` returns
  // ---------------------------------------------------------------------------

  /** A sensor has a numeric reading exactly when some named row for it has its register
      present, or some 32-bit row for it has both its registers present. */
  lemma NumericKeys(regs: RegisterMap)
    ensures forall k :: k in Numeric(regs) <==>
      RowPresent(GENERIC_ROWS, regs, k) || RowPresent(REGISTERS_BATTERY, regs, k)
      || TotalPresent(REGISTERS_ENERGY_TOTAL, regs, k)
  {
    var generic := ApplyRows(map[], GENERIC_ROWS, regs, false);
    ApplyRowsKeys(map[], GENERIC_ROWS, regs, false);
    var battery := ApplyRows(generic, REGISTERS_BATTERY, regs, true);
    ApplyRowsKeys(generic, REGISTERS_BATTERY, regs, true);
    ApplyTotalsKeys(battery, REGISTERS_ENERGY_TOTAL, regs);
  }

  /** The snapshot holds the numeric readings plus the derived sensors: the CO2 savings exactly
      when the matching PV energy was read, and the battery cycles and health exactly when the
      total discharge energy was read and the capacity is positive. */
  lemma FinishKeys(nums: map<string, real>, cal: Calibration)
    requires cal.ratedCycles > 0
    ensures forall k :: k in Finish(nums, cal) <==>
      || k in nums
      || (k == DAILY_CO2_SAVED && DAILY_PV_ENERGY in nums)
      || (k == TOTAL_CO2_SAVED && TOTAL_PV_ENERGY in nums)
      || ((k == BATTERY_CYCLES || k == BATTERY_HEALTH) && TOTAL_BATTERY_DISCHARGE in nums && cal.batteryCapacity > 0.0)
  {
  }

  /** Readings other than the two translated ones and the derived sensors are returned as they
      were read. */
  lemma FinishKeeps(nums: map<string, real>, cal: Calibration, k: string)
    requires cal.ratedCycles > 0
    requires k in nums
    requires k != RUNNING_STATE && k != GRID_CONNECTED_STATUS && k != DAILY_CO2_SAVED
    requires k != TOTAL_CO2_SAVED && k != BATTERY_CYCLES && k != BATTERY_HEALTH
    ensures Finish(nums, cal)[k] == Num(nums[k])
  {
  }

  /** The derived sensors: the running state and the grid flag as texts of their integer parts,
      the CO2 savings as energy times emission factor, the cycles as discharged energy over
      capacity and the health as the unused share of the rated cycles, in percent and never
      below 0. */
  lemma FinishDerived(nums: map<string, real>, cal: Calibration)
    requires cal.ratedCycles > 0
    ensures var d := Finish(nums, cal);
      && (RUNNING_STATE in nums ==> d[RUNNING_STATE] == Text(StateText(Trunc(nums[RUNNING_STATE]))))
      && (GRID_CONNECTED_STATUS in nums ==>
            d[GRID_CONNECTED_STATUS] == Text(if Trunc(nums[GRID_CONNECTED_STATUS]) == 1 then "Connected" else "Disconnected"))
      && (DAILY_PV_ENERGY in nums ==> d[DAILY_CO2_SAVED] == Num(Scale(nums[DAILY_PV_ENERGY], cal.co2Factor)))
      && (TOTAL_PV_ENERGY in nums ==> d[TOTAL_CO2_SAVED] == Num(Scale(nums[TOTAL_PV_ENERGY], cal.co2Factor)))
      && (TOTAL_BATTERY_DISCHARGE in nums && cal.batteryCapacity > 0.0 ==>
            var cycles := nums[TOTAL_BATTERY_DISCHARGE] / cal.batteryCapacity;
            && d[BATTERY_CYCLES] == Num(cycles)
            && d[BATTERY_HEALTH].Num? && 0.0 <= d[BATTERY_HEALTH].x
            && (cycles <= cal.ratedCycles as real ==>
                  d[BATTERY_HEALTH].x == 100.0 * (1.0 - cycles / cal.ratedCycles as real))
            && (cycles >= cal.ratedCycles as real ==> d[BATTERY_HEALTH].x == 0.0)
            && (0.0 <= cycles ==> d[BATTERY_HEALTH].x <= 100.0))
  {
    var d := Finish(nums, cal);
    if TOTAL_BATTERY_DISCHARGE in nums && cal.batteryCapacity > 0.0 {
      var cycles := nums[TOTAL_BATTERY_DISCHARGE] / cal.batteryCapacity;
      var r := cal.ratedCycles as real;
      assert cycles <= r ==> cycles / r <= 1.0;
      assert cycles >= r ==> cycles / r >= 1.0;
      assert 0.0 <= cycles ==> 0.0 <= cycles / r;
    }
  }

  // ---------------------------------------------------------------------------
  // One sensor's reading
  // ---------------------------------------------------------------------------

  /** A row of a single-register loop that no other row of the loop names is read exactly when
      its register is present, and then holds its own reading. */
  lemma {:induction false} UniqueRowReading(data: map<string, real>, rows: seq<SingleRow>, regs: RegisterMap, battery: bool, i: nat)
    requires i < |rows| && rows[i].Named? && rows[i].name !in data
    requires NotNamedIn(rows[..i], rows[i].name) && NotNamedIn(rows[i + 1..], rows[i].name)
    ensures var r := ApplyRows(data, rows, regs, battery);
      && (rows[i].name in r <==> rows[i].address in regs)
      && (rows[i].address in regs ==> r[rows[i].name] == Reading(rows[i], regs[rows[i].address], battery))
  {
    var name := rows[i].name;
    if rows[i].address in regs {
      ApplyRowsLast(data, rows, regs, battery, i);
    } else {
      ApplyRowsKeys(data, rows, regs, battery);
    }
  }

  /** A sensor of the generic tables named by no other row of any table: present exactly when its
      register is, with the reading of its row. */
  lemma GenericReading(regs: RegisterMap, i: nat)
    requires i < |GENERIC_ROWS| && GENERIC_ROWS[i].Named?
    requires var name := GENERIC_ROWS[i].name;
      && NotNamedIn(GENERIC_ROWS[..i], name) && NotNamedIn(GENERIC_ROWS[i + 1..], name)
      && NotNamedIn(REGISTERS_BATTERY, name) && NotTotalIn(REGISTERS_ENERGY_TOTAL, name)
    ensures var row := GENERIC_ROWS[i];
      && (row.name in Numeric(regs) <==> row.address in regs)
      && (row.address in regs ==> Numeric(regs)[row.name] == Reading(row, regs[row.address], false))
  {
    var name := GENERIC_ROWS[i].name;
    var generic := ApplyRows(map[], GENERIC_ROWS, regs, false);
    UniqueRowReading(map[], GENERIC_ROWS, regs, false, i);
    ApplyRowsOther(generic, REGISTERS_BATTERY, regs, true, name);
    ApplyTotalsOther(ApplyRows(generic, REGISTERS_BATTERY, regs, true), REGISTERS_ENERGY_TOTAL, regs, name);
  }

  /** A sensor of the battery table named by no other row of any table: present exactly when its
      register is, with the reading of its row. */
  lemma BatteryReading(regs: RegisterMap, i: nat)
    requires i < |REGISTERS_BATTERY| && REGISTERS_BATTERY[i].Named?
    requires var name := REGISTERS_BATTERY[i].name;
      && NotNamedIn(GENERIC_ROWS, name)
      && NotNamedIn(REGISTERS_BATTERY[..i], name) && NotNamedIn(REGISTERS_BATTERY[i + 1..], name)
      && NotTotalIn(REGISTERS_ENERGY_TOTAL, name)
    ensures var row := REGISTERS_BATTERY[i];
      && (row.name in Numeric(regs) <==> row.address in regs)
      && (row.address in regs ==> Numeric(regs)[row.name] == Reading(row, regs[row.address], true))
  {
    var name := REGISTERS_BATTERY[i].name;
    ApplyRowsOther(map[], GENERIC_ROWS, regs, false, name);
    var generic := ApplyRows(map[], GENERIC_ROWS, regs, false);
    UniqueRowReading(generic, REGISTERS_BATTERY, regs, true, i);
    ApplyTotalsOther(ApplyRows(generic, REGISTERS_BATTERY, regs, true), REGISTERS_ENERGY_TOTAL, regs, name);
  }

  /** The battery temperature is read exactly when register 182 is, as (raw - 1000) tenths of a
      degree: 1250 gives 25.0. */
  lemma BatteryTemperatureUnique()
    ensures REGISTERS_BATTERY[5] == Named(182, BATTERY_TEMPERATURE, 0.1, 1, false)
    ensures NotNamedIn(GENERIC_ROWS, BATTERY_TEMPERATURE)
    ensures NotNamedIn(REGISTERS_BATTERY[..5], BATTERY_TEMPERATURE)
    ensures NotNamedIn(REGISTERS_BATTERY[6..], BATTERY_TEMPERATURE)
    ensures NotTotalIn(REGISTERS_ENERGY_TOTAL, BATTERY_TEMPERATURE)
  {
  }

  lemma BatteryTemperatureReading(regs: RegisterMap, cal: Calibration)
    requires cal.ratedCycles > 0
    ensures BATTERY_TEMPERATURE in ParseSpec(regs, cal) <==> 182 in regs
    ensures 182 in regs ==> ParseSpec(regs, cal)[BATTERY_TEMPERATURE] == Num((regs[182] as int - 1000) as real * 0.1)
    ensures 182 in regs && regs[182] == 1250 ==> ParseSpec(regs, cal)[BATTERY_TEMPERATURE] == Num(25.0)
  {
    BatteryTemperatureUnique();
    BatteryReading(regs, 5);
    var nums := Numeric(regs);
    FinishKeys(nums, cal);
    if 182 in regs {
      FinishKeeps(nums, cal, BATTERY_TEMPERATURE);
    }
  }

  /** A 32-bit row that no other row of the loop names is stored exactly when both its registers
      are present, and then holds its combined reading. */
  lemma {:induction false} UniqueTotalReading(data: map<string, real>, rows: seq<TotalRow>, regs: RegisterMap, i: nat)
    requires i < |rows| && rows[i].name !in data
    requires NotTotalIn(rows[..i], rows[i].name) && NotTotalIn(rows[i + 1..], rows[i].name)
    ensures var r := ApplyTotals(data, rows, regs);
      && (rows[i].name in r <==> rows[i].low in regs && rows[i].high in regs)
      && (rows[i].low in regs && rows[i].high in regs ==>
            r[rows[i].name] == Scale(Combine(regs[rows[i].high], regs[rows[i].low]) as real, rows[i].scale))
  {
    if rows[i].low in regs && rows[i].high in regs {
      ApplyTotalsLast(data, rows, regs, i);
    } else {
      ApplyTotalsKeys(data, rows, regs);
    }
  }

  /** A 32-bit sensor named by no other row of any table: present exactly when both its words
      are, with their combined reading. */
  lemma TotalReading(regs: RegisterMap, i: nat)
    requires i < |REGISTERS_ENERGY_TOTAL|
    requires var name := REGISTERS_ENERGY_TOTAL[i].name;
      && NotNamedIn(GENERIC_ROWS, name) && NotNamedIn(REGISTERS_BATTERY, name)
      && NotTotalIn(REGISTERS_ENERGY_TOTAL[..i], name) && NotTotalIn(REGISTERS_ENERGY_TOTAL[i + 1..], name)
    ensures var row := REGISTERS_ENERGY_TOTAL[i];
      && (row.name in Numeric(regs) <==> row.low in regs && row.high in regs)
      && (row.low in regs && row.high in regs ==>
            Numeric(regs)[row.name] == Scale(Combine(regs[row.high], regs[row.low]) as real, row.scale))
  {
    var name := REGISTERS_ENERGY_TOTAL[i].name;
    ApplyRowsOther(map[], GENERIC_ROWS, regs, false, name);
    var generic := ApplyRows(map[], GENERIC_ROWS, regs, false);
    ApplyRowsOther(generic, REGISTERS_BATTERY, regs, true, name);
    UniqueTotalReading(ApplyRows(generic, REGISTERS_BATTERY, regs, true), REGISTERS_ENERGY_TOTAL, regs, i);
  }

  /** A name no table row carries never has a numeric reading. */
  lemma NotRead(regs: RegisterMap, k: string)
    requires NotNamedIn(GENERIC_ROWS, k) && NotNamedIn(REGISTERS_BATTERY, k) && NotTotalIn(REGISTERS_ENERGY_TOTAL, k)
    ensures k !in Numeric(regs)
  {
    ApplyRowsOther(map[], GENERIC_ROWS, regs, false, k);
    var generic := ApplyRows(map[], GENERIC_ROWS, regs, false);
    ApplyRowsOther(generic, REGISTERS_BATTERY, regs, true, k);
    ApplyTotalsOther(ApplyRows(generic, REGISTERS_BATTERY, regs, true), REGISTERS_ENERGY_TOTAL, regs, k);
  }

  // Where the sensors `_parse` treats specially sit in the tables, and that no other row
  // carries their names.

  lemma RunningStateRow()
    ensures GENERIC_ROWS[26] == Named(59, RUNNING_STATE, 1.0, 0, false)
    ensures NotNamedIn(GENERIC_ROWS[..26], RUNNING_STATE) && NotNamedIn(GENERIC_ROWS[27..], RUNNING_STATE)
    ensures NotNamedIn(REGISTERS_BATTERY, RUNNING_STATE) && NotTotalIn(REGISTERS_ENERGY_TOTAL, RUNNING_STATE)
  {
  }

  lemma GridStatusRow()
    ensures GENERIC_ROWS[27] == Named(194, GRID_CONNECTED_STATUS, 1.0, 0, false)
    ensures NotNamedIn(GENERIC_ROWS[..27], GRID_CONNECTED_STATUS) && NotNamedIn(GENERIC_ROWS[28..], GRID_CONNECTED_STATUS)
    ensures NotNamedIn(REGISTERS_BATTERY, GRID_CONNECTED_STATUS) && NotTotalIn(REGISTERS_ENERGY_TOTAL, GRID_CONNECTED_STATUS)
  {
  }

  lemma DailyPvRow()
    ensures GENERIC_ROWS[20] == Named(108, DAILY_PV_ENERGY, 0.1, 1, false)
    ensures NotNamedIn(GENERIC_ROWS[..20], DAILY_PV_ENERGY) && NotNamedIn(GENERIC_ROWS[21..], DAILY_PV_ENERGY)
    ensures NotNamedIn(REGISTERS_BATTERY, DAILY_PV_ENERGY) && NotTotalIn(REGISTERS_ENERGY_TOTAL, DAILY_PV_ENERGY)
  {
  }

  lemma TotalPvRow()
    ensures REGISTERS_ENERGY_TOTAL[0] == TotalRow(96, 97, TOTAL_PV_ENERGY, 0.1, 1)
    ensures NotNamedIn(GENERIC_ROWS, TOTAL_PV_ENERGY) && NotNamedIn(REGISTERS_BATTERY, TOTAL_PV_ENERGY)
    ensures NotTotalIn(REGISTERS_ENERGY_TOTAL[..0], TOTAL_PV_ENERGY) && NotTotalIn(REGISTERS_ENERGY_TOTAL[1..], TOTAL_PV_ENERGY)
  {
  }

  lemma TotalDischargeRow()
    ensures REGISTERS_ENERGY_TOTAL[2] == TotalRow(74, 75, TOTAL_BATTERY_DISCHARGE, 0.1, 1)
    ensures NotNamedIn(GENERIC_ROWS, TOTAL_BATTERY_DISCHARGE) && NotNamedIn(REGISTERS_BATTERY, TOTAL_BATTERY_DISCHARGE)
    ensures NotTotalIn(REGISTERS_ENERGY_TOTAL[..2], TOTAL_BATTERY_DISCHARGE)
    ensures NotTotalIn(REGISTERS_ENERGY_TOTAL[3..], TOTAL_BATTERY_DISCHARGE)
  {
  }

  /** The derived sensors are no register's name. */
  lemma Co2NamesNotRows()
    ensures NotNamedIn(GENERIC_ROWS, DAILY_CO2_SAVED) && NotNamedIn(REGISTERS_BATTERY, DAILY_CO2_SAVED)
    ensures NotTotalIn(REGISTERS_ENERGY_TOTAL, DAILY_CO2_SAVED)
    ensures NotNamedIn(GENERIC_ROWS, TOTAL_CO2_SAVED) && NotNamedIn(REGISTERS_BATTERY, TOTAL_CO2_SAVED)
    ensures NotTotalIn(REGISTERS_ENERGY_TOTAL, TOTAL_CO2_SAVED)
  {
  }

  lemma CycleNamesNotRows()
    ensures NotNamedIn(GENERIC_ROWS, BATTERY_CYCLES) && NotNamedIn(REGISTERS_BATTERY, BATTERY_CYCLES)
    ensures NotTotalIn(REGISTERS_ENERGY_TOTAL, BATTERY_CYCLES)
    ensures NotNamedIn(GENERIC_ROWS, BATTERY_HEALTH) && NotNamedIn(REGISTERS_BATTERY, BATTERY_HEALTH)
    ensures NotTotalIn(REGISTERS_ENERGY_TOTAL, BATTERY_HEALTH)
  {
  }

  // ---------------------------------------------------------------------------
  // The sensors `_parse` treats specially, register by register
  // ---------------------------------------------------------------------------

  /** The running state is reported exactly when register 59 was read, as the name of its
      code, or `"Unknown (<code>)"` for a code without one (`RunningStateCodes`: outside 0..4). */
  lemma RunningStateReading(regs: RegisterMap, cal: Calibration)
    requires cal.ratedCycles > 0
    ensures RUNNING_STATE in ParseSpec(regs, cal) <==> 59 in regs
    ensures 59 in regs && regs[59] as int in RUNNING_STATES ==>
      ParseSpec(regs, cal)[RUNNING_STATE] == Text(RUNNING_STATES[regs[59] as int])
    ensures 59 in regs && regs[59] as int !in RUNNING_STATES ==>
      ParseSpec(regs, cal)[RUNNING_STATE] == Text("Unknown (" + IntString(regs[59] as int) + ")")
  {
    RunningStateRow();
    GenericReading(regs, 26);
    var nums := Numeric(regs);
    FinishKeys(nums, cal);
    if 59 in regs {
      TruncOfInt(regs[59] as int);
      FinishDerived(nums, cal);
    }
  }

  /** The grid flag is reported exactly when register 194 was read: "Connected" when it holds
      1, "Disconnected" otherwise. */
  lemma GridStatusReading(regs: RegisterMap, cal: Calibration)
    requires cal.ratedCycles > 0
    ensures GRID_CONNECTED_STATUS in ParseSpec(regs, cal) <==> 194 in regs
    ensures 194 in regs ==>
      (ParseSpec(regs, cal)[GRID_CONNECTED_STATUS] == Text("Connected") <==> regs[194] == 1)
    ensures 194 in regs && regs[194] != 1 ==> ParseSpec(regs, cal)[GRID_CONNECTED_STATUS] == Text("Disconnected")
  {
    GridStatusRow();
    GenericReading(regs, 27);
    var nums := Numeric(regs);
    FinishKeys(nums, cal);
    if 194 in regs {
      TruncOfInt(regs[194] as int);
      FinishDerived(nums, cal);
    }
  }

  /** The CO2 savings are reported exactly when the matching PV energy was read, as that energy
      times the emission factor. */
  lemma Co2FromPv(nums: map<string, real>, cal: Calibration)
    requires cal.ratedCycles > 0
    requires DAILY_CO2_SAVED !in nums && TOTAL_CO2_SAVED !in nums
    ensures DAILY_CO2_SAVED in Finish(nums, cal) <==> DAILY_PV_ENERGY in nums
    ensures DAILY_PV_ENERGY in nums ==> Finish(nums, cal)[DAILY_CO2_SAVED] == Num(Scale(nums[DAILY_PV_ENERGY], cal.co2Factor))
    ensures TOTAL_CO2_SAVED in Finish(nums, cal) <==> TOTAL_PV_ENERGY in nums
    ensures TOTAL_PV_ENERGY in nums ==> Finish(nums, cal)[TOTAL_CO2_SAVED] == Num(Scale(nums[TOTAL_PV_ENERGY], cal.co2Factor))
  {
    FinishKeys(nums, cal);
    FinishDerived(nums, cal);
  }

  /** The daily CO2 saving is reported exactly when register 108 (daily PV energy, in tenths
      of a kWh) was read, as that energy times the emission factor. */
  lemma DailyCo2Reading(regs: RegisterMap, cal: Calibration)
    requires cal.ratedCycles > 0
    ensures DAILY_CO2_SAVED in ParseSpec(regs, cal) <==> 108 in regs
    ensures 108 in regs ==>
      ParseSpec(regs, cal)[DAILY_CO2_SAVED] == Num(Scale(Scale(regs[108] as real, 0.1), cal.co2Factor))
  {
    DailyPvRow();
    GenericReading(regs, 20);
    Co2NamesNotRows();
    NotRead(regs, DAILY_CO2_SAVED);
    NotRead(regs, TOTAL_CO2_SAVED);
    Co2FromPv(Numeric(regs), cal);
  }

  /** The total PV energy is read exactly when registers 96 and 97 (low and high word) both are,
      in tenths of a kWh. */
  lemma TotalPvReading(regs: RegisterMap)
    ensures TOTAL_PV_ENERGY in Numeric(regs) <==> 96 in regs && 97 in regs
    ensures 96 in regs && 97 in regs ==>
      Numeric(regs)[TOTAL_PV_ENERGY] == Scale(Combine(regs[97], regs[96]) as real, 0.1)
  {
    TotalPvRow();
    TotalReading(regs, 0);
  }

  /** The total CO2 saving is reported exactly when registers 96 and 97 (total PV energy, low
      and high word) were both read, as that energy times the emission factor. */
  lemma TotalCo2Reading(regs: RegisterMap, cal: Calibration)
    requires cal.ratedCycles > 0
    ensures TOTAL_CO2_SAVED in ParseSpec(regs, cal) <==> 96 in regs && 97 in regs
    ensures 96 in regs && 97 in regs ==>
      ParseSpec(regs, cal)[TOTAL_CO2_SAVED] == Num(Scale(Scale(Combine(regs[97], regs[96]) as real, 0.1), cal.co2Factor))
  {
    TotalPvReading(regs);
    Co2NamesNotRows();
    NotRead(regs, DAILY_CO2_SAVED);
    NotRead(regs, TOTAL_CO2_SAVED);
    Co2FromPv(Numeric(regs), cal);
  }

  /** Battery cycles and health are reported exactly when registers 74 and 75 (total battery
      discharge, low and high word) were both read and the capacity is positive; the cycles are
      that energy over the capacity. */
  lemma BatteryCyclesReading(regs: RegisterMap, cal: Calibration)
    requires cal.ratedCycles > 0
    ensures BATTERY_CYCLES in ParseSpec(regs, cal) <==> 74 in regs && 75 in regs && cal.batteryCapacity > 0.0
    ensures BATTERY_HEALTH in ParseSpec(regs, cal) <==> 74 in regs && 75 in regs && cal.batteryCapacity > 0.0
    ensures 74 in regs && 75 in regs && cal.batteryCapacity > 0.0 ==>
      ParseSpec(regs, cal)[BATTERY_CYCLES] == Num(Scale(Combine(regs[75], regs[74]) as real, 0.1) / cal.batteryCapacity)
  {
    TotalDischargeRow();
    TotalReading(regs, 2);
    CycleNamesNotRows();
    NotRead(regs, BATTERY_CYCLES);
    NotRead(regs, BATTERY_HEALTH);
    var nums := Numeric(regs);
    FinishKeys(nums, cal);
    if 74 in regs && 75 in regs && cal.batteryCapacity > 0.0 {
      FinishDerived(nums, cal);
    }
  }
}
