/**
 * The static register tables of the integration (const.py): which input
 * register carries which sensor, how it is scaled, which pairs form 32-bit
 * totals, the running-state names and the read plan of the poller.
 *
 * The unit, device-class and state-class columns of the tables only feed the
 * host's entity model and are not part of this model.
 */
module Registers {
  import opened Common

  /** One row of a single-register table: `(register, name, ..., scale, precision, signed)`.
      `Placeholder` is the row whose name and every other column is `None`. */
  datatype SingleRow =
    | Named(address: nat, name: string, scale: real, precision: nat, signed: bool)
    | Placeholder(address: nat)

  /** One row of the 32-bit table: `(low_register, high_register, name, ..., scale, precision)`. */
  datatype TotalRow = TotalRow(low: nat, high: nat, name: string, scale: real, precision: nat)

  const REGISTERS_PV: seq<SingleRow> := [
    Named(109, "PV1 Voltage", 0.1, 1, false),
    Named(110, "PV1 Current", 0.1, 1, false),
    Named(186, "PV1 Power", 1.0, 0, false),
    Named(111, "PV2 Voltage", 0.1, 1, false),
    Named(112, "PV2 Current", 0.1, 1, false),
    Named(187, "PV2 Power", 1.0, 0, false)
  ]

  const REGISTERS_BATTERY: seq<SingleRow> := [
    Named(184, "Battery SOC", 1.0, 0, false),
    Named(183, "Battery Voltage", 0.01, 2, false),
    Placeholder(184),
    Named(190, "Battery Current", 0.01, 2, true),
    Named(191, "Battery Power", 1.0, 0, true),
    Named(182, "Battery Temperature", 0.1, 1, false)
  ]

  const REGISTERS_GRID: seq<SingleRow> := [
    Named(150, "Grid Voltage", 0.1, 1, false),
    Named(160, "Grid Current", 0.01, 2, true),
    Named(169, "Grid Power", 1.0, 0, true),
    Named(79, "Grid Frequency", 0.01, 2, false),
    Named(172, "Grid CT Power", 1.0, 0, true)
  ]

  const REGISTERS_LOAD: seq<SingleRow> := [
    Named(178, "Load Power", 1.0, 0, false),
    Named(192, "Load Frequency", 0.01, 2, false)
  ]

  const REGISTERS_INVERTER: seq<SingleRow> := [
    Named(175, "Inverter Power", 1.0, 0, true),
    Named(154, "Inverter Voltage", 0.1, 1, false),
    Named(164, "Inverter Current", 0.01, 2, false),
    Named(193, "Inverter Frequency", 0.01, 2, false)
  ]

  const REGISTERS_TEMPERATURE: seq<SingleRow> := [
    Named(90, "DC Transformer Temperature", 0.1, 1, true),
    Named(91, "Radiator Temperature", 0.1, 1, true),
    Named(95, "Ambient Temperature", 0.1, 1, true)
  ]

  const REGISTERS_ENERGY_DAILY: seq<SingleRow> := [
    Named(108, "Daily PV Energy", 0.1, 1, false),
    Named(70, "Daily Battery Charge Energy", 0.1, 1, false),
    Named(71, "Daily Battery Discharge Energy", 0.1, 1, false),
    Named(76, "Daily Grid Import Energy", 0.1, 1, false),
    Named(77, "Daily Grid Export Energy", 0.1, 1, false),
    Named(84, "Daily Load Energy", 0.1, 1, false)
  ]

  const REGISTERS_ENERGY_TOTAL: seq<TotalRow> := [
    TotalRow(96, 97, "Total PV Energy", 0.1, 1),
    TotalRow(72, 73, "Total Battery Charge Energy", 0.1, 1),
    TotalRow(74, 75, "Total Battery Discharge Energy", 0.1, 1),
    TotalRow(78, 79, "Total Grid Import Energy", 0.1, 1),
    TotalRow(81, 82, "Total Grid Export Energy", 0.1, 1),
    TotalRow(85, 86, "Total Load Energy", 0.1, 1)
  ]

  const REGISTERS_STATUS: seq<SingleRow> := [
    Named(59, "Running State", 1.0, 0, false),
    Named(194, "Grid Connected Status", 1.0, 0, false),
    Named(60, "Daily Active Energy", 0.1, 1, false)
  ]

  const RUNNING_STATES: map<int, string> := map[
    0 := "Standby",
    1 := "Self-check",
    2 := "Normal",
    3 := "Alarm",
    4 := "Fault"
  ]

  /** The rows of `rows` whose name is not `None`, in order. */
  function NamedRows(rows: seq<SingleRow>): (r: seq<SingleRow>)
  {
    if rows == [] then []
    else NamedRows(rows[..|rows| - 1]) + (if rows[|rows| - 1].Named? then [rows[|rows| - 1]] else [])
  }

  /** Every single-register definition, the battery placeholder filtered out. */
  const ALL_SINGLE_REGISTERS: seq<SingleRow> :=
    REGISTERS_PV
    + NamedRows(REGISTERS_BATTERY)
    + REGISTERS_GRID
    + REGISTERS_LOAD
    + REGISTERS_INVERTER
    + REGISTERS_TEMPERATURE
    + REGISTERS_ENERGY_DAILY
    + REGISTERS_STATUS

  /** Contiguous blocks of input registers the poller fetches: `(start, count)`. */
  const READ_BLOCKS: seq<(nat, nat)> := [(59, 55), (150, 45)]

  /** Address `a` is fetched by the read block `b`. */
  predicate InBlock(a: nat, b: (nat, nat)) {
    b.0 <= a < b.0 + b.1
  }

  /** Address `a` is fetched by some block of the read plan. */
  predicate Fetched(a: nat) {
    exists b | b in READ_BLOCKS :: InBlock(a, b)
  }

  /** The read plan fetches 59..113 and 150..194 and nothing else, with no register twice. */
  lemma ReadBlocksCoverage()
    ensures |READ_BLOCKS| == 2
    ensures forall a: nat :: Fetched(a) <==> 59 <= a <= 113 || 150 <= a <= 194
    ensures forall a: nat :: !(InBlock(a, READ_BLOCKS[0]) && InBlock(a, READ_BLOCKS[1]))
  {
    forall a: nat | 59 <= a <= 113 || 150 <= a <= 194
      ensures Fetched(a)
    {
      if a <= 113 {
        assert InBlock(a, READ_BLOCKS[0]);
      } else {
        assert InBlock(a, READ_BLOCKS[1]);
      }
    }
  }

  /** The battery table without its placeholder. */
  lemma BatteryNamedRows()
    ensures NamedRows(REGISTERS_BATTERY) == [
      REGISTERS_BATTERY[0], REGISTERS_BATTERY[1], REGISTERS_BATTERY[3], REGISTERS_BATTERY[4], REGISTERS_BATTERY[5]
    ]
  {
    var b := REGISTERS_BATTERY;
    assert NamedRows(b[..1]) == [b[0]] by { assert b[..1][..0] == []; }
    assert NamedRows(b[..2]) == [b[0], b[1]] by { assert b[..2][..1] == b[..1]; }
    assert NamedRows(b[..3]) == [b[0], b[1]] by { assert b[..3][..2] == b[..2]; }
    assert NamedRows(b[..4]) == [b[0], b[1], b[3]] by { assert b[..4][..3] == b[..3]; }
    assert NamedRows(b[..5]) == [b[0], b[1], b[3], b[4]] by { assert b[..5][..4] == b[..4]; }
    assert b[..6][..5] == b[..5];
    assert b == b[..6];
  }

  /** Every named single register is fetched by the read plan. */
  lemma SingleRegistersAreRead()
    ensures forall x | x in ALL_SINGLE_REGISTERS :: x.Named? && (InBlock(x.address, READ_BLOCKS[0]) || InBlock(x.address, READ_BLOCKS[1]))
  {
    BatteryNamedRows();
    forall x | x in ALL_SINGLE_REGISTERS
      ensures x.Named? && (InBlock(x.address, READ_BLOCKS[0]) || InBlock(x.address, READ_BLOCKS[1]))
    {
      if x in REGISTERS_PV {
      } else if x in NamedRows(REGISTERS_BATTERY) {
      } else if x in REGISTERS_GRID {
      } else if x in REGISTERS_LOAD {
      } else if x in REGISTERS_INVERTER {
      } else if x in REGISTERS_TEMPERATURE {
      } else if x in REGISTERS_ENERGY_DAILY {
      } else {
        assert x in REGISTERS_STATUS;
      }
    }
  }

  /** Each 32-bit total is a low word followed by its high word, both in the first read block. */
  lemma TotalPairsInFirstBlock()
    ensures forall t | t in REGISTERS_ENERGY_TOTAL ::
      t.high == t.low + 1 && InBlock(t.low, READ_BLOCKS[0]) && InBlock(t.high, READ_BLOCKS[0])
  {
  }

  /** The only unnamed row is the battery placeholder at register 184, and the combined list drops it. */
  lemma PlaceholderOnlyInBattery()
    ensures forall x | x in ALL_SINGLE_REGISTERS :: x.Named?
    ensures forall x | x in REGISTERS_BATTERY && x.Placeholder? :: x.address == 184
    ensures forall x | x in REGISTERS_PV + REGISTERS_GRID + REGISTERS_LOAD + REGISTERS_INVERTER
                           + REGISTERS_TEMPERATURE + REGISTERS_ENERGY_DAILY + REGISTERS_STATUS :: x.Named?
    ensures |ALL_SINGLE_REGISTERS| == |REGISTERS_BATTERY| - 1 + |REGISTERS_PV| + |REGISTERS_GRID| + |REGISTERS_LOAD|
                                     + |REGISTERS_INVERTER| + |REGISTERS_TEMPERATURE| + |REGISTERS_ENERGY_DAILY|
                                     + |REGISTERS_STATUS|
  {
    BatteryNamedRows();
  }

  /** Running-state names exist for exactly the codes 0 to 4. */
  lemma RunningStateCodes()
    ensures forall c :: c in RUNNING_STATES <==> 0 <= c <= 4
  {
  }

  /** Register 79 is read twice over: as the grid frequency and as the high word of the total grid import. */
  lemma Register79Shared()
    ensures Named(79, "Grid Frequency", 0.01, 2, false) in REGISTERS_GRID
    ensures exists t | t in REGISTERS_ENERGY_TOTAL :: t.high == 79 && t.name == "Total Grid Import Energy"
  {
    assert REGISTERS_ENERGY_TOTAL[3].high == 79;
  }
}
