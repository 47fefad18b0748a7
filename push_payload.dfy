/**
 * Register values carried by a data-report frame of the push server (server.py):
 * `_extract_registers_from_payload` and its fallback `_try_raw_register_parse`.
 *
 * The payload of a data report starts with a 15-byte prefix (status, sensor
 * type, three time stamps), followed by the register-read response of
 * sections 6.3 (Read Holding Registers, 0x03) and 6.4 (Read Input Registers,
 * 0x04) of the Modbus Application Protocol Specification V1.1b3:
 *   slave id | function code | byte count | byte count bytes of big-endian words
 * No CRC is checked. The response does not say which register the words start
 * at, so the start is guessed from the number of words.
 */
module PushPayload {
  import opened Common

  /** status(1) + sensor type(2) + delivery, power-on and offset times(4 + 4 + 4) */
  const PREFIX_SIZE: nat := 15

  const READ_HOLDING_REGISTERS: byte := 0x03
  const READ_INPUT_REGISTERS: byte := 0x04

  /** Big-endian unsigned 16-bit word at `at`. */
  function BE16(s: seq<byte>, at: nat): u16
    requires at + 2 <= |s|
  {
    0x100 * s[at] as int + s[at + 1] as int
  }

  /** `struct.unpack(">{n}H", ...)` of the `2 * n` bytes at `at`: `n` big-endian words. */
  function Words(s: seq<byte>, at: nat, n: nat): (w: seq<u16>)
    requires at + 2 * n <= |s|
    ensures |w| == n
    decreases n
  {
    if n == 0 then [] else [BE16(s, at)] + Words(s, at + 2, n - 1)
  }

  /** The `i`-th word is the big-endian word at `at + 2 * i`. */
  lemma {:induction false} WordsAt(s: seq<byte>, at: nat, n: nat, i: nat)
    requires at + 2 * n <= |s| && i < n
    decreases n
    ensures Words(s, at, n)[i] == BE16(s, at + 2 * i)
  {
    if i > 0 {
      WordsAt(s, at + 2, n - 1, i - 1);
    }
  }

  /** Words read only the bytes they cover. */
  lemma {:induction false} WordsSameBytes(s: seq<byte>, t: seq<byte>, at: nat, n: nat)
    requires at + 2 * n <= |s| && at + 2 * n <= |t|
    requires s[at .. at + 2 * n] == t[at .. at + 2 * n]
    decreases n
    ensures Words(s, at, n) == Words(t, at, n)
  {
    if n > 0 {
      assert s[at] == s[at .. at + 2 * n][0] && s[at + 1] == s[at .. at + 2 * n][1];
      assert s[at + 2 .. at + 2 * n] == s[at .. at + 2 * n][2..];
      assert t[at + 2 .. at + 2 * n] == t[at .. at + 2 * n][2..];
      WordsSameBytes(s, t, at + 2, n - 1);
    }
  }

  /** The first register of a pushed block, guessed from its number of words: 59 for large
      (at least 90) and medium (50 to 89) blocks, 150 for 40 to 49 words, 59 for anything
      smaller. */
  function StartRegister(numRegs: nat): (start: nat)
    ensures start == 59 || start == 150
    ensures start == 150 <==> 40 <= numRegs < 50
  {
    if numRegs >= 90 then 59
    else if numRegs >= 50 then 59
    else if numRegs >= 40 then 150
    else 59
  }

  /** What `_try_raw_register_parse(data)` returns: nothing for fewer than 4 bytes, otherwise
      every whole big-endian word, at registers 0, 1, ... */
  function RawRegisters(data: seq<byte>): RegisterMap {
    if |data| < 4 then map[] else Block(0, Words(data, 0, |data| / 2))
  }

  /** The Modbus response inside a data-report payload, after the 15-byte prefix. */
  function ModbusPart(payload: seq<byte>): seq<byte>
    requires PREFIX_SIZE <= |payload|
  {
    payload[PREFIX_SIZE..]
  }

  /** What `_extract_registers_from_payload(payload)` returns. */
  function PayloadRegisters(payload: seq<byte>): RegisterMap {
    if |payload| < PREFIX_SIZE + 1 then map[]
    else
      var modbus := ModbusPart(payload);
      if |modbus| < 5 then map[]
      else if modbus[1] != READ_HOLDING_REGISTERS && modbus[1] != READ_INPUT_REGISTERS then
        RawRegisters(modbus)
      else
        var byteCount: nat := modbus[2];
        if |modbus| < 3 + byteCount then map[]
        else
          var numRegs := byteCount / 2;
          Block(StartRegister(numRegs), Words(modbus, 3, numRegs))
  }

  // ---------------------------------------------------------------------------
  // The methods
  // ---------------------------------------------------------------------------

  /** `for i, val in enumerate(values): regs[start + i] = val`, into an empty map. */
  method StoreBlock(start: nat, values: seq<u16>) returns (regs: RegisterMap)
    ensures regs == Block(start, values)
  {
    regs := map[];
    var i := 0;
    while i < |values|
      invariant i <= |values|
      invariant regs == Block(start, values[..i])
    {
      BlockSnoc(start, values[..i], values[i]);
      assert values[..i] + [values[i]] == values[..i + 1];
      regs := regs[start + i := values[i]];
      i := i + 1;
    }
    assert values[..i] == values;
  }

  /** `_try_raw_register_parse`. */
  method TryRawRegisterParse(data: seq<byte>) returns (regs: RegisterMap)
    ensures regs == RawRegisters(data)
  {
    if |data| < 4 {
      return map[];
    }
    var numRegs := |data| / 2;
    var values := Words(data, 0, numRegs);
    regs := StoreBlock(0, values);
  }

  /** `_extract_registers_from_payload`. */
  method ExtractRegistersFromPayload(payload: seq<byte>) returns (regs: RegisterMap)
    ensures regs == PayloadRegisters(payload)
  {
    if |payload| < 16 {
      return map[];
    }
    var modbus := payload[15..];
    if |modbus| < 5 {
      return map[];
    }
    var functionCode := modbus[1];
    var byteCount := modbus[2];
    if functionCode != READ_HOLDING_REGISTERS && functionCode != READ_INPUT_REGISTERS {
      regs := TryRawRegisterParse(modbus);
      return;
    }
    var dataBytes := modbus[3 .. if 3 + byteCount <= |modbus| then 3 + byteCount else |modbus|];
    if |dataBytes| < byteCount {
      return map[];
    }
    var numRegs := byteCount / 2;
    var values := Words(modbus, 3, numRegs);
    var startReg: nat;
    if numRegs >= 90 {
      startReg := 59;
    } else if numRegs >= 50 {
      startReg := 59;
    } else if numRegs >= 40 {
      startReg := 150;
    } else {
      startReg := 59;
    }
    regs := StoreBlock(startReg, values);
  }

  // ---------------------------------------------------------------------------
  // What a payload yields
  // ---------------------------------------------------------------------------

  /** A block holds exactly its registers, each with its word. */
  ghost predicate HoldsWords(m: RegisterMap, start: nat, s: seq<byte>, at: nat, n: nat)
    requires at + 2 * n <= |s|
  {
    && (forall k: nat :: k in m <==> start <= k < start + n)
    && (forall i | 0 <= i < n :: start + i in m && m[start + i] == BE16(s, at + 2 * i))
  }

  lemma BlockOfWords(start: nat, s: seq<byte>, at: nat, n: nat)
    requires at + 2 * n <= |s|
    ensures HoldsWords(Block(start, Words(s, at, n)), start, s, at, n)
  {
    forall i | 0 <= i < n
      ensures start + i in Block(start, Words(s, at, n))
      ensures Block(start, Words(s, at, n))[start + i] == BE16(s, at + 2 * i)
    {
      BlockAt(start, Words(s, at, n), i);
      WordsAt(s, at, n, i);
    }
  }

  /** The raw dump is empty below 4 bytes and otherwise holds registers `0 .. |data| / 2 - 1`,
      register `i` being the big-endian word at byte `2 * i`. */
  lemma RawRegistersShape(data: seq<byte>)
    ensures |data| < 4 ==> RawRegisters(data) == map[]
    ensures 4 <= |data| ==> HoldsWords(RawRegisters(data), 0, data, 0, |data| / 2)
  {
    if 4 <= |data| {
      BlockOfWords(0, data, 0, |data| / 2);
    }
  }

  /** The payload yields nothing when it is shorter than 16 bytes, when less than 5 bytes
      follow the prefix, or, for a register-read response, when fewer bytes than the byte
      count follow it. */
  lemma PayloadEmptyCases(payload: seq<byte>)
    ensures |payload| < 16 ==> PayloadRegisters(payload) == map[]
    ensures |payload| < PREFIX_SIZE + 5 ==> PayloadRegisters(payload) == map[]
    ensures PREFIX_SIZE + 5 <= |payload| ==>
      var m := ModbusPart(payload);
      (m[1] == READ_HOLDING_REGISTERS || m[1] == READ_INPUT_REGISTERS) && |m| < 3 + m[2] as int ==>
        PayloadRegisters(payload) == map[]
  {
  }

  /** A register-read response with all its data yields `byte_count / 2` consecutive registers
      holding the big-endian words, from register 150 when there are 40 to 49 words and from
      register 59 otherwise. */
  lemma PayloadReadResponse(payload: seq<byte>)
    requires PREFIX_SIZE + 5 <= |payload|
    requires var m := ModbusPart(payload);
      (m[1] == READ_HOLDING_REGISTERS || m[1] == READ_INPUT_REGISTERS) && 3 + m[2] as int <= |m|
    ensures var m := ModbusPart(payload);
      var n := m[2] / 2;
      && PayloadRegisters(payload) == Block(StartRegister(n), Words(m, 3, n))
      && (40 <= n < 50 ==> HoldsWords(PayloadRegisters(payload), 150, m, 3, n))
      && (!(40 <= n < 50) ==> HoldsWords(PayloadRegisters(payload), 59, m, 3, n))
  {
    var m := ModbusPart(payload);
    BlockOfWords(StartRegister(m[2] / 2), m, 3, m[2] / 2);
  }

  /** Any other function code makes the bytes after the prefix a raw dump from register 0. */
  lemma PayloadRawFallback(payload: seq<byte>)
    requires PREFIX_SIZE + 5 <= |payload|
    requires var m := ModbusPart(payload); m[1] != READ_HOLDING_REGISTERS && m[1] != READ_INPUT_REGISTERS
    ensures PayloadRegisters(payload) == RawRegisters(ModbusPart(payload))
    ensures HoldsWords(PayloadRegisters(payload), 0, ModbusPart(payload), 0, (|payload| - PREFIX_SIZE) / 2)
  {
    RawRegistersShape(ModbusPart(payload));
  }

  /** With an odd byte count the last data byte is not part of any word: changing it does not
      change the registers. */
  lemma OddTrailingByteIgnored(payload: seq<byte>, b: byte)
    requires PREFIX_SIZE + 5 <= |payload|
    requires var m := ModbusPart(payload);
      && (m[1] == READ_HOLDING_REGISTERS || m[1] == READ_INPUT_REGISTERS)
      && 3 + m[2] as int <= |m| && m[2] % 2 == 1
    ensures var k := PREFIX_SIZE + 3 + ModbusPart(payload)[2] - 1;
      PayloadRegisters(payload[k := b]) == PayloadRegisters(payload)
  {
    var m := ModbusPart(payload);
    var k := PREFIX_SIZE + 3 + m[2] - 1;
    var p := payload[k := b];
    var m' := ModbusPart(p);
    assert m' == m[k - PREFIX_SIZE := b];
    var n := m[2] / 2;
    assert m'[3 .. 3 + 2 * n] == m[3 .. 3 + 2 * n];
    WordsSameBytes(m', m, 3, n);
  }

  // ---------------------------------------------------------------------------
  // Building a payload
  // ---------------------------------------------------------------------------

  /** `struct.pack(">H", v)`. */
  function PackBE16(v: u16): (r: seq<byte>)
    ensures |r| == 2 && BE16(r, 0) == v
  {
    [v / 0x100, v % 0x100]
  }

  /** The words, big-endian, one after another. */
  function EncodeWords(values: seq<u16>): (r: seq<byte>)
    ensures |r| == 2 * |values|
  {
    if values == [] then [] else PackBE16(values[0]) + EncodeWords(values[1..])
  }

  /** Reading back encoded words, wherever they sit in a buffer, gives the words. */
  lemma {:induction false} WordsOfEncoding(pre: seq<byte>, values: seq<u16>)
    decreases |values|
    ensures Words(pre + EncodeWords(values), |pre|, |values|) == values
  {
    if values != [] {
      var head := PackBE16(values[0]);
      assert pre + EncodeWords(values) == (pre + head) + EncodeWords(values[1..]);
      WordsOfEncoding(pre + head, values[1..]);
      var x := pre + EncodeWords(values);
      assert x[|pre|] == head[0] && x[|pre| + 1] == head[1];
    }
  }

  /** A data-report payload carrying a register-read response: the 15-byte prefix, slave id,
      function code, byte count and the words. */
  function ReadResponsePayload(prefix: seq<byte>, slave: byte, functionCode: byte, values: seq<u16>): seq<byte>
    requires |prefix| == PREFIX_SIZE && 2 * |values| < 0x100
  {
    prefix + [slave, functionCode, 2 * |values|] + EncodeWords(values)
  }

  /** The fields of the response in such a payload, read back after the prefix. */
  lemma ReadResponseFields(prefix: seq<byte>, slave: byte, functionCode: byte, values: seq<u16>)
    requires |prefix| == PREFIX_SIZE && 2 * |values| < 0x100
    ensures var p := ReadResponsePayload(prefix, slave, functionCode, values);
      var m := ModbusPart(p);
      && |m| == 3 + 2 * |values| && m[1] == functionCode && m[2] == 2 * |values|
      && Words(m, 3, |values|) == values
  {
    var env: seq<byte> := [slave, functionCode, 2 * |values|];
    var m := env + EncodeWords(values);
    assert ReadResponsePayload(prefix, slave, functionCode, values) == prefix + m;
    assert (prefix + m)[PREFIX_SIZE..] == m;
    WordsOfEncoding(env, values);
  }

  /** A register-read response with 1 to 127 words comes back as those words from the start
      register guessed for their number. */
  lemma PayloadRoundTrip(prefix: seq<byte>, slave: byte, functionCode: byte, values: seq<u16>)
    requires |prefix| == PREFIX_SIZE && 1 <= |values| && 2 * |values| < 0x100
    requires functionCode == READ_HOLDING_REGISTERS || functionCode == READ_INPUT_REGISTERS
    ensures PayloadRegisters(ReadResponsePayload(prefix, slave, functionCode, values))
         == Block(StartRegister(|values|), values)
  {
    ReadResponseFields(prefix, slave, functionCode, values);
    var p := ReadResponsePayload(prefix, slave, functionCode, values);
    PayloadReadResponse(p);
    assert ModbusPart(p)[2] / 2 == |values|;
  }
}
