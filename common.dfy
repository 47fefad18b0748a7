/**
 * Shared vocabulary of the model: failure-carrying wrappers, the fixed-width
 * integer ranges the wire formats use, the register map that both data paths
 * produce, and the decimal rendering Python's `str(n)` / `f"{n}"` performs.
 */
module Common {

  datatype Option<+T> = None | Some(value: T)

  datatype Result<+T, +E> = Ok(value: T) | Err(error: E)

  type byte = x: int | 0 <= x < 0x100
  type u16 = x: int | 0 <= x < 0x1_0000
  type u32 = x: int | 0 <= x < 0x1_0000_0000

  /** Register address -> raw unsigned 16-bit value, as built by the poller and the push server. */
  type RegisterMap = map<nat, u16>

  /** The registers `start, start + 1, ...` holding `values` in order:
      what `for i, val in enumerate(values): regs[start + i] = val` produces
      from an empty map, one assignment per value. */
  function Block(start: nat, values: seq<u16>): (m: RegisterMap)
    ensures forall k: nat :: k in m <==> start <= k < start + |values|
  {
    if values == [] then map[]
    else Block(start, values[..|values| - 1])[start + |values| - 1 := values[|values| - 1]]
  }

  /** Register `start + i` of a block holds the block's `i`-th value. */
  lemma {:induction false} BlockAt(start: nat, values: seq<u16>, i: nat)
    requires i < |values|
    ensures start + i in Block(start, values) && Block(start, values)[start + i] == values[i]
  {
    if i < |values| - 1 {
      BlockAt(start, values[..|values| - 1], i);
    }
  }

  /** Appending one value to a block adds exactly one register after its end. */
  lemma BlockSnoc(start: nat, values: seq<u16>, v: u16)
    ensures Block(start, values + [v]) == Block(start, values)[start + |values| := v]
  {
    assert (values + [v])[..|values|] == values;
  }

  // ---------------------------------------------------------------------------
  // Decimal rendering
  // ---------------------------------------------------------------------------

  predicate IsDigit(c: char) {
    '0' <= c <= '9'
  }

  function DigitChar(d: nat): (c: char)
    requires d < 10
    ensures IsDigit(c) && c as int - '0' as int == d
  {
    (d + '0' as int) as char
  }

  /** Decimal digits of `n` without leading zeros: Python's `str(n)` for `n >= 0`. */
  function DecimalString(n: nat): (s: string)
    ensures 1 <= |s|
    ensures forall i | 0 <= i < |s| :: IsDigit(s[i])
    ensures |s| > 1 ==> s[0] != '0'
    ensures n < 10 <==> |s| == 1
  {
    if n < 10 then [DigitChar(n)] else DecimalString(n / 10) + [DigitChar(n % 10)]
  }

  /** The number a string of decimal digits denotes (most significant first). */
  function DigitsValue(s: string): nat
    requires forall i | 0 <= i < |s| :: IsDigit(s[i])
  {
    if s == [] then 0
    else
      assert IsDigit(s[|s| - 1]);
      DigitsValue(s[..|s| - 1]) * 10 + (s[|s| - 1] as int - '0' as int)
  }

  /** Reading the rendered digits back yields the number. */
  lemma {:induction false} DecimalStringValue(n: nat)
    ensures DigitsValue(DecimalString(n)) == n
  {
    if n >= 10 {
      var s := DecimalString(n);
      assert s[..|s| - 1] == DecimalString(n / 10);
      DecimalStringValue(n / 10);
    }
  }

  /** Python's `str(i)` for any integer: a minus sign exactly for negative numbers, then the
      digits of the magnitude without leading zeros, which read back to it. */
  function IntString(i: int): (s: string)
    ensures 1 <= |s| && (s[0] == '-' <==> i < 0)
    ensures i >= 0 ==> (forall k | 0 <= k < |s| :: IsDigit(s[k])) && DigitsValue(s) == i
    ensures i < 0 ==> 2 <= |s| && (forall k | 1 <= k < |s| :: IsDigit(s[k])) && DigitsValue(s[1..]) == -i
    ensures var first := if i < 0 then 1 else 0; |s| > first + 1 ==> s[first] != '0'
  {
    if i >= 0 then
      DecimalStringValue(i);
      DecimalString(i)
    else
      var digits := DecimalString(-i);
      DecimalStringValue(-i);
      assert ("-" + digits)[1..] == digits;
      "-" + digits
  }
}
