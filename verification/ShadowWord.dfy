/**
 A race record as one 64-bit word, with a read and a write, each
 a thread id and a clock.
 */
module ShadowWord {
  import opened Arithmetic

  const MAX_THREAD_ID: nat := 254
  const MAX_VECTOR: nat := 0x7ffffe

  const THREADS: nat := 0x100
  const CLOCKS: nat := 0x80_0000

  /** ENCODEOP, with its shifts as multiplications; its fields do not overlap. */
  function EncodeOp(rdThread: nat, rdTime: nat, wrThread: nat, wrTime: nat): nat {
    1 + 2 * rdThread + 0x200 * rdTime + 0x1_0000_0000 * wrThread + 0x100_0000_0000 * wrTime
  }

  function RdThreadId(x: nat): nat { x / 2 % THREADS }

  function ReadVector(x: nat): nat { x / 0x200 % CLOCKS }

  function WrThreadId(x: nat): nat { x / 0x1_0000_0000 % THREADS }

  function WriteVector(x: nat): nat { x / 0x100_0000_0000 % CLOCKS }

  predicate IsShortRecord(x: nat) { x % 2 == 1 }

  /** Every field survives, the word fits in 64 bits and is not taken for a pointer. */
  lemma RoundTrip(rdThread: nat, rdTime: nat, wrThread: nat, wrTime: nat)
    requires rdThread < THREADS && rdTime < CLOCKS && wrThread < THREADS && wrTime < CLOCKS
    ensures var x := EncodeOp(rdThread, rdTime, wrThread, wrTime);
            && RdThreadId(x) == rdThread && ReadVector(x) == rdTime
            && WrThreadId(x) == wrThread && WriteVector(x) == wrTime
            && IsShortRecord(x) && x < 0x1_0000_0000_0000_0000
  {
    var x := EncodeOp(rdThread, rdTime, wrThread, wrTime);
    Field(x, 2, THREADS, 1, rdThread, rdTime + 0x80_0000 * wrThread + 0x8000_0000 * wrTime);
    Field(x, 0x200, CLOCKS, 1 + 2 * rdThread, rdTime, wrThread + 0x100 * wrTime);
    Field(x, 0x1_0000_0000, THREADS, 1 + 2 * rdThread + 0x200 * rdTime, wrThread, wrTime);
    Field(x, 0x100_0000_0000, CLOCKS, 1 + 2 * rdThread + 0x200 * rdTime + 0x1_0000_0000 * wrThread, wrTime, 0);
  }

  lemma Field(x: nat, unit: nat, size: nat, low: nat, field: nat, high: nat)
    requires 0 < unit && low < unit && field < size && x == low + unit * (field + size * high)
    ensures x / unit % size == field
  {
    Quotient(x, unit, field + size * high, low);
    Quotient(field + size * high, size, high, field);
  }

  /** On fields in range, the sum is what the bit operations of the macros compute. */
  lemma SumIsBitwiseOr(rdThread: bv64, rdTime: bv64, wrThread: bv64, wrTime: bv64)
    requires rdThread < 0x100 && rdTime < 0x80_0000 && wrThread < 0x100 && wrTime < 0x80_0000
    ensures var x := 1 | (rdThread << 1) | (rdTime << 9) | (wrThread << 32) | (wrTime << 40);
            && x == 1 + 2 * rdThread + 0x200 * rdTime + 0x1_0000_0000 * wrThread + 0x100_0000_0000 * wrTime
            && (x >> 1) & 0xff == rdThread && (x >> 9) & 0x7f_ffff == rdTime
            && (x >> 32) & 0xff == wrThread && (x >> 40) & 0x7f_ffff == wrTime && x & 1 == 1
  {
  }
}
