/**
 * One measurement run in T2 mode: decoding 32-bit FIFO words and turning the
 * 24-bit local times into global times by accumulating overflow markers.
 */
module Measurement {
  import opened Common

  /** One rollover of the hardware time counter (2^25 time units). */
  const OVERFLOW_PERIOD: nat := 33554432
  /** Bits 25 to 30: all set in an overflow marker. */
  const OVERFLOW_MASK: bv32 := 63 << 25
  /** The low 24 bits carry the time or the overflow count. */
  const TIME_MASK: bv32 := (1 << 24) - 1

  /** What one FIFO word means. `ExternalSync` exists but is never produced by the decoder. */
  datatype T2Value =
    | Time(time: bv32)
    | Overflow(count: bv32)
    | InternalSync(marker: u8)
    | ExternalSync(marker: u8)

  /**
   * Decodes one word. Bit 31 clear is a time; bit 31 set together with all of
   * bits 25-30 (that is, the top seven bits set) is an overflow marker; every
   * other special word is reported as `InternalSync(0)`.
   */
  function ConvertT2Value(v: bv32): (r: T2Value)
    ensures r.Time? <==> v < 0x8000_0000
    ensures r.Overflow? <==> v >= 0xFE00_0000
    ensures r.InternalSync? <==> 0x8000_0000 <= v < 0xFE00_0000
    ensures !r.ExternalSync?
    ensures r.Time? ==> r.time == v % 0x100_0000 && r.time < 0x100_0000
    ensures r.Overflow? ==> r.count == v % 0x100_0000 && r.count < 0x100_0000
    ensures r.InternalSync? ==> r.marker == 0
  {
    if v & (1 << 31) == 0 then Time(v & TIME_MASK)
    else if v & OVERFLOW_MASK == OVERFLOW_MASK then Overflow(v & ((1 << 24) - 1))
    else InternalSync(0)
  }

  /** The number of rollovers a word reports (zero unless it is an overflow marker). */
  function OverflowCount(v: bv32): nat
  {
    match ConvertT2Value(v)
    case Overflow(c) => c as int
    case _ => 0
  }

  /** Sum of the overflow counts of all words. */
  function OverflowSum(input: seq<bv32>): nat
  {
    if input == [] then 0
    else OverflowSum(input[..|input| - 1]) + OverflowCount(input[|input| - 1])
  }

  /** The overflow epoch after `input` has been read, starting from `start`. */
  function EpochAfter(input: seq<bv32>, start: nat): nat
  {
    start + OVERFLOW_PERIOD * OverflowSum(input)
  }

  /** Reading one more word advances the epoch by that word's count times the period. */
  lemma EpochAfterStep(input: seq<bv32>, start: nat, i: nat)
    requires i < |input|
    ensures EpochAfter(input[..i + 1], start) == EpochAfter(input[..i], start) + OverflowCount(input[i]) * OVERFLOW_PERIOD
    ensures TimesOf(input[..i + 1], start) == TimesOf(input[..i], start) + Emit(input[i], EpochAfter(input[..i], start))
  {
    assert input[..i + 1][..i] == input[..i];
  }

  /** Number of words with bit 31 clear. */
  function TimeWordCount(input: seq<bv32>): nat
  {
    if input == [] then 0
    else TimeWordCount(input[..|input| - 1]) + (if input[|input| - 1] < 0x8000_0000 then 1 else 0)
  }

  /**
   * The global times a measurement starting at epoch `start` emits for `input`:
   * each time word yields its payload plus the epoch reached by the words before it.
   */
  function TimesOf(input: seq<bv32>, start: nat): seq<nat>
  {
    if input == [] then []
    else
      var init := input[..|input| - 1];
      TimesOf(init, start) + Emit(input[|input| - 1], EpochAfter(init, start))
  }

  /** What one word emits when the epoch is `epoch`. */
  function Emit(v: bv32, epoch: nat): seq<nat>
  {
    match ConvertT2Value(v)
    case Time(t) => [t as int + epoch]
    case _ => []
  }

  /** Exactly one time is emitted per word with bit 31 clear. */
  lemma {:induction false} TimesOfLength(input: seq<bv32>, start: nat)
    ensures |TimesOf(input, start)| == TimeWordCount(input)
  {
    if input != [] {
      TimesOfLength(input[..|input| - 1], start);
    }
  }

  /** The times emitted for a prefix of the input are a prefix of the times emitted for the whole. */
  lemma {:induction false} TimesOfPrefix(input: seq<bv32>, start: nat, i: nat)
    requires i <= |input|
    ensures TimesOf(input[..i], start) <= TimesOf(input, start)
  {
    if i < |input| {
      var init := input[..|input| - 1];
      assert init[..i] == input[..i];
      TimesOfPrefix(init, start, i);
    } else {
      assert input[..i] == input;
    }
  }

  /**
   * The time word at position `j` produces the emitted time with index equal to
   * the number of time words before it, and that time is its 24-bit payload plus
   * the epoch accumulated from the words before it: times come out in input order.
   */
  lemma TimesOfAt(input: seq<bv32>, start: nat, j: nat)
    requires j < |input| && input[j] < 0x8000_0000
    ensures TimeWordCount(input[..j]) < |TimesOf(input, start)|
    ensures TimesOf(input, start)[TimeWordCount(input[..j])]
            == (input[j] % 0x100_0000) as int + EpochAfter(input[..j], start)
  {
    var pre := input[..j + 1];
    assert pre[..j] == input[..j];
    TimesOfPrefix(input, start, j + 1);
    TimesOfLength(input[..j], start);
  }

  /** Adding up overflow markers never lowers the epoch: it is non-decreasing along the input. */
  lemma {:induction false} EpochMonotone(input: seq<bv32>, start: nat, i: nat, j: nat)
    requires i <= j <= |input|
    ensures start <= EpochAfter(input[..i], start) <= EpochAfter(input[..j], start) <= EpochAfter(input, start)
  {
    if j < |input| {
      var init := input[..|input| - 1];
      assert init[..i] == input[..i] && init[..j] == input[..j];
      EpochMonotone(init, start, i, j);
    } else {
      assert input[..j] == input;
      if i < j {
        EpochMonotone(input[..j - 1], start, i, j - 1);
        assert input[..j - 1][..i] == input[..i];
        assert input[..j - 1][..j - 1] == input[..j - 1];
      }
    }
  }

  /** Every emitted time is at least the starting epoch. */
  lemma {:induction false} TimesAtLeastStart(input: seq<bv32>, start: nat)
    ensures forall k :: 0 <= k < |TimesOf(input, start)| ==> start <= TimesOf(input, start)[k]
  {
    if input != [] {
      TimesAtLeastStart(input[..|input| - 1], start);
    }
  }

  /** An input made only of overflow markers emits nothing and advances the epoch by their counts. */
  lemma {:induction false} OnlyOverflows(input: seq<bv32>, start: nat)
    requires forall k :: 0 <= k < |input| ==> input[k] >= 0xFE00_0000
    ensures TimesOf(input, start) == []
    ensures TimeWordCount(input) == 0
  {
    if input != [] {
      OnlyOverflows(input[..|input| - 1], start);
    }
  }

  /**
   * The epoch after `a + b` equals the epoch after `b` when started at the epoch
   * reached after `a`.
   */
  lemma {:induction false} EpochAfterAppend(a: seq<bv32>, b: seq<bv32>, start: nat)
    ensures EpochAfter(a + b, start) == EpochAfter(b, EpochAfter(a, start))
  {
    if b == [] {
      assert a + b == a;
    } else {
      var initB := b[..|b| - 1];
      assert (a + b)[..|a + b| - 1] == a + initB;
      assert (a + b)[|a + b| - 1] == b[|b| - 1];
      EpochAfterAppend(a, initB, start);
    }
  }

  /**
   * Decoding two bursts one after the other, the second starting at the epoch the
   * first reached, is the same as decoding their concatenation: a measurement
   * resumed with a previous run's epoch continues that run.
   */
  lemma {:induction false} TimesOfAppend(a: seq<bv32>, b: seq<bv32>, start: nat)
    ensures TimesOf(a + b, start) == TimesOf(a, start) + TimesOf(b, EpochAfter(a, start))
  {
    if b == [] {
      assert a + b == a;
    } else {
      var initB := b[..|b| - 1];
      var last := b[|b| - 1];
      assert (a + b)[..|a + b| - 1] == a + initB;
      assert (a + b)[|a + b| - 1] == last;
      TimesOfAppend(a, initB, start);
      EpochAfterAppend(a, initB, start);
      var tail := Emit(last, EpochAfter(initB, EpochAfter(a, start)));
      calc {
        TimesOf(a + b, start);
        TimesOf(a + initB, start) + tail;
        (TimesOf(a, start) + TimesOf(initB, EpochAfter(a, start))) + tail;
        TimesOf(a, start) + (TimesOf(initB, EpochAfter(a, start)) + tail);
        TimesOf(a, start) + TimesOf(b, EpochAfter(a, start));
      }
    }
  }

  /** An overflow marker with count 1 followed by the time 10 yields the single time 2^25 + 10. */
  lemma OverflowThenTime()
    ensures TimesOf([0xFE00_0001, 10], 0) == [33554432 + 10]
    ensures EpochAfter([0xFE00_0001, 10], 0) == OVERFLOW_PERIOD
  {
    var input: seq<bv32> := [0xFE00_0001, 10];
    assert input[..1] == [0xFE00_0001];
    assert input[..1][..0] == [];
    assert ConvertT2Value(0xFE00_0001) == Overflow(1);
    assert OverflowSum(input[..1]) == 1;
    assert ConvertT2Value(10) == Time(10);
    assert OverflowSum(input) == 1;
  }

  /** Keeps track of timing overflows across the words of one measurement run. */
  class Measurement {
    var timeOverflow: nat

    constructor (overflow: nat)
      ensures timeOverflow == overflow
    {
      timeOverflow := overflow;
    }

    /** Converts a burst of FIFO words into global times, advancing the overflow epoch. */
    method ConvertValuesT2(input: seq<bv32>) returns (times: seq<nat>)
      modifies this
      ensures times == TimesOf(input, old(timeOverflow))
      ensures timeOverflow == EpochAfter(input, old(timeOverflow))
    {
      times := [];
      for i := 0 to |input|
        invariant times == TimesOf(input[..i], old(timeOverflow))
        invariant timeOverflow == EpochAfter(input[..i], old(timeOverflow))
      {
        EpochAfterStep(input, old(timeOverflow), i);
        match ConvertT2Value(input[i])
        case Time(t) =>
          assert Emit(input[i], timeOverflow) == [t as int + timeOverflow] && OverflowCount(input[i]) == 0;
          times := times + [t as int + timeOverflow];
        case Overflow(t) =>
          assert Emit(input[i], timeOverflow) == [] && OverflowCount(input[i]) == t as int;
          timeOverflow := timeOverflow + (t as int) * OVERFLOW_PERIOD;
        case InternalSync(_) =>
          assert Emit(input[i], timeOverflow) == [] && OverflowCount(input[i]) == 0;
        case ExternalSync(_) =>
      }
      assert input[..|input|] == input;
    }
  }
}
