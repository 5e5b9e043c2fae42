/**
 * The packed layouts of OrderBase (OrderBase.swift): which bits of `flags`,
 * `index` and `timeSequence` hold which field, as value-level functions that
 * the OrderBase class's getters and setters are specified by, and the
 * properties of the layouts.
 *
 *   flags         bits 14..11 action, 10..4 exchange, 3..2 side, 1..0 scope
 *   index         special source:  63..48 source, 47..32 exchange, 31..0 index
 *                 generic source:  63..32 source, 31..0 index
 *   timeSequence  63..32 seconds, 31..22 milliseconds, 21..0 sequence
 */
module OrderLayout {
  import opened LongBits
  import opened BitUtil
  import opened EventSources
  import TimeUtil

  // ---------------------------------------------------------------------
  // flags

  const ActionMask: bv32 := 0x0f
  const ActionShift: bv32 := 11
  const ExchangeMask: bv32 := 0x7f
  const ExchangeShift: bv32 := 4
  const SideMask: bv32 := 3
  const SideShift: bv32 := 2
  const ScopeMask: bv32 := 3
  const ScopeShift: bv32 := 0

  /** The four sub-ranges of `flags`. */
  datatype FlagField = ActionField | ExchangeField | SideField | ScopeField
  {
    function Mask(): bv32
    {
      match this
      case ActionField => ActionMask
      case ExchangeField => ExchangeMask
      case SideField => SideMask
      case ScopeField => ScopeMask
    }

    function Shift(): (s: bv32)
      ensures s < 32
    {
      match this
      case ActionField => ActionShift
      case ExchangeField => ExchangeShift
      case SideField => SideShift
      case ScopeField => ScopeShift
    }

    /** The bits of `flags` this field occupies. */
    function Bits(): bv32
    {
      Mask() << Shift()
    }

    function Get(flags: bv32): (r: bv32)
      ensures r <= Mask()
    {
      GetBits(flags, Mask(), Shift())
    }

    function Set(flags: bv32, bits: bv32): bv32
    {
      SetBits(flags, Mask(), Shift(), bits)
    }
  }

  /** The four fields are pairwise disjoint and together fill bits 0..14. */
  lemma FlagFieldsLayout()
    ensures forall f: FlagField, g: FlagField :: f != g ==> f.Bits() & g.Bits() == 0
    ensures forall f: FlagField :: f.Bits() & !0x7fff == 0
    ensures ActionField.Bits() | ExchangeField.Bits() | SideField.Bits() | ScopeField.Bits() == 0x7fff
  {
  }

  /** Reading a field just written gives the written bits, cut to the field's mask. */
  lemma SetThenGet(f: FlagField, flags: bv32, bits: bv32)
    ensures f.Get(f.Set(flags, bits)) == bits & f.Mask()
  {
    match f
    case ActionField =>
    case ExchangeField =>
    case SideField =>
    case ScopeField =>
  }

  /** Writing a field leaves every other field as it was. */
  lemma SetKeepsOthers(f: FlagField, g: FlagField, flags: bv32, bits: bv32)
    requires f != g
    ensures g.Get(f.Set(flags, bits)) == g.Get(flags)
  {
    match f
    case ActionField =>
    case ExchangeField =>
    case SideField =>
    case ScopeField =>
  }

  // ---------------------------------------------------------------------
  // index

  /** MarketEventConst.maxSequence, 2^22 - 1: the sequence fills the low 22 bits. */
  const MaxSequence: int := 0x3f_ffff

  /**
   * The identifier the eventSource getter looks up: bits 63..48 when they
   * name a special source, else bits 63..32; either way it fits in 32 bits.
   */
  function SourceIdOf(index: Int64): (id: Int64)
    ensures IsSpecialSourceId(ShiftRight(index, 48)) ==> id == ShiftRight(index, 48)
    ensures !IsSpecialSourceId(ShiftRight(index, 48)) ==> id == ShiftRight(index, 32)
    ensures -0x8000_0000 <= id < 0x8000_0000
  {
    var sourceId := ShiftRight(index, 48);
    ShiftRight32Range(index);
    if IsSpecialSourceId(sourceId) then sourceId else ShiftRight(index, 32)
  }

  /**
   * The index after the eventSource setter stores identifier id: the
   * identifier shifted to bit 48 (special) or 32 (generic), or-ed with the low
   * 48 or 32 bits of the old index, as the old index's own source is special
   * or not.
   *
   * A special identifier reads back from bits 63..48 above the kept bits. A
   * generic one always keeps the low 32 bits. Stored over a generic source, a
   * generic identifier lands in bits 63..32 cut to its low 32 bits (the
   * 64-bit `<< 32` drops the rest), and the getter reads that value back
   * unless its bits 31..16 look like a special source.
   */
  function IndexWithSource(index: Int64, id: Int64): (r: Int64)
    ensures IsSpecialSourceId(id) ==>
      ShiftRight(r, 48) == id && SourceIdOf(r) == id &&
      LowBits(r, 48) == LowBits(index, if IsSpecialSourceId(ShiftRight(index, 48)) then 48 else 32)
    ensures !IsSpecialSourceId(id) ==> LowBits(r, 32) == LowBits(index, 32)
    ensures (!IsSpecialSourceId(id) && !IsSpecialSourceId(ShiftRight(index, 48))) ==>
      ShiftRight(r, 32) == Wrap32(id)
    ensures GenericOverGeneric(index, id) ==> SourceIdOf(r) == Wrap32(id)
    ensures (GenericOverGeneric(index, id) && -0x8000_0000 <= id < 0x8000_0000) ==> SourceIdOf(r) == id
  {
    var shift := if IsSpecialSourceId(id) then 48 else 32;
    var keep := if IsSpecialSourceId(ShiftRight(index, 48)) then 48 else 32;
    Pow2Values();
    var low := LowBits(index, keep);
    if IsSpecialSourceId(id) then
      SpecialSourceStored(id, low);
      Or(ShiftLeft(id, shift), low)
    else
      GenericSourceLowBits(id, low);
      LowBitsOfLowBits(index, keep);
      if keep == 32 then
        var w := Wrap32(id);
        ShiftLeft32Wraps(id);
        GenericSourceAtBit32(w, low);
        if GenericOverGeneric(index, id) then
          GenericSourceStored(w, low);
          Or(ShiftLeft(id, shift), low)
        else
          Or(ShiftLeft(id, shift), low)
      else
        Or(ShiftLeft(id, shift), low)
  }

  /** getSequence: `index & maxSequence`. */
  function SequenceOf(index: Int64): (s: nat)
    ensures s <= MaxSequence
  {
    Pow2Values();
    LowBits(index, 22)
  }

  /**
   * The index after setSequence, `(index & ~maxSequence) | sequence`: the
   * sequence reads back, and the bits of the index above it are unchanged.
   */
  function IndexWithSequence(index: Int64, sequence: int): (r: Int64)
    requires 0 <= sequence <= MaxSequence
    ensures SequenceOf(r) == sequence
    ensures ShiftRight(r, 22) == ShiftRight(index, 22)
  {
    Pow2Values();
    var c := ClearLowBits(index, 22);
    RoomBelowTop(c, sequence);
    OrDisjoint(c, sequence, 22);
    DivMod(c, TwoTo22);
    DivModUnique(c + sequence, TwoTo22, c / TwoTo22, sequence);
    Or(c, sequence)
  }

  /** A value with clear low 22 bits leaves room for a sequence below the top. */
  lemma RoomBelowTop(c: Int64, s: int)
    requires c % TwoTo22 == 0 && 0 <= s <= MaxSequence
    ensures c + s < TwoTo63
  {
    DivMod(c, TwoTo22);
  }

  /** A special identifier at shift 48 over low bits below bit 48: both read back. */
  lemma SpecialSourceStored(id: Int64, low: int)
    requires IsSpecialSourceId(id) && 0 <= low < TwoTo48
    ensures var r := Or(ShiftLeft(id, 48), low);
      ShiftRight(r, 48) == id && SourceIdOf(r) == id && LowBits(r, 48) == low
  {
    Pow2Values();
    var a := ShiftLeft(id, 48);
    assert a == id * TwoTo48;
    DivModUnique(a, TwoTo48, id, 0);
    OrDisjoint(a, low, 48);
    DivModUnique(a + low, TwoTo48, id, low);
  }

  /**
   * A generic identifier stored over a generic source, whose low 32 bits,
   * read as a signed value, do not look like a special source in bits 31..16
   * (a negative value never does).
   */
  predicate GenericOverGeneric(index: Int64, id: Int64)
  {
    !IsSpecialSourceId(id) && !IsSpecialSourceId(ShiftRight(index, 48)) &&
    !IsSpecialSourceId(Wrap32(id) / 0x1_0000)
  }

  /** An identifier of 32 signed bits at shift 32, over low bits below bit 32, fills bits 63..32. */
  lemma GenericSourceAtBit32(id: Int64, low: int)
    requires -0x8000_0000 <= id < 0x8000_0000 && 0 <= low < TwoTo32
    ensures var r := Or(ShiftLeft(id, 32), low);
      r == id * TwoTo32 + low && ShiftRight(r, 32) == id
  {
    Pow2Values();
    var a := ShiftLeft(id, 32);
    assert a == id * TwoTo32;
    DivModUnique(a, TwoTo32, id, 0);
    OrDisjoint(a, low, 32);
    DivModUnique(a + low, TwoTo32, id, low);
  }

  /**
   * An identifier of 32 signed bits whose bits 31..16 are not special, at
   * shift 32 over low bits below bit 32, is what the getter reads back.
   */
  lemma GenericSourceStored(id: Int64, low: int)
    requires -0x8000_0000 <= id < 0x8000_0000 && !IsSpecialSourceId(id / 0x1_0000)
    requires 0 <= low < TwoTo32
    ensures SourceIdOf(Or(ShiftLeft(id, 32), low)) == id
  {
    Pow2Values();
    GenericSourceAtBit32(id, low);
    var r := id * TwoTo32 + low;
    DivMod(id, TwoTo16);
    DivModUnique(r, TwoTo48, id / TwoTo16, (id % TwoTo16) * TwoTo32 + low);
  }

  /** Or-ing an identifier in at shift 32 leaves the low 32 bits as they were. */
  lemma GenericSourceLowBits(id: Int64, low: Int64)
    ensures LowBits(Or(ShiftLeft(id, 32), low), 32) == LowBits(low, 32)
  {
    ShiftLeftLowBits(id, 32);
    OrLowBits(ShiftLeft(id, 32), low, 32);
  }

  /** The low 32 bits of the low 48 (or 32) bits are the low 32 bits. */
  lemma LowBitsOfLowBits(index: Int64, keep: nat)
    requires keep == 48 || keep == 32
    ensures LowBits(LowBits(index, keep), 32) == LowBits(index, 32)
  {
    Pow2Values();
    var low := LowBits(index, keep);
    if keep == 48 {
      DivMod(index, TwoTo48);
      DivMod(low, TwoTo32);
      DivModUnique(index, TwoTo32, (index / TwoTo48) * TwoTo16 + low / TwoTo32, low % TwoTo32);
    } else {
      DivModUnique(low, TwoTo32, 0, low);
    }
  }

  // ---------------------------------------------------------------------
  // timeSequence

  lemma ShiftRight32Range(x: Int64)
    ensures -0x8000_0000 <= ShiftRight(x, 32) < 0x8000_0000
  {
    Pow2Values();
    DivMod(x, TwoTo32);
  }

  /**
   * The `time` getter: seconds from bits 63..32, milliseconds from bits
   * 31..22. When the millisecond field is below 1000 the time splits back
   * into exactly those seconds and milliseconds.
   */
  function TimeOf(timeSequence: Int64): (t: Int64)
    ensures -0x8000_0000 * 1000 <= t < 0x8000_0000 * 1000 + 1000
    ensures LowBits(ShiftRight(timeSequence, 22), 10) < 1000 ==>
      TimeUtil.SecondsFromTime(t) == ShiftRight(timeSequence, 32) &&
      TimeUtil.MillisFromTime(t) == LowBits(ShiftRight(timeSequence, 22), 10)
  {
    Pow2Values();
    ShiftRight32Range(timeSequence);
    var seconds := ShiftRight(timeSequence, 32);
    var millis := LowBits(ShiftRight(timeSequence, 22), 10);
    if millis < 1000 then
      DivModUnique(seconds * 1000 + millis, 1000, seconds, millis);
      seconds * 1000 + millis
    else
      seconds * 1000 + millis
  }

  /**
   * The `time` setter's new timeSequence: seconds shifted to bit 32 (Swift's
   * `<<` on Int drops what passes bit 63), milliseconds at bit 22, and the
   * sequence in the low 22 bits. Whatever the time, the sequence reads back;
   * the time reads back when its seconds fit in 32 bits.
   */
  function TimeSequenceWithTime(time: Int64, sequence: int): (r: Int64)
    requires 0 <= sequence <= MaxSequence
    ensures SequenceOf(r) == sequence
    ensures -0x8000_0000 <= TimeUtil.SecondsFromTime(time) < 0x8000_0000 ==> TimeOf(r) == time
  {
    Pow2Values();
    var seconds := TimeUtil.SecondsFromTime(time);
    var millis := TimeUtil.MillisFromTime(time);
    TimeKeepsSequence(seconds, millis, sequence);
    TimeRoundTrip(seconds, millis, sequence);
    Or(Or(ShiftLeft(seconds, 32), ShiftLeft(millis, 22)), sequence)
  }

  /** Whatever the seconds, the low 22 bits of the packed value are the sequence. */
  lemma TimeKeepsSequence(seconds: Int64, millis: int, sequence: int)
    requires 0 <= millis < 1000 && 0 <= sequence <= MaxSequence
    ensures SequenceOf(Or(Or(ShiftLeft(seconds, 32), ShiftLeft(millis, 22)), sequence)) == sequence
  {
    Pow2Values();
    var a := ShiftLeft(seconds, 32);
    var b := ShiftLeft(millis, 22);
    assert b == millis * TwoTo22;
    ShiftLeftLowBits(seconds, 32);
    LowBitsOfMultiple(a, TwoTo32 / TwoTo22);
    OrLowBits(a, b, 22);
    DivModUnique(b, TwoTo22, millis, 0);
    OrLowBits(Or(a, b), sequence, 22);
    DivModUnique(sequence, TwoTo22, 0, sequence);
  }

  /** Clear low 32 bits imply clear low 22 bits. */
  lemma LowBitsOfMultiple(a: Int64, k: int)
    requires k == TwoTo32 / TwoTo22
    requires LowBits(a, 32) == 0
    ensures LowBits(a, 22) == 0
  {
    Pow2Values();
    DivMod(a, TwoTo32);
    DivModUnique(a, TwoTo22, (a / TwoTo32) * 1024, 0);
  }

  /** When the seconds fit in 32 bits, the three parts of timeSequence simply add up. */
  lemma TimeSequenceSum(seconds: Int64, millis: int, sequence: int)
    requires 0 <= millis < 1000 && 0 <= sequence <= MaxSequence
    requires -0x8000_0000 <= seconds < 0x8000_0000
    ensures Or(Or(ShiftLeft(seconds, 32), ShiftLeft(millis, 22)), sequence) ==
      seconds * TwoTo32 + millis * TwoTo22 + sequence
  {
    Pow2Values();
    var a := ShiftLeft(seconds, 32);
    var b := ShiftLeft(millis, 22);
    assert a == seconds * TwoTo32;
    assert b == millis * TwoTo22;
    DivModUnique(a, TwoTo32, seconds, 0);
    assert 0 <= b < TwoTo32;
    OrDisjoint(a, b, 32);
    var x := a + b;
    assert Or(a, b) == x;
    DivModUnique(x, TwoTo22, seconds * 1024 + millis, 0);
    OrDisjoint(x, sequence, 22);
    assert Or(x, sequence) == x + sequence;
  }

  /** Packed seconds that fit in 32 bits read back, with the milliseconds, through the getter. */
  lemma TimeRoundTrip(seconds: Int64, millis: int, sequence: int)
    requires 0 <= millis < 1000 && 0 <= sequence <= MaxSequence
    ensures -0x8000_0000 <= seconds < 0x8000_0000 ==>
      TimeOf(Or(Or(ShiftLeft(seconds, 32), ShiftLeft(millis, 22)), sequence)) == seconds * 1000 + millis
  {
    if -0x8000_0000 <= seconds < 0x8000_0000 {
      TimeSequenceSum(seconds, millis, sequence);
      var y := seconds * TwoTo32 + millis * TwoTo22 + sequence;
      DivModUnique(y, TwoTo32, seconds, millis * TwoTo22 + sequence);
      DivModUnique(y, TwoTo22, seconds * 1024 + millis, sequence);
      DivModUnique(seconds * 1024 + millis, TwoTo10, seconds, millis);
      Pow2Values();
      assert ShiftRight(y, 32) == seconds;
      assert LowBits(ShiftRight(y, 22), 10) == millis;
    }
  }

  /**
   * The `timeNanos` getter: the time in milliseconds scaled, plus the
   * nanosecond part. A part in [0, 999999] splits back out, with the time.
   */
  function NanosOf(timeSequence: Int64, timeNanoPart: Int32): (r: Int64)
    ensures 0 <= timeNanoPart < TimeUtil.NanosPerMilli ==>
      TimeUtil.MillisFromNanos(r) == TimeOf(timeSequence) && TimeUtil.NanoPartFromNanos(r) == timeNanoPart
  {
    TimeUtil.NanosFromMillisAndNanoPart(TimeOf(timeSequence), timeNanoPart)
  }

  /**
   * Setting `timeNanos` and reading it back gives the same value, for times whose
   * seconds fit in 32 bits; the nanosecond part is always in [0, 999999].
   */
  lemma TimeNanosRoundTrip(timeNanos: Int64, sequence: int)
    requires 0 <= sequence <= MaxSequence
    requires -0x8000_0000 * 1_000_000_000 <= timeNanos < 0x8000_0000 * 1_000_000_000
    ensures 0 <= TimeUtil.NanoPartFromNanos(timeNanos) <= 999999
    ensures var millis := TimeUtil.MillisFromNanos(timeNanos);
      NanosOf(TimeSequenceWithTime(millis, sequence), TimeUtil.NanoPartFromNanos(timeNanos)) == timeNanos
  {
    var millis := TimeUtil.MillisFromNanos(timeNanos);
    assert -0x8000_0000 <= TimeUtil.SecondsFromTime(millis) < 0x8000_0000;
  }
}
