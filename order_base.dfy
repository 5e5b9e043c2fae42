/**
 * OrderBase (OrderBase.swift): a mutable order event whose semantic fields
 * are packed into `flags`, `index` and `timeSequence`. Every setter is
 * specified by the layout function of OrderLayout it must agree with, and
 * states what reads back afterwards and what stays as it was.
 *
 * The quirks of the Swift code are kept: the sequence lives in the low 22
 * bits of `index` (not of `timeSequence`), the `time` setter copies those
 * bits of `index` into `timeSequence`, `setIndex` tests the old index rather
 * than the new value, and the `eventSource` setter picks the bits it keeps
 * from the old source.
 */
module OrderEvents {
  import opened Wrappers
  import opened LongBits
  import opened BitUtil
  import opened EventSources
  import opened OrderEnums
  import opened OrderLayout
  import TimeUtil

  /** The ArgumentException cases OrderBase's throwing members raise. */
  datatype OrderError =
    | NegativeIndex(index: Int64)
    | InvalidSequence(sequence: Int64)
    | InvalidChar(name: string, code: bv32)

  /** The value of a Unicode scalar: what `Character.unicodeScalars.first?.value` gives. */
  type UnicodeScalar = c: bv32 | c < 0x11_0000

  /**
   * StringUtil.checkChar, not part of this model, stated as dxFeed defines
   * it: a character with a bit outside the mask is rejected.
   */
  function CheckChar(code: bv32, mask: bv32, name: string): (o: Outcome<OrderError>)
    ensures o.Pass? <==> code & !mask == 0
    ensures o.Fail? ==> o.error == InvalidChar(name, code)
  {
    if code & !mask != 0 then Fail(InvalidChar(name, code)) else Pass
  }

  class OrderBase {
    var eventSymbol: string
    var index: Int64
    var flags: bv32
    var timeSequence: Int64
    var timeNanoPart: Int32

    constructor(eventSymbol: string)
      ensures this.eventSymbol == eventSymbol
      ensures index == 0 && flags == 0 && timeSequence == 0 && timeNanoPart == 0
    {
      this.eventSymbol := eventSymbol;
      index := 0;
      flags := 0;
      timeSequence := 0;
      timeNanoPart := 0;
    }

    // -------------------------------------------------------------------
    // eventSource and index

    /**
     * The `eventSource` getter: OrderSource.valueOf (not part of this model,
     * hence a parameter) applied to bits 63..48 of the index if they name a
     * special source, else to bits 63..32. OrderSource.valueOf answers with
     * the source of the identifier it is asked for. Swift stops with
     * `fatalError` when the lookup fails, so its success is a precondition.
     */
    function EventSource(valueOf: Int64 -> Option<IndexedEventSource>): (source: IndexedEventSource)
      reads this
      requires forall id :: valueOf(id).Some? ==> valueOf(id).value.identifier == id
      requires valueOf(SourceIdOf(index)).Some?
      ensures valueOf(SourceIdOf(index)) == Some(source)
      ensures source.identifier == SourceIdOf(index)
    {
      valueOf(SourceIdOf(index)).value
    }

    /** The `eventSource` setter. */
    method SetEventSource(newValue: IndexedEventSource)
      modifies this`index
      ensures index == IndexWithSource(old(index), newValue.identifier)
      ensures IsSpecialSourceId(newValue.identifier) ==>
        SourceIdOf(index) == newValue.identifier &&
        LowBits(index, 48) == LowBits(old(index), if IsSpecialSourceId(ShiftRight(old(index), 48)) then 48 else 32)
      ensures !IsSpecialSourceId(newValue.identifier) ==> LowBits(index, 32) == LowBits(old(index), 32)
      ensures (!IsSpecialSourceId(newValue.identifier) && !IsSpecialSourceId(ShiftRight(old(index), 48))) ==>
        ShiftRight(index, 32) == Wrap32(newValue.identifier)
      ensures GenericOverGeneric(old(index), newValue.identifier) ==> SourceIdOf(index) == Wrap32(newValue.identifier)
      ensures (GenericOverGeneric(old(index), newValue.identifier) && -0x8000_0000 <= newValue.identifier < 0x8000_0000) ==>
        SourceIdOf(index) == newValue.identifier
    {
      var id := newValue.identifier;
      var was := index;
      var shift := if IsSpecialSourceId(id) then 48 else 32;
      var keep := if IsSpecialSourceId(ShiftRight(index, 48)) then 48 else 32;
      Pow2Values();
      index := Or(ShiftLeft(id, shift), LowBits(index, keep));
      assert index == IndexWithSource(was, id);
    }

    /** setIndex: throws when the CURRENT index is negative; the new value is not checked. */
    method SetIndex(value: Int64) returns (o: Outcome<OrderError>)
      modifies this`index
      ensures o.Fail? <==> old(index) < 0
      ensures o.Fail? ==> o.error == NegativeIndex(old(index)) && index == old(index)
      ensures o.Pass? ==> index == value
    {
      if index < 0 {
        return Fail(NegativeIndex(index));
      }
      index := value;
      o := Pass;
    }

    // -------------------------------------------------------------------
    // flags

    /** getExchangeCode as an Int: bits 10..4 of flags. */
    function GetExchangeCode(): (code: bv32)
      reads this
      ensures code <= ExchangeMask
    {
      ExchangeField.Get(flags)
    }

    /** getExchangeCode as a Character: the ASCII character with that code. */
    function GetExchangeCharacter(): (c: char)
      reads this
      ensures c as int == GetExchangeCode() as int
    {
      (GetExchangeCode() as int) as char
    }

    /** setExchangeCode: a character outside ASCII is refused and flags stay as they were. */
    method SetExchangeCode(code: UnicodeScalar) returns (o: Outcome<OrderError>)
      modifies this`flags
      ensures o == CheckChar(code, ExchangeMask, "exchangeCode")
      ensures o.Fail? ==> flags == old(flags)
      ensures o.Pass? ==> flags == ExchangeField.Set(old(flags), code) && GetExchangeCode() == code
      ensures forall g: FlagField :: g != ExchangeField ==> g.Get(flags) == g.Get(old(flags))
    {
      o := CheckChar(code, ExchangeMask, "exchangeCode");
      if o.Fail? {
        return;
      }
      var was := flags;
      flags := SetBits(flags, ExchangeMask, ExchangeShift, code);
      SetThenGet(ExchangeField, was, code);
      forall g: FlagField | g != ExchangeField ensures g.Get(flags) == g.Get(was) {
        SetKeepsOthers(ExchangeField, g, was, code);
      }
    }

    /** The `orderSide` getter: Side.valueOf of bits 3..2; the one pattern no side uses reads as undefined. */
    function OrderSide(): (side: Side)
      reads this
      ensures SideField.Get(flags) as int < 3 ==> side.RawValue() == SideField.Get(flags) as int
      ensures SideField.Get(flags) as int == 3 ==> side == UndefinedSide
    {
      SideDecode(SideField.Get(flags) as int);
      SideValueOf(SideField.Get(flags) as int)
    }

    /** The `orderSide` setter. */
    method SetOrderSide(side: Side)
      modifies this`flags
      ensures flags == SideField.Set(old(flags), side.RawBits())
      ensures OrderSide() == side
      ensures forall g: FlagField :: g != SideField ==> g.Get(flags) == g.Get(old(flags))
    {
      var was := flags;
      flags := SetBits(flags, SideMask, SideShift, side.RawBits());
      SetThenGet(SideField, was, side.RawBits());
      assert side.RawBits() & SideMask == side.RawBits();
      SideLookup();
      forall g: FlagField | g != SideField ensures g.Get(flags) == g.Get(was) {
        SetKeepsOthers(SideField, g, was, side.RawBits());
      }
    }

    /** The `action` getter: OrderActionExt.valueOf of bits 14..11; the patterns no action uses read as undefined. */
    function Action(): (action: OrderAction)
      reads this
      ensures ActionField.Get(flags) as int < 9 ==> action.RawValue() == ActionField.Get(flags) as int
      ensures ActionField.Get(flags) as int >= 9 ==> action == UndefinedAction
    {
      ActionDecode(ActionField.Get(flags) as int);
      ActionValueOf(ActionField.Get(flags) as int)
    }

    /** The `action` setter. */
    method SetAction(action: OrderAction)
      modifies this`flags
      ensures flags == ActionField.Set(old(flags), action.RawBits())
      ensures Action() == action
      ensures forall g: FlagField :: g != ActionField ==> g.Get(flags) == g.Get(old(flags))
    {
      var was := flags;
      flags := SetBits(flags, ActionMask, ActionShift, action.RawBits());
      SetThenGet(ActionField, was, action.RawBits());
      assert action.RawBits() & ActionMask == action.RawBits();
      ActionLookup();
      forall g: FlagField | g != ActionField ensures g.Get(flags) == g.Get(was) {
        SetKeepsOthers(ActionField, g, was, action.RawBits());
      }
    }

    /** The `scope` getter: ScopeExt.valueOf of bits 1..0. */
    function Scope(): (scope: OrderEnums.Scope)
      reads this
      ensures scope.RawValue() == ScopeField.Get(flags) as int
    {
      ScopeValueOf(ScopeField.Get(flags) as int)
    }

    /** The `scope` setter. */
    method SetScope(scope: OrderEnums.Scope)
      modifies this`flags
      ensures flags == ScopeField.Set(old(flags), scope.RawBits())
      ensures Scope() == scope
      ensures forall g: FlagField :: g != ScopeField ==> g.Get(flags) == g.Get(old(flags))
    {
      var was := flags;
      flags := SetBits(flags, ScopeMask, ScopeShift, scope.RawBits());
      SetThenGet(ScopeField, was, scope.RawBits());
      assert scope.RawBits() & ScopeMask == scope.RawBits();
      ScopeLookup();
      forall g: FlagField | g != ScopeField ensures g.Get(flags) == g.Get(was) {
        SetKeepsOthers(ScopeField, g, was, scope.RawBits());
      }
    }

    // -------------------------------------------------------------------
    // sequence, time and timeNanos

    /** getSequence: the low 22 bits of `index`. */
    function GetSequence(): (sequence: nat)
      reads this
      ensures sequence <= MaxSequence
    {
      SequenceOf(index)
    }

    /** setSequence: out-of-range values are refused; otherwise only the low 22 bits of `index` change. */
    method SetSequence(sequence: Int64) returns (o: Outcome<OrderError>)
      modifies this`index
      ensures o.Fail? <==> sequence < 0 || sequence > MaxSequence
      ensures o.Fail? ==> o.error == InvalidSequence(sequence) && index == old(index)
      ensures o.Pass? ==> index == IndexWithSequence(old(index), sequence)
      ensures o.Pass? ==> GetSequence() == sequence && ShiftRight(index, 22) == ShiftRight(old(index), 22)
      ensures timeSequence == old(timeSequence)
    {
      if sequence < 0 || sequence > MaxSequence {
        return Fail(InvalidSequence(sequence));
      }
      var was := index;
      Pow2Values();
      index := Or(ClearLowBits(index, 22), sequence);
      assert index == IndexWithSequence(was, sequence);
      o := Pass;
    }

    /**
     * The `time` getter, in milliseconds since the epoch: its seconds are
     * bits 63..32 of timeSequence and its milliseconds bits 31..22, when that
     * field holds a millisecond count below 1000.
     */
    function Time(): (time: Int64)
      reads this
      ensures LowBits(ShiftRight(timeSequence, 22), 10) < 1000 ==>
        TimeUtil.SecondsFromTime(time) == ShiftRight(timeSequence, 32) &&
        TimeUtil.MillisFromTime(time) == LowBits(ShiftRight(timeSequence, 22), 10)
    {
      TimeOf(timeSequence)
    }

    /**
     * The `time` setter: seconds and milliseconds of the new time, and the
     * sequence taken from `index` through getSequence.
     */
    method SetTime(time: Int64)
      modifies this`timeSequence
      ensures timeSequence == TimeSequenceWithTime(time, GetSequence())
      ensures SequenceOf(timeSequence) == SequenceOf(index)
      ensures -0x8000_0000 <= TimeUtil.SecondsFromTime(time) < 0x8000_0000 ==> Time() == time
    {
      Pow2Values();
      var seconds := TimeUtil.SecondsFromTime(time);
      var millis := TimeUtil.MillisFromTime(time);
      timeSequence := Or(Or(ShiftLeft(seconds, 32), ShiftLeft(millis, 22)), GetSequence());
    }

    /**
     * The `timeNanos` getter, in nanoseconds since the epoch: a nanosecond
     * part in [0, 999999] splits back out of it, with `time`.
     */
    function TimeNanos(): (timeNanos: Int64)
      reads this
      ensures 0 <= timeNanoPart < TimeUtil.NanosPerMilli ==>
        TimeUtil.MillisFromNanos(timeNanos) == Time() && TimeUtil.NanoPartFromNanos(timeNanos) == timeNanoPart
    {
      NanosOf(timeSequence, timeNanoPart)
    }

    /** The `timeNanos` setter: the whole milliseconds go to `time`, the rest to timeNanoPart. */
    method SetTimeNanos(timeNanos: Int64)
      modifies this`timeSequence, this`timeNanoPart
      ensures timeSequence == TimeSequenceWithTime(TimeUtil.MillisFromNanos(timeNanos), GetSequence())
      ensures timeNanoPart == TimeUtil.NanoPartFromNanos(timeNanos) && 0 <= timeNanoPart <= 999999
      ensures -0x8000_0000 * 1_000_000_000 <= timeNanos < 0x8000_0000 * 1_000_000_000 ==> TimeNanos() == timeNanos
    {
      SetTime(TimeUtil.MillisFromNanos(timeNanos));
      timeNanoPart := TimeUtil.NanoPartFromNanos(timeNanos);
      if -0x8000_0000 * 1_000_000_000 <= timeNanos < 0x8000_0000 * 1_000_000_000 {
        TimeNanosRoundTrip(timeNanos, GetSequence());
      }
    }
  }
}
