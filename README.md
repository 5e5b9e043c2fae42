# dxFeed order and candle encoding, modelled in Dafny

This project models the event encoding layer of the dxFeed Swift API and
proves properties of that model. There are two parts.

- **Order packing.** `OrderBase` packs an order's semantic fields into three
  integers:
  - `flags` (32 bits) holds action, exchange code, side and scope.
  - `index` (64 bits) holds the event source and the per-source index; the
    sequence number also lives here.
  - `timeSequence` (64 bits) holds seconds, milliseconds and the sequence
    number.
  - `timeNanoPart` holds the sub-millisecond part.

  The class is modelled as a Dafny `class` with these fields. Each getter is a
  function reading them. Each setter is a method. Each setter of a packed
  field is specified by a value-level layout function in `OrderLayout` and by
  what reads back afterwards. `setIndex` stores its argument whole, so its
  contract gives the new `index` directly.
- **Candle attributes.** A candle symbol carries its parameters as
  `key=value` attributes.
  - `CandleType` is the aggregation type. The model covers its literal table,
    `byString` and the parser `parse`, which has an exact path and a fuzzy path.
  - `CandleSession` is the `tho` (trading hours only) attribute. The model
    covers reading, writing and normalising it, and checking it into a
    `CandleSymbol`.
- `IndexedEventSource` (source identifiers and their equality) and
  `IcebergType` (with its lookup table) complete the core.

The Swift code has several quirks, and the model keeps them as written:

- `getSequence`/`setSequence` read and write the low 22 bits of `index`, not of
  `timeSequence`.
- The `time` setter copies the sequence from `index` into `timeSequence`.
- `setIndex` refuses when the *current* index is negative. It never checks the
  new value.
- The `eventSource` setter chooses which low bits to keep (48 or 32) from the
  *old* index's source.
  - So storing a generic source over a special one leaves bits 32..47 or-ed
    with the new identifier.
  - The 64-bit `<< 32` keeps only the identifier's low 32 bits. The getter
    reads those bits back as a signed value, so an identifier that needs bit
    31 comes back as itself minus 2^32.
- `CandleSession.normalizeAttributeForSymbol` never changes its input:
  - its rewrite branch is guarded by a condition `Bool(String)` can never meet;
  - the result of its removal call is discarded.

  So a `tho=false` attribute is not stripped: `NormalizeAttributeForSymbol`
  returns its input on every path.

The Swift `Int`/`Long` values are modelled as unbounded integers restricted to
64 bits (`LongBits.Int64`). The bit operations are written out arithmetically
(`LongBits`):

- `>>` is floor division.
- `& (2^n - 1)` is the remainder.
- `<<` is multiplication followed by two's-complement truncation.
- `|` is a bitwise or on the unsigned representation.

`flags` is a `bv32`. The unshown helpers are stated as definitions with their
own contracts: BitUtil, TimeUtil/TimeNanosUtil, EnumUtil, OrderSource's special
ids, StringUtil.checkChar, the enums' `valueOf`, MarketEventSymbols and Swift's
`Bool(String)`.

## Model

Paths are relative to the repository root. `OrderBase.swift` and `IcebergType.swift` are in `DXFeedFramework/Events/Market/Extra/`, `CandleType.swift` and `CandleSession.swift` in `DXFeedFramework/Events/Market/Candles/`.

| member | source | states |
|---|---|---|
| OrderLayout.FlagFieldsLayout | DXFeedFramework/Events/Market/Extra/OrderBase.swift:32-54 | the action, exchange, side and scope ranges of `flags` are pairwise disjoint, lie within bits 0..14 and together fill them |
| OrderLayout.SetThenGet | DXFeedFramework/Events/Market/Extra/OrderBase.swift:195-205 | reading a flag field after writing it gives the written bits ANDed with the field's mask |
| OrderLayout.SetKeepsOthers | DXFeedFramework/Events/Market/Extra/OrderBase.swift:259-264 | writing one flag field leaves every other field's bits unchanged |
| BitUtil.GetBits | DXFeedFramework/Events/Market/Extra/OrderBase.swift:176-180 | the extracted bits lie within the mask |
| BitUtil.SetBits | DXFeedFramework/Events/Market/Extra/OrderBase.swift:187-190 | every bit of `flags` outside `mask << shift` is kept |
| OrderEvents.OrderBase.GetExchangeCode | DXFeedFramework/Events/Market/Extra/OrderBase.swift:176-180 | the exchange code is at most 0x7f (an ASCII code) |
| OrderEvents.OrderBase.GetExchangeCharacter | DXFeedFramework/Events/Market/Extra/OrderBase.swift:169-173 | the character's code point is the Int exchange code |
| OrderEvents.CheckChar | DXFeedFramework/Events/Market/Extra/OrderBase.swift:185 | a character passes exactly when it has no bit outside the mask; a failure names the field and the code |
| OrderEvents.OrderBase.SetExchangeCode | DXFeedFramework/Events/Market/Extra/OrderBase.swift:184-192 | a non-ASCII code fails and leaves `flags` as it was; otherwise the exchange field reads back the code and the other three fields are unchanged |
| OrderEvents.OrderBase.OrderSide | DXFeedFramework/Events/Market/Extra/OrderBase.swift:195-198 | for bit patterns 0..2 of bits 3..2 of `flags` the side read is the one with that raw value; pattern 3, which no side uses, reads as `undefined` |
| OrderEvents.OrderBase.SetOrderSide | DXFeedFramework/Events/Market/Extra/OrderBase.swift:195-205 | the side reads back through `Side.valueOf`; the other fields are unchanged |
| OrderEvents.OrderBase.Action | DXFeedFramework/Events/Market/Extra/OrderBase.swift:253-258 | for bit patterns 0..8 of bits 14..11 of `flags` the action read is the one with that raw value; patterns 9..15, which no action uses, read as `undefined` |
| OrderEvents.OrderBase.SetAction | DXFeedFramework/Events/Market/Extra/OrderBase.swift:253-265 | the action reads back through `OrderActionExt.valueOf`; the other fields are unchanged |
| OrderEvents.OrderBase.Scope | DXFeedFramework/Events/Market/Extra/OrderBase.swift:268-273 | the scope read is the one whose raw value is bits 1..0 of `flags` |
| OrderEvents.OrderBase.SetScope | DXFeedFramework/Events/Market/Extra/OrderBase.swift:268-281 | the scope reads back through `ScopeExt.valueOf`; the other fields are unchanged |
| OrderEvents.OrderBase.constructor | DXFeedFramework/Events/Market/Extra/OrderBase.swift:120-123 | a new order stores its symbol, and its packed fields start at zero |
| OrderEvents.OrderBase.SetIndex | DXFeedFramework/Events/Market/Extra/OrderBase.swift:157-162 | fails, leaving the index, exactly when the current index is negative; otherwise the index becomes the value |
| OrderLayout.SequenceOf | DXFeedFramework/Events/Market/Extra/OrderBase.swift:223-225 | the sequence is at most maxSequence (2^22 - 1) |
| OrderLayout.IndexWithSequence | DXFeedFramework/Events/Market/Extra/OrderBase.swift:236 | after the update the sequence reads back, and the bits of `index` above bit 21 are unchanged |
| OrderEvents.OrderBase.GetSequence | DXFeedFramework/Events/Market/Extra/OrderBase.swift:223-225 | getSequence is at most maxSequence |
| OrderEvents.OrderBase.SetSequence | DXFeedFramework/Events/Market/Extra/OrderBase.swift:230-237 | fails exactly when the sequence is below 0 or above maxSequence, and then leaves `index`; otherwise getSequence returns it and the bits above are unchanged; `timeSequence` is never touched |
| OrderEvents.OrderBase.EventSource | DXFeedFramework/Events/Market/Extra/OrderBase.swift:11-20 | the source is OrderSource.valueOf of the identifier the getter selects, and its identifier is that identifier; that valueOf answers with the source of the identifier asked for, and a failed lookup (the `fatalError`), are preconditions |
| OrderLayout.SourceIdOf | DXFeedFramework/Events/Market/Extra/OrderBase.swift:12-15 | the identifier looked up is bits 63..48 when they name a special source and bits 63..32 otherwise; it always fits in 32 signed bits |
| OrderLayout.IndexWithSource | DXFeedFramework/Events/Market/Extra/OrderBase.swift:22-24 | a special identifier reads back from bits 63..48 and through the getter, over the kept low 48 (old source special) or 32 (old source generic) bits; a generic identifier keeps the low 32 bits; stored over a generic source, bits 63..32 hold the identifier cut to 32 signed bits (`Wrap32`), and the getter reads that value back, so any identifier within 32 signed bits, negative ones included, reads back as itself, unless its bits 31..16 form a special identifier |
| OrderEvents.OrderBase.SetEventSource | DXFeedFramework/Events/Market/Extra/OrderBase.swift:21-25 | the index after the setter is the layout function of the old index; a special source reads back and the selected low bits are kept; a generic one keeps the low 32 bits; over a generic source bits 63..32 hold the identifier cut to 32 signed bits and the getter reads that value back, so an identifier within 32 signed bits, negative ones included, reads back as itself, unless its bits 31..16 form a special identifier |
| LongBits.OrDisjoint | DXFeedFramework/Events/Market/Extra/OrderBase.swift:24 | or-ing a value whose low n bits are clear with a value below 2^n is addition |
| LongBits.ClearLowBits | DXFeedFramework/Events/Market/Extra/OrderBase.swift:236 | `x & ~(2^n - 1)` has its low n bits clear and the same bits above n as x |
| LongBits.Wrap32 | DXFeedFramework/Events/Market/Extra/OrderBase.swift:23 | the signed 32-bit value congruent to x modulo 2^32, equal to x when x already fits in 32 signed bits |
| LongBits.ShiftLeft32Wraps | DXFeedFramework/Events/Market/Extra/OrderBase.swift:23 | the 64-bit `<< 32` keeps only the low 32 bits of its operand: it is `Wrap32(x)` times 2^32 |
| OrderLayout.TimeOf | DXFeedFramework/Events/Market/Extra/OrderBase.swift:210-212 | the `time` getter's value lies within the range that 32 bits of seconds and 10 bits of milliseconds allow; when the millisecond field is below 1000, the time's seconds are bits 63..32 and its milliseconds bits 31..22 |
| OrderEvents.OrderBase.Time | DXFeedFramework/Events/Market/Extra/OrderBase.swift:209-212 | when the millisecond field of `timeSequence` is below 1000, the time's seconds are bits 63..32 and its milliseconds bits 31..22 |
| OrderLayout.TimeSequenceWithTime | DXFeedFramework/Events/Market/Extra/OrderBase.swift:213-217 | for every time the low 22 bits of the new `timeSequence` are the sequence given; the `time` getter reads the time back when its seconds fit in 32 bits |
| OrderEvents.OrderBase.SetTime | DXFeedFramework/Events/Market/Extra/OrderBase.swift:213-217 | the new `timeSequence` is the layout function of the time and getSequence(); its low 22 bits equal `index & maxSequence`; `time` reads back for times whose seconds fit in 32 bits |
| OrderLayout.NanosOf | DXFeedFramework/Events/Market/Extra/OrderBase.swift:242-244 | with a nanosecond part in [0, 999999], splitting the result into milliseconds and nanosecond part gives back the time and the part |
| OrderEvents.OrderBase.TimeNanos | DXFeedFramework/Events/Market/Extra/OrderBase.swift:241-244 | with `timeNanoPart` in [0, 999999], splitting `timeNanos` gives back `time` and `timeNanoPart` |
| OrderLayout.TimeNanosRoundTrip | DXFeedFramework/Events/Market/Extra/OrderBase.swift:241-249 | setting `timeNanos` and reading it back gives the same value when its seconds fit in 32 bits; the nanosecond part is in [0, 999999] |
| OrderEvents.OrderBase.SetTimeNanos | DXFeedFramework/Events/Market/Extra/OrderBase.swift:245-248 | the whole milliseconds go through the `time` setter and the rest to `timeNanoPart`, which is in [0, 999999]; `timeNanos` reads back in the 32-bit-seconds range |
| TimeUtil.SecondsFromTime | DXFeedFramework/Events/Market/Extra/OrderBase.swift:214 | the seconds are the floor of the time over 1000 |
| TimeUtil.MillisFromTime | DXFeedFramework/Events/Market/Extra/OrderBase.swift:215 | the milliseconds are in [0, 999], and seconds and milliseconds recompose the time |
| TimeUtil.MillisFromNanos | DXFeedFramework/Events/Market/Extra/OrderBase.swift:246 | the milliseconds are the floor of the nanoseconds over 10^6 |
| TimeUtil.NanoPartFromNanos | DXFeedFramework/Events/Market/Extra/OrderBase.swift:247 | the nanosecond part is in [0, 999999] and recomposes the time with the milliseconds |
| TimeUtil.NanosFromMillisAndNanoPart | DXFeedFramework/Events/Market/Extra/OrderBase.swift:243 | dividing the result by 10^6 gives back the milliseconds and the nanosecond part |
| OrderEnums.SideValueOf | DXFeedFramework/Events/Market/Extra/OrderBase.swift:197 | the side at a slot has that raw value or is `undefined` |
| OrderEnums.SideLookup | DXFeedFramework/Events/Market/Extra/OrderBase.swift:197 | Side.valueOf inverts the raw value; the free slot holds `undefined` |
| OrderEnums.SideDecode | DXFeedFramework/Events/Market/Extra/OrderBase.swift:197 | Side.valueOf of 2-bit patterns 0..2 is the side with that raw value, and of pattern 3 `undefined` |
| OrderEnums.ScopeValueOf | DXFeedFramework/Events/Market/Extra/OrderBase.swift:270-272 | every 2-bit pattern names the scope with that raw value |
| OrderEnums.ScopeLookup | DXFeedFramework/Events/Market/Extra/OrderBase.swift:270-272 | ScopeExt.valueOf inverts the raw value |
| OrderEnums.ActionValueOf | DXFeedFramework/Events/Market/Extra/OrderBase.swift:255-257 | the action at a slot has that raw value or is `undefined` |
| OrderEnums.ActionLookup | DXFeedFramework/Events/Market/Extra/OrderBase.swift:255-257 | OrderActionExt.valueOf inverts the raw value |
| OrderEnums.ActionFreeSlots | DXFeedFramework/Events/Market/Extra/OrderBase.swift:255-257 | the 4-bit patterns 9..15 read as `undefined` |
| OrderEnums.ActionDecode | DXFeedFramework/Events/Market/Extra/OrderBase.swift:255-257 | OrderActionExt.valueOf of 4-bit patterns 0..8 is the action with that raw value, and of 9..15 `undefined` |
| EnumUtil.CreateEnumBitMaskArrayByValue | DXFeedFramework/Events/Market/Extra/IcebergType.swift:22-23 | the table is larger than every code, and each slot holds the default or the case with that code |
| EnumUtil.CreateLookup | DXFeedFramework/Events/Market/Extra/IcebergType.swift:22-23 | with distinct codes each case sits at its code, and slots no case claims hold the default |
| Iceberg.IcebergType.RawValue | DXFeedFramework/Events/Market/Extra/IcebergType.swift:11-18 | every raw value is below 3, so it indexes the four-slot table |
| Iceberg.Values | DXFeedFramework/Events/Market/Extra/IcebergType.swift:22-23 | the table has four slots, the next power of two above the largest code |
| Iceberg.ValueOf | DXFeedFramework/Events/Market/Extra/IcebergType.swift:30-32 | each slot holds the type with that raw value or `undefined`; an index outside the table is a precondition |
| Iceberg.ValueOfRawValue | DXFeedFramework/Events/Market/Extra/IcebergType.swift:21-32 | valueOf(rawValue(t)) == t for every type, and slot 3 holds `undefined` |
| EventSources.DefaultSourceIsZero | DXFeedFramework/Events/Market/IndexedEventSource.swift:19 | the default source has identifier 0 and its toString is "DEFAULT" |
| EventSources.IndexedEventSource.ToString | DXFeedFramework/Events/Market/IndexedEventSource.swift:33-35 | toString is the source's name |
| EventSources.Equals | DXFeedFramework/Events/Market/IndexedEventSource.swift:38-42 | two sources are `==` exactly when their identifiers are equal |
| EventSources.EqualsIsEquivalence | DXFeedFramework/Events/Market/IndexedEventSource.swift:38-42 | `==` is reflexive, symmetric and transitive |
| EventSources.IsSpecialSourceId | DXFeedFramework/Events/Market/Extra/OrderBase.swift:13 | a special identifier is positive and fits in the 16 bits 63..48 of the index |
| CandleTypes.FromStringLiteral | DXFeedFramework/Events/Market/Candles/CandleType.swift:16-64 | the literal becomes the type's value |
| CandleTypes.LiteralTable | DXFeedFramework/Events/Market/Candles/CandleType.swift:17-63 | each of the thirteen codes gives its name and its period in milliseconds |
| CandleTypes.LiteralDefault | DXFeedFramework/Events/Market/Candles/CandleType.swift:58-62 | any other literal gives a Tick with period 0 |
| CandleTypes.CandleType.Literal | DXFeedFramework/Events/Market/Candles/CandleType.swift:66-79 | each case's literal is the code at its declaration position |
| CandleTypes.CandleType.RawValue | DXFeedFramework/Events/Market/Candles/CandleType.swift:66-79 | the raw value's short code is the case's literal |
| CandleTypes.CandleType.ToString | DXFeedFramework/Events/Market/Candles/CandleType.swift:114-116 | toString is the case's (non-empty) short code |
| CandleTypes.CaseNames | DXFeedFramework/Events/Market/Candles/CandleType.swift:66-79 | the name of each case's raw value |
| CandleTypes.CodesDistinct | DXFeedFramework/Events/Market/Candles/CandleType.swift:66-79 | the thirteen codes are distinct, so toString is one-to-one |
| CandleTypes.Insert | DXFeedFramework/Events/Market/Candles/CandleType.swift:82-84 | the fold keeps earlier keys, adds the code of every folded case, and every other key it holds is the code of one of the folded cases |
| CandleTypes.InsertFinds | DXFeedFramework/Events/Market/Candles/CandleType.swift:82-84 | with distinct cases, each case is found under its own code |
| CandleTypes.InsertKeysAreCodes | DXFeedFramework/Events/Market/Candles/CandleType.swift:82-84 | folding cases into a map whose keys are codes leaves only codes as keys |
| CandleTypes.ByStringKeyIsCode | DXFeedFramework/Events/Market/Candles/CandleType.swift:82-84 | every key of byString is one of the thirteen codes |
| CandleTypes.ByStringLookup | DXFeedFramework/Events/Market/Candles/CandleType.swift:81-86 | byString maps each case's toString to the case, and its keys are exactly the thirteen codes |
| CandleTypes.FirstMatch | DXFeedFramework/Events/Market/Candles/CandleType.swift:98-107 | `first(where:)`: the position found matches and no earlier case does; the end position means there is no match |
| CandleTypes.FuzzyMatches | DXFeedFramework/Events/Market/Candles/CandleType.swift:99-106 | a case's name, and its name followed by "s", match; no matching symbol is longer than the name plus one |
| CandleTypes.EqualsIgnoreCase | DXFeedFramework/Events/Market/Candles/CandleType.swift:100 | only strings of the same length compare equal, and every string equals itself |
| CandleTypes.Parse | DXFeedFramework/Events/Market/Candles/CandleType.swift:88-112 | an empty symbol is missingCandleType and only it; a code is answered from byString; otherwise the answer matches and no case declared before it does; unknowCandleType exactly when nothing matches |
| CandleTypes.FirstMatchInOrder | DXFeedFramework/Events/Market/Candles/CandleType.swift:98-107 | the slow path's position in allCases is the declaration order |
| CandleTypes.ParseToString | DXFeedFramework/Events/Market/Candles/CandleType.swift:94-96 | parse(toString(c)) == c for every case |
| CandleTypes.ParseFirst | DXFeedFramework/Events/Market/Candles/CandleType.swift:98-111 | for a non-code symbol, the first matching case in declaration order is the answer |
| CandleTypes.ParseM | DXFeedFramework/Events/Market/Candles/CandleType.swift:98-111 | parse("M") is minute (declaration order puts it before month) |
| CandleTypes.ParseD | DXFeedFramework/Events/Market/Candles/CandleType.swift:98-111 | parse("D") is day |
| CandleTypes.ParseDays | DXFeedFramework/Events/Market/Candles/CandleType.swift:103-105 | parse("days") is day, through the trailing "s" |
| CandleTypes.ParseErrors | DXFeedFramework/Events/Market/Candles/CandleType.swift:89-110 | parse("") is missingCandleType and parse("xyz") is unknowCandleType |
| CandleSessions.CandleSessionId.RawValue | DXFeedFramework/Events/Market/Candles/CandleSession.swift:11-14 | the identifiers' raw values are "Any" and "Regular" |
| CandleSessions.NewSession | DXFeedFramework/Events/Market/Candles/CandleSession.swift:24-28 | the initializer stores the value and the identifier, and the name is the identifier's raw value |
| CandleSessions.SessionConstants | DXFeedFramework/Events/Market/Candles/CandleSession.swift:15-18 | any is "false"/"Any", regular is "true"/"Regular", they differ, and the default is any; toString and toFullString of both |
| CandleSessions.CandleSession.ToString | DXFeedFramework/Events/Market/Candles/CandleSession.swift:57-59 | toString is the attribute value |
| CandleSessions.CandleSession.ToFullString | DXFeedFramework/Events/Market/Candles/CandleSession.swift:61-63 | toFullString is `tho=` followed by toString |
| CandleSessions.ParseBool | DXFeedFramework/Events/Market/Candles/CandleSession.swift:35 | Bool(String) is true exactly for "true" and false exactly for "false" |
| CandleSessions.NormalizeAttributeForSymbol | DXFeedFramework/Events/Market/Candles/CandleSession.swift:30-47 | the symbol is returned unchanged on every path |
| CandleSessions.GetAttribute | DXFeedFramework/Events/Market/Candles/CandleSession.swift:49-55 | regular exactly when the `tho` attribute is "true"; the default session otherwise |
| CandleSessions.CandleSession.ChangeAttributeForSymbol | DXFeedFramework/Events/Market/Candles/CandleSession.swift:67-73 | the default session removes `tho` and any other writes its toString under `tho`; the base and every other attribute are kept |
| CandleSessions.GetAttributeAfterChange | DXFeedFramework/Events/Market/Candles/CandleSession.swift:49-73 | getAttribute of the symbol that changeAttributeForSymbol writes gives back the session |
| CandleSessions.CheckInAttribute | DXFeedFramework/Events/Market/Candles/CandleSession.swift:75-80 | fails with "Already initialized" exactly when a session is already set, leaving it; otherwise the candle symbol's session becomes this one and nothing else changes |
| CandleSessions.CandleSymbol.constructor | DXFeedFramework/Events/Market/Candles/CandleSession.swift:76-79 | a new candle symbol holds its text and no session yet, the state checkInAttribute tests |
| MarketEventSymbols.GetAttributeStringByKey | DXFeedFramework/Events/Market/Candles/CandleSession.swift:31 | the value is present exactly when the symbol has the key, and it is the key's value |
| MarketEventSymbols.ChangeAttributeStringByKey | DXFeedFramework/Events/Market/Candles/CandleSession.swift:37-39 | the key is set to the value; the base and the other attributes are kept |
| MarketEventSymbols.RemoveAttributeStringByKey | DXFeedFramework/Events/Market/Candles/CandleSession.swift:44 | the key is gone; the base and the other attributes are kept |

## Left out

- Double fields and `hsaSize` of OrderBase: floating point is outside the model.
- The `description`, `toString` and `baseFieldsToString` string renderings of OrderBase: these are formatting only.
- Plain stored fields of OrderBase that no encoding touches (`eventFlags`, `actionTime`, `orderId`, `auxOrderId`, `count`, `tradeId`): they are left out.
- OrderSource is not part of this model.
  - Its `valueOf` is a parameter of the `eventSource` getter, assumed to answer with the source of the identifier it is given.
  - `isSpecialSourceId` is taken to be identifiers 1 to 6.
- MarketEventSymbols is not part of this model. Its three operations are stated on a symbol already split into base and attributes. So the model does not capture:
  - the textual grammar;
  - the order of attributes;
  - the failure on malformed symbols.

  For a missing (nil) symbol it assumes that:
  - get gives nothing;
  - remove gives nothing;
  - change gives an empty base with the one attribute.
- The `length` of a String and `equalsIgnoreCase` are assumed helpers:
  - `length` is the number of characters;
  - the case-insensitive comparison folds ASCII letters only.
- TimeUtil.getSecondsFromTime is taken to return a 64-bit floor quotient.
- OrderEvents.OrderBase.SetExchangeCode takes the first Unicode scalar of the Character. A Character made of several scalars is not modelled.
- OrderEvents.OrderBase.SetEventSource: the contract leaves two cases of a generic identifier open:
  - stored over a special source, only the kept low 32 bits are stated, because the identifier's low 16 bits are or-ed into the kept bits 47..32;
  - when the identifier cut to 32 signed bits has bits 31..16 that form a special identifier, it is not stated what the getter reads back, because the getter then takes bits 63..48 instead.
- OrderLayout.IndexWithSource: the same two cases are left open, for the same reasons.
- OrderLayout.TimeSequenceWithTime: the round trip is stated only for times whose seconds fit in 32 bits. Outside that range the `<< 32` drops the high bits, and the contract says nothing about what reads back.
- OrderLayout.TimeNanosRoundTrip: the round trip is stated only for the same 32-bit-seconds range, in nanoseconds.
- CandleSessions.CandleSymbol models only the symbol string and the session of the Swift CandleSymbol. The other properties are not part of this model.
