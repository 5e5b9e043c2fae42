/**
 * MarketEventSymbols, not part of this model: the three attribute operations
 * the candle properties call, stated on a symbol already split into its base
 * and its attribute block (key to value). A missing symbol (Swift nil) is
 * `None`.
 */
module MarketEventSymbols {
  import opened Wrappers

  /** A market symbol: the base text and the `{key=value,...}` attributes. */
  datatype Symbol = Symbol(base: string, attributes: map<string, string>)

  /** getAttributeStringByKey: the value of `key`, absent when the symbol or the key is. */
  function GetAttributeStringByKey(symbol: Option<Symbol>, key: string): (r: Option<string>)
    ensures r.Some? <==> symbol.Some? && key in symbol.value.attributes
    ensures r.Some? ==> r.value == symbol.value.attributes[key]
  {
    match symbol
    case None => None
    case Some(s) => if key in s.attributes then Some(s.attributes[key]) else None
  }

  /**
   * changeAttributeStringByKey: `key` set to `value`, the base and the other
   * attributes kept; a missing symbol gives an empty base carrying the one
   * attribute.
   */
  function ChangeAttributeStringByKey(symbol: Option<Symbol>, key: string, value: string): (r: Symbol)
    ensures r.base == (if symbol.Some? then symbol.value.base else "")
    ensures key in r.attributes && r.attributes[key] == value
    ensures forall k :: k != key ==>
      (k in r.attributes <==> symbol.Some? && k in symbol.value.attributes)
    ensures forall k :: k != key && k in r.attributes ==> r.attributes[k] == symbol.value.attributes[k]
  {
    match symbol
    case None => Symbol("", map[key := value])
    case Some(s) => Symbol(s.base, s.attributes[key := value])
  }

  /** removeAttributeStringByKey: `key` dropped, the base and the other attributes kept. */
  function RemoveAttributeStringByKey(symbol: Option<Symbol>, key: string): (r: Option<Symbol>)
    ensures r.Some? <==> symbol.Some?
    ensures r.Some? ==> r.value.base == symbol.value.base
    ensures r.Some? ==> key !in r.value.attributes
    ensures r.Some? ==> forall k :: k != key ==>
      (k in r.value.attributes <==> k in symbol.value.attributes)
    ensures r.Some? ==> forall k :: k != key && k in r.value.attributes ==>
      r.value.attributes[k] == symbol.value.attributes[k]
  {
    match symbol
    case None => None
    case Some(s) => Some(Symbol(s.base, s.attributes - {key}))
  }
}
