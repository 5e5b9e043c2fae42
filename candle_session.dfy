/**
 * CandleSession (CandleSession.swift): the trading-hours attribute of a candle
 * symbol, written `tho=true` for regular hours only and absent (or `false`)
 * for any session.
 */
module CandleSessions {
  import opened Wrappers
  import opened MarketEventSymbols

  /** CandleSessionId: the two session identifiers and their raw names. */
  datatype CandleSessionId = AnyId | RegularId
  {
    function RawValue(): (s: string)
      ensures s == (if this == AnyId then "Any" else "Regular")
    {
      match this
      case AnyId => "Any"
      case RegularId => "Regular"
    }
  }

  /** The attribute key the session is stored under. */
  const AttributeKey: string := "tho"

  /** A session: its attribute value, its name and its identifier. */
  datatype CandleSession = CandleSession(value: string, name: string, identifier: CandleSessionId)
  {
    /** toString: the attribute value. */
    function ToString(): (s: string)
      ensures s == value
    {
      value
    }

    /** toFullString: the attribute as `key=value`. */
    function ToFullString(): (s: string)
      ensures s == AttributeKey + "=" + ToString()
    {
      AttributeKey + "=" + value
    }

    /**
     * changeAttributeForSymbol: the default session removes its attribute
     * from the symbol, any other writes `tho=<toString()>`; the base and the
     * other attributes are kept.
     */
    function ChangeAttributeForSymbol(symbol: Option<Symbol>): (r: Option<Symbol>)
      ensures this == DefaultSession ==>
        (r.Some? <==> symbol.Some?) && GetAttributeStringByKey(r, AttributeKey).None?
      ensures this != DefaultSession ==>
        r.Some? && GetAttributeStringByKey(r, AttributeKey) == Some(ToString())
      ensures r.Some? ==> r.value.base == (if symbol.Some? then symbol.value.base else "")
      ensures forall k :: k != AttributeKey ==>
        GetAttributeStringByKey(r, k) == GetAttributeStringByKey(symbol, k)
    {
      if this == DefaultSession then
        RemoveAttributeStringByKey(symbol, AttributeKey)
      else
        // changeAttributeStringByKey cannot fail on a decomposed symbol, so `try?` always yields its value.
        Some(ChangeAttributeStringByKey(symbol, AttributeKey, ToString()))
    }
  }

  /** The private initializer: the name is the identifier's raw value. */
  function NewSession(value: string, identifier: CandleSessionId): (r: CandleSession)
    ensures r.value == value && r.name == identifier.RawValue() && r.identifier == identifier
  {
    CandleSession(value, identifier.RawValue(), identifier)
  }

  const AnySession: CandleSession := NewSession("false", AnyId)
  const RegularSession: CandleSession := NewSession("true", RegularId)

  /** The initializer is private, so these two are the only sessions there are. */
  type KnownSession = s: CandleSession | s == AnySession || s == RegularSession
    witness CandleSession("false", "Any", AnyId)

  const DefaultSession: KnownSession := AnySession

  /** The two sessions, their strings and the default. */
  lemma SessionConstants()
    ensures AnySession.value == "false" && AnySession.name == "Any" && AnySession.identifier == AnyId
    ensures RegularSession.value == "true" && RegularSession.name == "Regular"
    ensures RegularSession.identifier == RegularId
    ensures AnySession != RegularSession && DefaultSession == AnySession
    ensures AnySession.ToString() == "false" && RegularSession.ToString() == "true"
    ensures AnySession.ToFullString() == "tho=false" && RegularSession.ToFullString() == "tho=true"
  {
  }

  /** Swift's Bool(String): exactly "true" and "false" are booleans. */
  function ParseBool(s: string): (r: Option<bool>)
    ensures r == Some(true) <==> s == "true"
    ensures r == Some(false) <==> s == "false"
  {
    match s
    case "true" => Some(true)
    case "false" => Some(false)
    case _ => None
  }

  /**
   * normalizeAttributeForSymbol as written: the rewrite to "true" is guarded
   * by a value that Bool(String) reads as true yet differs from "true", and
   * the symbol without the attribute is computed and discarded, so the input
   * comes back on every path.
   */
  function NormalizeAttributeForSymbol(symbol: Symbol): (r: Symbol)
    ensures r == symbol
  {
    var attribute := GetAttributeStringByKey(Some(symbol), AttributeKey);
    if attribute.None? then symbol
    else
      var other := ParseBool(attribute.value);
      if other == Some(true) && attribute.value != RegularSession.ToString() then
        ChangeAttributeStringByKey(Some(symbol), AttributeKey, RegularSession.ToString())
      else if other == Some(false) || other.None? then
        var discarded := RemoveAttributeStringByKey(Some(symbol), AttributeKey);
        symbol
      else
        symbol
  }

  /**
   * getAttribute: regular hours exactly when the attribute reads as the
   * boolean true, and the default session otherwise (no attribute, "false"
   * or anything that is not a boolean).
   */
  function GetAttribute(symbol: Option<Symbol>): (r: KnownSession)
    ensures r == RegularSession <==> GetAttributeStringByKey(symbol, AttributeKey) == Some("true")
    ensures r != RegularSession ==> r == DefaultSession
  {
    match GetAttributeStringByKey(symbol, AttributeKey)
    case None => DefaultSession
    case Some(attribute) =>
      var res := match ParseBool(attribute) case Some(b) => b case None => false;
      if res then RegularSession else DefaultSession
  }

  /** Writing a session into a symbol and reading it back gives that session. */
  lemma GetAttributeAfterChange(session: KnownSession, symbol: Option<Symbol>)
    ensures GetAttribute(session.ChangeAttributeForSymbol(symbol)) == session
  {
    SessionConstants();
  }

  datatype ArgumentError = InvalidOperation(message: string)

  /** The part of CandleSymbol the session property touches. */
  class CandleSymbol {
    var symbol: string
    var session: Option<KnownSession>

    constructor (symbol: string)
      ensures this.symbol == symbol && session == None
    {
      this.symbol := symbol;
      session := None;
    }
  }

  /**
   * checkInAttribute: fails with "Already initialized" when the candle symbol
   * already has a session; otherwise records this session and nothing else.
   */
  method CheckInAttribute(session: KnownSession, candleSymbol: CandleSymbol) returns (r: Outcome<ArgumentError>)
    modifies candleSymbol`session
    ensures r.Fail? <==> old(candleSymbol.session).Some?
    ensures r.Fail? ==> r.error == InvalidOperation("Already initialized")
    ensures r.Fail? ==> candleSymbol.session == old(candleSymbol.session)
    ensures r.Pass? ==> candleSymbol.session == Some(session)
  {
    if candleSymbol.session.Some? {
      return Fail(InvalidOperation("Already initialized"));
    }
    candleSymbol.session := Some(session);
    return Pass;
  }
}
