/**
 * CandleType (CandleType.swift): the candle aggregation types, each with a
 * short code, a name and a period, and the parser from a symbol's attribute
 * text to a type.
 */
module CandleTypes {
  import opened Wrappers
  import opened LongBits

  /** DXCandleType: a candle type's name, short code (`value`) and period. */
  datatype DXCandleType = DXCandleType(name: string, value: string, periodIntervalMillis: Int64)

  /** The thirteen short codes, in declaration order. */
  const Codes: seq<string> := ["t", "s", "m", "h", "d", "w", "mo", "o", "y", "v", "p", "pm", "pr"]

  predicate IsCode(s: string)
  {
    s == "t" || s == "s" || s == "m" || s == "h" || s == "d" || s == "w" || s == "mo" ||
    s == "o" || s == "y" || s == "v" || s == "p" || s == "pm" || s == "pr"
  }

  /**
   * DXCandleType.init(stringLiteral:): the literal becomes `value`; a known
   * code selects its name and period, any other literal gives a Tick with
   * period 0.
   */
  function FromStringLiteral(stringLiteral: string): (r: DXCandleType)
    ensures r.value == stringLiteral
  {
    match stringLiteral
    case "t" => DXCandleType("Tick", stringLiteral, 0)
    case "s" => DXCandleType("Second", stringLiteral, 1000)
    case "m" => DXCandleType("Minute", stringLiteral, 60 * 1000)
    case "h" => DXCandleType("Hour", stringLiteral, 60 * 60 * 1000)
    case "d" => DXCandleType("Day", stringLiteral, 24 * 60 * 60 * 1000)
    case "w" => DXCandleType("Week", stringLiteral, 7 * 24 * 60 * 60 * 1000)
    case "mo" => DXCandleType("Month", stringLiteral, 30 * 24 * 60 * 60 * 1000)
    case "o" => DXCandleType("OptExp", stringLiteral, 30 * 24 * 60 * 60 * 1000)
    case "y" => DXCandleType("Year", stringLiteral, 365 * 24 * 60 * 60 * 1000)
    case "v" => DXCandleType("Volume", stringLiteral, 0)
    case "p" => DXCandleType("Price", stringLiteral, 0)
    case "pm" => DXCandleType("PriceMomentum", stringLiteral, 0)
    case "pr" => DXCandleType("PriceRenko", stringLiteral, 0)
    case _ => DXCandleType("Tick", stringLiteral, 0)
  }

  /** The CandleType cases, in declaration order; each has a DXCandleType raw value. */
  datatype CandleType =
    | Tick | Second | Minute | Hour | Day | Week | Month | OptExp | Year
    | Volume | Price | PriceMomentum | PriceRenko
  {
    /** Position in declaration order, which is the order of `allCases`. */
    function Ordinal(): (i: nat)
      ensures i < |Codes|
    {
      match this
      case Tick => 0 case Second => 1 case Minute => 2 case Hour => 3 case Day => 4
      case Week => 5 case Month => 6 case OptExp => 7 case Year => 8 case Volume => 9
      case Price => 10 case PriceMomentum => 11 case PriceRenko => 12
    }

    /** The string literal the case is declared with. */
    function Literal(): (s: string)
      ensures s == Codes[Ordinal()]
    {
      match this
      case Tick => "t" case Second => "s" case Minute => "m" case Hour => "h" case Day => "d"
      case Week => "w" case Month => "mo" case OptExp => "o" case Year => "y" case Volume => "v"
      case Price => "p" case PriceMomentum => "pm" case PriceRenko => "pr"
    }

    /** The raw value: the DXCandleType built from the case's literal, whose code is that literal. */
    function RawValue(): (r: DXCandleType)
      ensures r.value == Literal()
    {
      FromStringLiteral(Literal())
    }

    /** toString: the short code. */
    function ToString(): (s: string)
      ensures s == Literal() && |s| > 0
    {
      RawValue().value
    }
  }

  /** `CandleType.allCases`. */
  const AllCases: seq<CandleType> :=
    [Tick, Second, Minute, Hour, Day, Week, Month, OptExp, Year, Volume, Price, PriceMomentum, PriceRenko]

  lemma AllCasesInOrder()
    ensures |AllCases| == |Codes|
    ensures forall c: CandleType :: AllCases[c.Ordinal()] == c
    ensures forall i :: 0 <= i < |AllCases| ==> AllCases[i].Ordinal() == i
  {
  }

  /**
   * The literal table: each code with its name and period (in milliseconds);
   * any other literal is a Tick.
   */
  lemma LiteralTable()
    ensures FromStringLiteral("t") == DXCandleType("Tick", "t", 0)
    ensures FromStringLiteral("s") == DXCandleType("Second", "s", 1_000)
    ensures FromStringLiteral("m") == DXCandleType("Minute", "m", 60_000)
    ensures FromStringLiteral("h") == DXCandleType("Hour", "h", 3_600_000)
    ensures FromStringLiteral("d") == DXCandleType("Day", "d", 86_400_000)
    ensures FromStringLiteral("w") == DXCandleType("Week", "w", 604_800_000)
    ensures FromStringLiteral("mo") == DXCandleType("Month", "mo", 2_592_000_000)
    ensures FromStringLiteral("o") == DXCandleType("OptExp", "o", 2_592_000_000)
    ensures FromStringLiteral("y") == DXCandleType("Year", "y", 31_536_000_000)
    ensures FromStringLiteral("v") == DXCandleType("Volume", "v", 0)
    ensures FromStringLiteral("p") == DXCandleType("Price", "p", 0)
    ensures FromStringLiteral("pm") == DXCandleType("PriceMomentum", "pm", 0)
    ensures FromStringLiteral("pr") == DXCandleType("PriceRenko", "pr", 0)
  {
  }

  /** Any literal that is not one of the thirteen codes gives a Tick with period 0. */
  lemma LiteralDefault(stringLiteral: string)
    requires stringLiteral !in Codes
    ensures FromStringLiteral(stringLiteral) == DXCandleType("Tick", stringLiteral, 0)
  {
  }

  /** The names the fuzzy match compares against. */
  lemma CaseNames()
    ensures Tick.RawValue().name == "Tick" && Second.RawValue().name == "Second"
    ensures Minute.RawValue().name == "Minute" && Hour.RawValue().name == "Hour"
    ensures Day.RawValue().name == "Day" && Week.RawValue().name == "Week"
    ensures Month.RawValue().name == "Month" && OptExp.RawValue().name == "OptExp"
    ensures Year.RawValue().name == "Year" && Volume.RawValue().name == "Volume"
    ensures Price.RawValue().name == "Price" && PriceMomentum.RawValue().name == "PriceMomentum"
    ensures PriceRenko.RawValue().name == "PriceRenko"
  {
    LiteralTable();
  }

  /** The short codes are distinct: toString is one-to-one. */
  lemma CodesDistinct()
    ensures forall c: CandleType, d: CandleType :: c.ToString() == d.ToString() ==> c == d
  {
  }

  // ---------------------------------------------------------------------
  // byString

  /** The `reduce(into:)` that builds byString: each case stored under its code, later ones last. */
  function Insert(cases: seq<CandleType>, acc: map<string, CandleType>): (m: map<string, CandleType>)
    ensures forall k :: k in acc ==> k in m
    ensures forall i :: 0 <= i < |cases| ==> cases[i].ToString() in m
    ensures forall k :: k in m ==> k in acc || exists i :: 0 <= i < |cases| && cases[i].ToString() == k
    decreases |cases|
  {
    if cases == [] then acc
    else Insert(cases[1..], acc[cases[0].ToString() := cases[0]])
  }

  /** `byString`: from short code to case. */
  function ByString(): map<string, CandleType>
  {
    Insert(AllCases, map[])
  }

  lemma LiteralsAreCodes()
    ensures forall c: CandleType :: IsCode(c.ToString())
  {
  }

  /** Where a code stands in the table. */
  function CodeIndex(k: string): (i: nat)
    requires IsCode(k)
    ensures i < |Codes| && Codes[i] == k
  {
    if k == "t" then 0 else if k == "s" then 1 else if k == "m" then 2 else if k == "h" then 3
    else if k == "d" then 4 else if k == "w" then 5 else if k == "mo" then 6 else if k == "o" then 7
    else if k == "y" then 8 else if k == "v" then 9 else if k == "p" then 10 else if k == "pm" then 11
    else 12
  }

  /** A key that no remaining case writes keeps the value it had. */
  lemma {:induction false} InsertKeeps(cases: seq<CandleType>, acc: map<string, CandleType>, key: string)
    requires key in acc
    requires forall i :: 0 <= i < |cases| ==> cases[i].ToString() != key
    ensures key in Insert(cases, acc) && Insert(cases, acc)[key] == acc[key]
    decreases |cases|
  {
    if cases != [] {
      InsertKeeps(cases[1..], acc[cases[0].ToString() := cases[0]], key);
    }
  }

  /** With distinct codes, each case is found under its own code. */
  lemma {:induction false} InsertFinds(cases: seq<CandleType>, acc: map<string, CandleType>, k: nat)
    requires k < |cases|
    requires forall i, j :: 0 <= i < j < |cases| ==> cases[i] != cases[j]
    ensures Insert(cases, acc)[cases[k].ToString()] == cases[k]
    decreases |cases|
  {
    CodesDistinct();
    var acc' := acc[cases[0].ToString() := cases[0]];
    if k == 0 {
      InsertKeeps(cases[1..], acc', cases[0].ToString());
    } else {
      InsertFinds(cases[1..], acc', k - 1);
    }
  }

  /** Each case is found in byString under its own code. */
  lemma ByStringFinds(c: CandleType)
    ensures c.ToString() in ByString() && ByString()[c.ToString()] == c
  {
    AllCasesDistinct();
    var k := c.Ordinal();
    InsertFinds(AllCases, map[], k);
    assert AllCases[k] == c;
  }

  lemma AllCasesDistinct()
    ensures forall i, j :: 0 <= i < j < |AllCases| ==> AllCases[i] != AllCases[j]
    ensures forall c: CandleType :: AllCases[c.Ordinal()] == c
  {
    AllCasesInOrder();
    forall i, j | 0 <= i < j < |AllCases| ensures AllCases[i] != AllCases[j] {
      assert AllCases[i].Ordinal() != AllCases[j].Ordinal();
    }
  }

  /** Every key of byString is the code of a folded case. */
  lemma ByStringKeyIsCode(k: string)
    requires k in ByString()
    ensures IsCode(k)
  {
    InsertKeysAreCodes(AllCases, map[], k);
  }

  /** A fold over codes-only keys adds only codes. */
  lemma InsertKeysAreCodes(cases: seq<CandleType>, acc: map<string, CandleType>, k: string)
    requires forall a :: a in acc ==> IsCode(a)
    requires k in Insert(cases, acc)
    ensures IsCode(k)
  {
    if k !in acc {
      var i :| 0 <= i < |cases| && cases[i].ToString() == k;
      LiteralsAreCodes();
      assert IsCode(cases[i].ToString());
    }
  }

  /** The keys of byString are exactly the thirteen codes. */
  lemma ByStringKeys(k: string)
    ensures k in ByString() <==> IsCode(k)
  {
    if k in ByString() {
      ByStringKeyIsCode(k);
    }
    if IsCode(k) {
      var i := CodeIndex(k);
      AllCasesInOrder();
      assert AllCases[i].ToString() == k;
      ByStringFinds(AllCases[i]);
    }
  }

  /** byString has exactly one entry per case: its code, mapped to it. */
  lemma ByStringLookup()
    ensures forall c: CandleType :: c.ToString() in ByString() && ByString()[c.ToString()] == c
    ensures forall k :: k in ByString() <==> IsCode(k)
  {
    forall c: CandleType ensures c.ToString() in ByString() && ByString()[c.ToString()] == c {
      ByStringFinds(c);
    }
    forall k ensures k in ByString() <==> IsCode(k) {
      ByStringKeys(k);
    }
  }

  // ---------------------------------------------------------------------
  // parse

  datatype CandleTypeError = MissingCandleType | UnknownCandleType

  function Lower(c: char): char
  {
    if 'A' <= c <= 'Z' then (c as int + 32) as char else c
  }

  /**
   * String.equalsIgnoreCase, not part of this model; stated as equality after
   * folding ASCII letters to lower case. It only relates strings of one
   * length, and every string equals itself.
   */
  function EqualsIgnoreCase(a: string, b: string): (r: bool)
    ensures r ==> |a| == |b|
    ensures a == b ==> r
    decreases |a|
  {
    |a| == |b| && (|a| == 0 || (Lower(a[0]) == Lower(b[0]) && EqualsIgnoreCase(a[1..], b[1..])))
  }

  predicate HasSuffixS(s: string)
  {
    |s| > 0 && s[|s| - 1] == 's'
  }

  /**
   * The slow path's test: the case's name starts with the symbol, ignoring
   * case, or the symbol ends in a lower-case "s" and the name is the rest of
   * it, ignoring case. So the name itself and its plural match, and no match
   * is longer than the name and its "s".
   */
  function FuzzyMatches(c: CandleType, symbol: string): (r: bool)
    ensures symbol == c.RawValue().name ==> r
    ensures symbol == c.RawValue().name + "s" ==> r
    ensures r ==> |symbol| <= |c.RawValue().name| + 1
  {
    var name := c.RawValue().name;
    (|name| >= |symbol| && EqualsIgnoreCase(name[..|symbol|], symbol)) ||
    (HasSuffixS(symbol) && EqualsIgnoreCase(name, symbol[..|symbol| - 1]))
  }

  /** `first(where:)`: the position of the first case that matches, |cases| when none does. */
  function FirstMatch(cases: seq<CandleType>, symbol: string): (k: nat)
    ensures k <= |cases|
    ensures k < |cases| ==> FuzzyMatches(cases[k], symbol)
    ensures forall i :: 0 <= i < k ==> !FuzzyMatches(cases[i], symbol)
    decreases |cases|
  {
    if cases == [] then 0
    else if FuzzyMatches(cases[0], symbol) then 0
    else 1 + FirstMatch(cases[1..], symbol)
  }

  /**
   * parse: an empty symbol is missing; an exact short code is found in
   * byString; otherwise the first case in declaration order that matches
   * loosely; otherwise the type is unknown.
   */
  function Parse(symbol: string): (r: Result<CandleType, CandleTypeError>)
    ensures r == Failure(MissingCandleType) <==> |symbol| == 0
    ensures |symbol| > 0 && symbol in ByString() ==> r == Success(ByString()[symbol])
    ensures r.Success? && symbol !in ByString() ==>
      FuzzyMatches(r.value, symbol) &&
      forall c: CandleType :: c.Ordinal() < r.value.Ordinal() ==> !FuzzyMatches(c, symbol)
    ensures r == Failure(UnknownCandleType) <==>
      |symbol| > 0 && symbol !in ByString() && forall c: CandleType :: !FuzzyMatches(c, symbol)
  {
    if |symbol| == 0 then Failure(MissingCandleType)
    else if symbol in ByString() then Success(ByString()[symbol])
    else
      var k := FirstMatch(AllCases, symbol);
      FirstMatchInOrder(symbol);
      if k < |AllCases| then Success(AllCases[k]) else Failure(UnknownCandleType)
  }

  /** The slow path over allCases, stated by declaration order. */
  lemma FirstMatchInOrder(symbol: string)
    ensures var k := FirstMatch(AllCases, symbol);
      (k == |AllCases| <==> forall c: CandleType :: !FuzzyMatches(c, symbol)) &&
      (k < |AllCases| ==> AllCases[k].Ordinal() == k && FuzzyMatches(AllCases[k], symbol)) &&
      (forall c: CandleType :: c.Ordinal() < k ==> !FuzzyMatches(c, symbol))
  {
    AllCasesInOrder();
    var k := FirstMatch(AllCases, symbol);
    forall c: CandleType | c.Ordinal() < k ensures !FuzzyMatches(c, symbol) {
      assert AllCases[c.Ordinal()] == c;
    }
  }

  /** Parsing a case's toString gives the case back, through the exact lookup. */
  lemma ParseToString(c: CandleType)
    ensures Parse(c.ToString()) == Success(c)
  {
    ByStringLookup();
  }

  /** Ordinals tell the cases apart. */
  lemma OrdinalInjective(a: CandleType, b: CandleType)
    requires a.Ordinal() == b.Ordinal()
    ensures a == b
  {
  }

  /**
   * The slow path's answer is c when c matches and no case declared before it
   * does (derived from the contract of Parse alone).
   */
  lemma ParseFirst(symbol: string, c: CandleType)
    requires |symbol| > 0 && symbol !in ByString() && FuzzyMatches(c, symbol)
    requires forall d: CandleType :: d.Ordinal() < c.Ordinal() ==> !FuzzyMatches(d, symbol)
    ensures Parse(symbol) == Success(c)
  {
    var r := Parse(symbol);
    assert r.Success?;
    assert !(r.value.Ordinal() < c.Ordinal());
    assert !(c.Ordinal() < r.value.Ordinal());
    OrdinalInjective(r.value, c);
  }

  /** A symbol that is not a short code misses the exact lookup. */
  lemma NotInByString(symbol: string)
    requires !IsCode(symbol)
    ensures symbol !in ByString()
  {
    ByStringLookup();
  }

  lemma MatchesForM()
    ensures FuzzyMatches(Minute, "M")
    ensures forall d: CandleType :: d.Ordinal() < Minute.Ordinal() ==> !FuzzyMatches(d, "M")
  {
    CaseNames();
    forall d: CandleType | d.Ordinal() < Minute.Ordinal() ensures !FuzzyMatches(d, "M") {
      match d
      case Tick =>
      case Second =>
    }
  }

  /** "M" abbreviates Minute, not Month: declaration order decides. */
  lemma ParseM()
    ensures Parse("M") == Success(Minute)
  {
    NotInByString("M");
    MatchesForM();
    ParseFirst("M", Minute);
  }

  lemma MatchesForD()
    ensures FuzzyMatches(Day, "D")
    ensures forall d: CandleType :: d.Ordinal() < Day.Ordinal() ==> !FuzzyMatches(d, "D")
  {
    CaseNames();
    forall d: CandleType | d.Ordinal() < Day.Ordinal() ensures !FuzzyMatches(d, "D") {
      match d
      case Tick =>
      case Second =>
      case Minute =>
      case Hour =>
    }
  }

  /** "D" is not a short code ("d" is), and it abbreviates Day. */
  lemma ParseD()
    ensures Parse("D") == Success(Day)
  {
    NotInByString("D");
    MatchesForD();
    ParseFirst("D", Day);
  }

  lemma DayEqualsIgnoreCase()
    ensures EqualsIgnoreCase("Day", "day")
  {
    assert EqualsIgnoreCase("y", "y") && EqualsIgnoreCase("ay", "ay");
    assert "Day"[1..] == "ay" && "day"[1..] == "ay";
  }

  lemma MatchesForDays()
    ensures FuzzyMatches(Day, "days")
    ensures forall d: CandleType :: d.Ordinal() < Day.Ordinal() ==> !FuzzyMatches(d, "days")
  {
    CaseNames();
    assert "days"[..|"days"| - 1] == "day";
    DayEqualsIgnoreCase();
    forall d: CandleType | d.Ordinal() < Day.Ordinal() ensures !FuzzyMatches(d, "days") {
      match d
      case Tick =>
      case Second =>
      case Minute =>
      case Hour =>
    }
  }

  /** A plural name is accepted through the trailing "s". */
  lemma ParseDays()
    ensures Parse("days") == Success(Day)
  {
    NotInByString("days");
    MatchesForDays();
    ParseFirst("days", Day);
  }

  lemma MatchesForXyz(c: CandleType)
    ensures !FuzzyMatches(c, "xyz")
  {
    CaseNames();
  }

  lemma ParseErrors()
    ensures Parse("") == Failure(MissingCandleType)
    ensures Parse("xyz") == Failure(UnknownCandleType)
  {
    NotInByString("xyz");
    NoMatchForXyz();
  }

  lemma NoMatchForXyz()
    ensures forall c: CandleType :: !FuzzyMatches(c, "xyz")
  {
    forall c: CandleType ensures !FuzzyMatches(c, "xyz") {
      MatchesForXyz(c);
    }
  }
}
