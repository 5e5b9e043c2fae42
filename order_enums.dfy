/**
 * The enumerations packed into OrderBase's `flags`: Side, Scope and
 * OrderAction. Their raw values and their `valueOf` tables are not part of
 * this model's source; they are stated here as the dxFeed API defines them
 * (Side: undefined 0, buy 1, sell 2; Scope: composite 0, regional 1,
 * aggregate 2, order 3; OrderAction: undefined 0 ... bust 8), with each
 * `valueOf` a subscript into EnumUtil's table.
 */
module OrderEnums {
  import EnumUtil

  datatype Side = UndefinedSide | Buy | Sell
  {
    function RawValue(): (r: nat)
      ensures r < 3
    {
      match this
      case UndefinedSide => 0
      case Buy => 1
      case Sell => 2
    }

    /** The raw value as the 32-bit pattern that `setBits` receives. */
    function RawBits(): (b: bv32)
      ensures b as int == RawValue()
    {
      match this
      case UndefinedSide => 0
      case Buy => 1
      case Sell => 2
    }
  }

  datatype Scope = Composite | Regional | Aggregate | Order
  {
    function RawValue(): (r: nat)
      ensures r < 4
    {
      match this
      case Composite => 0
      case Regional => 1
      case Aggregate => 2
      case Order => 3
    }

    function RawBits(): (b: bv32)
      ensures b as int == RawValue()
    {
      match this
      case Composite => 0
      case Regional => 1
      case Aggregate => 2
      case Order => 3
    }
  }

  datatype OrderAction = UndefinedAction | New | Replace | Modify | Delete | Partial | Execute | Trade | Bust
  {
    function RawValue(): (r: nat)
      ensures r < 9
    {
      match this
      case UndefinedAction => 0
      case New => 1
      case Replace => 2
      case Modify => 3
      case Delete => 4
      case Partial => 5
      case Execute => 6
      case Trade => 7
      case Bust => 8
    }

    function RawBits(): (b: bv32)
      ensures b as int == RawValue()
    {
      match this
      case UndefinedAction => 0
      case New => 1
      case Replace => 2
      case Modify => 3
      case Delete => 4
      case Partial => 5
      case Execute => 6
      case Trade => 7
      case Bust => 8
    }
  }

  const AllSides: seq<Side> := [UndefinedSide, Buy, Sell]
  const AllScopes: seq<Scope> := [Composite, Regional, Aggregate, Order]
  const AllActions: seq<OrderAction> :=
    [UndefinedAction, New, Replace, Modify, Delete, Partial, Execute, Trade, Bust]

  function SideCode(s: Side): nat { s.RawValue() }
  function ScopeCode(s: Scope): nat { s.RawValue() }
  function ActionCode(a: OrderAction): nat { a.RawValue() }

  function SideValues(): (r: seq<Side>)
    ensures |r| == 4
  {
    assert EnumUtil.MaxCode(AllSides, SideCode) == 2;
    EnumUtil.CreateEnumBitMaskArrayByValue(UndefinedSide, AllSides, SideCode)
  }

  function ScopeValues(): (r: seq<Scope>)
    ensures |r| == 4
  {
    assert EnumUtil.MaxCode(AllScopes, ScopeCode) == 3;
    EnumUtil.CreateEnumBitMaskArrayByValue(Composite, AllScopes, ScopeCode)
  }

  function ActionValues(): (r: seq<OrderAction>)
    ensures |r| == 16
  {
    assert EnumUtil.MaxCode(AllActions, ActionCode) == 8;
    EnumUtil.CreateEnumBitMaskArrayByValue(UndefinedAction, AllActions, ActionCode)
  }

  /** Side.valueOf: the side with that raw value, `undefined` for the free slot. */
  function SideValueOf(value: int): (r: Side)
    requires 0 <= value < |SideValues()|
    ensures r.RawValue() == value || r == UndefinedSide
  {
    SideValues()[value]
  }

  /** ScopeExt.valueOf. */
  function ScopeValueOf(value: int): (r: Scope)
    requires 0 <= value < |ScopeValues()|
    ensures r.RawValue() == value
  {
    ScopeLookup();
    ScopeValues()[value]
  }

  /** OrderActionExt.valueOf: `undefined` for the seven free slots 9..15. */
  function ActionValueOf(value: int): (r: OrderAction)
    requires 0 <= value < |ActionValues()|
    ensures r.RawValue() == value || r == UndefinedAction
  {
    ActionValues()[value]
  }

  lemma SideLookup()
    ensures forall s: Side :: SideValueOf(s.RawValue()) == s
    ensures SideValueOf(3) == UndefinedSide
  {
    assert forall i :: 0 <= i < 3 ==> SideCode(AllSides[i]) == i;
    EnumUtil.ConsecutiveCodes(AllSides, SideCode);
    EnumUtil.CreateLookup(UndefinedSide, AllSides, SideCode);
    assert forall s: Side :: s == AllSides[s.RawValue()];
  }

  lemma ScopeTable()
    ensures forall s: Scope :: ScopeValues()[s.RawValue()] == s
  {
    assert forall i :: 0 <= i < 4 ==> ScopeCode(AllScopes[i]) == i;
    EnumUtil.ConsecutiveCodes(AllScopes, ScopeCode);
    EnumUtil.CreateLookup(Composite, AllScopes, ScopeCode);
    forall s: Scope ensures ScopeValues()[s.RawValue()] == s {
      var k := s.RawValue();
      assert AllScopes[k] == s;
      assert ScopeCode(AllScopes[k]) == k;
    }
  }

  /** ScopeExt.valueOf inverts rawValue, and every 2-bit pattern is a scope's raw value. */
  lemma ScopeLookup()
    ensures forall s: Scope :: ScopeValues()[s.RawValue()] == s
    ensures forall v :: 0 <= v < 4 ==> ScopeValues()[v].RawValue() == v
  {
    ScopeTable();
    forall v | 0 <= v < 4 ensures ScopeValues()[v].RawValue() == v {
      var s := AllScopes[v];
      assert s.RawValue() == v;
    }
  }

  lemma ActionTableFacts()
    ensures EnumUtil.DistinctCodes(AllActions, ActionCode)
    ensures forall s: nat :: s >= 9 ==> EnumUtil.NoCode(AllActions, ActionCode, s)
  {
    assert forall i :: 0 <= i < 9 ==> ActionCode(AllActions[i]) == i;
    EnumUtil.ConsecutiveCodes(AllActions, ActionCode);
  }

  lemma ActionLookup()
    ensures forall a: OrderAction :: ActionValueOf(a.RawValue()) == a
  {
    ActionTableFacts();
    EnumUtil.CreateLookup(UndefinedAction, AllActions, ActionCode);
    forall a: OrderAction ensures ActionValueOf(a.RawValue()) == a {
      var k := a.RawValue();
      assert AllActions[k] == a;
      assert ActionCode(AllActions[k]) == k;
    }
  }

  lemma ActionFreeSlots()
    ensures forall v :: 9 <= v < 16 ==> ActionValueOf(v) == UndefinedAction
  {
    ActionTableFacts();
    EnumUtil.CreateLookup(UndefinedAction, AllActions, ActionCode);
  }

  /** Side.valueOf of a 2-bit pattern: the side with that raw value, or undefined for pattern 3. */
  lemma SideDecode(v: int)
    requires 0 <= v < 4
    ensures v < 3 ==> SideValueOf(v).RawValue() == v
    ensures v == 3 ==> SideValueOf(v) == UndefinedSide
  {
    SideLookup();
    if v < 3 {
      assert AllSides[v].RawValue() == v;
      assert SideValueOf(AllSides[v].RawValue()) == AllSides[v];
    }
  }

  /** The actions in declaration order have the raw values 0 to 8. */
  lemma ActionCodes()
    ensures |AllActions| == 9 && forall i :: 0 <= i < 9 ==> AllActions[i].RawValue() == i
  {
  }

  /** OrderActionExt.valueOf of a 4-bit pattern: the action with that raw value, or undefined from 9 on. */
  lemma ActionDecode(v: int)
    requires 0 <= v < 16
    ensures v < 9 ==> ActionValueOf(v).RawValue() == v
    ensures v >= 9 ==> ActionValueOf(v) == UndefinedAction
  {
    if v < 9 {
      ActionCodes();
      var a := AllActions[v];
      ActionLookup();
      assert ActionValueOf(a.RawValue()) == a;
    } else {
      ActionFreeSlots();
    }
  }
}
