/** IcebergType and its lookup IcebergTypeExt.valueOf. */
module Iceberg {
  import EnumUtil

  /** Type of an iceberg order, with consecutive raw values from 0. */
  datatype IcebergType = Undefined | Native | Synthetic
  {
    function RawValue(): (r: nat)
      ensures r < 3
    {
      match this
      case Undefined => 0
      case Native => 1
      case Synthetic => 2
    }
  }

  /** `IcebergType.allCases`, in declaration order. */
  const AllCases: seq<IcebergType> := [Undefined, Native, Synthetic]

  function Code(t: IcebergType): nat
  {
    t.RawValue()
  }

  /** IcebergTypeExt.values: the table built once from all cases. */
  function Values(): (r: seq<IcebergType>)
    ensures |r| == 4
  {
    assert EnumUtil.MaxCode(AllCases, Code) == 2;
    EnumUtil.CreateEnumBitMaskArrayByValue(Undefined, AllCases, Code)
  }

  /**
   * IcebergTypeExt.valueOf: a plain array subscript, so an argument outside
   * the table is a precondition; every slot holds either the case with that raw
   * value or `undefined`.
   */
  function ValueOf(value: int): (r: IcebergType)
    requires 0 <= value < |Values()|
    ensures r.RawValue() == value || r == Undefined
  {
    Values()[value]
  }

  /** valueOf inverts rawValue, and the one unused slot holds `undefined`. */
  lemma ValueOfRawValue()
    ensures forall t: IcebergType :: ValueOf(t.RawValue()) == t
    ensures ValueOf(3) == Undefined
  {
    assert forall i :: 0 <= i < 3 ==> Code(AllCases[i]) == i;
    EnumUtil.ConsecutiveCodes(AllCases, Code);
    EnumUtil.CreateLookup(Undefined, AllCases, Code);
    assert forall t: IcebergType :: t == AllCases[t.RawValue()];
  }
}
