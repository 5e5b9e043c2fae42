/**
 * EnumUtil.createEnumBitMaskArrayByValue, the lookup table behind the
 * `valueOf` of IcebergType, Side, Scope and OrderAction. The helper is not
 * part of this model; it is stated here as the dxFeed utility documents it:
 * a table whose length is the smallest power of two above the largest code,
 * filled with the default value, in which each case is stored at the slot
 * numbered by its code.
 */
module EnumUtil {

  /** The largest code among the cases (0 for none). */
  function MaxCode<T>(cases: seq<T>, code: T -> nat): (r: nat)
    ensures forall i :: 0 <= i < |cases| ==> code(cases[i]) <= r
  {
    if cases == [] then 0
    else
      var rest := MaxCode(cases[1..], code);
      if code(cases[0]) > rest then code(cases[0]) else rest
  }

  /** The smallest power of two that is at least p and greater than m. */
  function SizeFrom(p: nat, m: nat): (r: nat)
    requires p >= 1
    ensures r > m && r >= p
    decreases m + 1 - p
  {
    if p > m then p else SizeFrom(2 * p, m)
  }

  /** Where no two cases share a code. */
  predicate DistinctCodes<T>(cases: seq<T>, code: T -> nat)
  {
    forall i, j :: 0 <= i < j < |cases| ==> code(cases[i]) != code(cases[j])
  }

  /** Slot s is no case's code. */
  predicate NoCode<T>(cases: seq<T>, code: T -> nat, s: nat)
  {
    forall i :: 0 <= i < |cases| ==> code(cases[i]) != s
  }

  /** Cases listed in the order of their codes 0, 1, 2, ... have distinct codes. */
  lemma ConsecutiveCodes<T>(cases: seq<T>, code: T -> nat)
    requires forall i :: 0 <= i < |cases| ==> code(cases[i]) == i
    ensures DistinctCodes(cases, code)
    ensures forall s: nat :: s >= |cases| ==> NoCode(cases, code, s)
  {
  }

  /** Stores the cases one after another at the slots numbered by their codes. */
  function Place<T(==)>(table: seq<T>, cases: seq<T>, code: T -> nat): (r: seq<T>)
    requires forall i :: 0 <= i < |cases| ==> code(cases[i]) < |table|
    ensures |r| == |table|
    ensures forall s :: 0 <= s < |r| ==> r[s] == table[s] || (r[s] in cases && code(r[s]) == s)
    decreases |cases|
  {
    if cases == [] then table
    else
      var t := table[code(cases[0]) := cases[0]];
      var r := Place(t, cases[1..], code);
      assert forall s :: 0 <= s < |r| && r[s] in cases[1..] ==> r[s] in cases;
      r
  }

  function CreateEnumBitMaskArrayByValue<T(==)>(defaultValue: T, allCases: seq<T>, code: T -> nat): (r: seq<T>)
    ensures |r| > MaxCode(allCases, code)
    ensures forall s :: 0 <= s < |r| ==> r[s] == defaultValue || (r[s] in allCases && code(r[s]) == s)
  {
    var n := SizeFrom(1, MaxCode(allCases, code));
    Place(seq(n, _ => defaultValue), allCases, code)
  }

  /** With distinct codes, every case is found at its own code after placing. */
  lemma {:induction false} PlaceFindsCase<T>(table: seq<T>, cases: seq<T>, code: T -> nat, k: nat)
    requires forall i :: 0 <= i < |cases| ==> code(cases[i]) < |table|
    requires DistinctCodes(cases, code)
    requires k < |cases|
    ensures Place(table, cases, code)[code(cases[k])] == cases[k]
    decreases |cases|
  {
    var t := table[code(cases[0]) := cases[0]];
    if k == 0 {
      PlaceKeepsSlot(t, cases[1..], code, code(cases[0]));
    } else {
      assert DistinctCodes(cases[1..], code) by {
        forall i, j | 0 <= i < j < |cases[1..]|
          ensures code(cases[1..][i]) != code(cases[1..][j])
        {
          assert cases[1..][i] == cases[i + 1] && cases[1..][j] == cases[j + 1];
        }
      }
      PlaceFindsCase(t, cases[1..], code, k - 1);
    }
  }

  /** A slot that is no case's code keeps what the table held. */
  lemma {:induction false} PlaceKeepsSlot<T>(table: seq<T>, cases: seq<T>, code: T -> nat, s: nat)
    requires forall i :: 0 <= i < |cases| ==> code(cases[i]) < |table|
    requires NoCode(cases, code, s)
    requires s < |table|
    ensures Place(table, cases, code)[s] == table[s]
    decreases |cases|
  {
    if cases != [] {
      var t := table[code(cases[0]) := cases[0]];
      PlaceKeepsSlot(t, cases[1..], code, s);
    }
  }

  /**
   * The table's lookup at a case's code gives that case back, and a slot that
   * is no case's code holds the default value.
   */
  lemma CreateLookup<T>(defaultValue: T, allCases: seq<T>, code: T -> nat)
    requires DistinctCodes(allCases, code)
    ensures forall k :: 0 <= k < |allCases| ==>
      CreateEnumBitMaskArrayByValue(defaultValue, allCases, code)[code(allCases[k])] == allCases[k]
    ensures var table := CreateEnumBitMaskArrayByValue(defaultValue, allCases, code);
      forall s :: 0 <= s < |table| && NoCode(allCases, code, s) ==> table[s] == defaultValue
  {
    var n := SizeFrom(1, MaxCode(allCases, code));
    var table := seq(n, _ => defaultValue);
    forall k | 0 <= k < |allCases|
      ensures CreateEnumBitMaskArrayByValue(defaultValue, allCases, code)[code(allCases[k])] == allCases[k]
    {
      PlaceFindsCase(table, allCases, code, k);
    }
    forall s | 0 <= s < n && NoCode(allCases, code, s)
      ensures CreateEnumBitMaskArrayByValue(defaultValue, allCases, code)[s] == defaultValue
    {
      PlaceKeepsSlot(table, allCases, code, s);
    }
  }
}
