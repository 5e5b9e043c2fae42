/**
 * IndexedEventSource (a source identifier with a name) and the part of
 * OrderSource that OrderBase relies on.
 */
module EventSources {
  import opened LongBits

  /**
   * An event source. Swift's class has two immutable `let` fields set by its
   * initializer, so a value of this datatype stands for one instance; the
   * reference identity `===` that `==` tests first is modelled by equality of
   * values, which it implies.
   */
  datatype IndexedEventSource = IndexedEventSource(identifier: Int64, name: string)
  {
    /** toString: the source's name. */
    function ToString(): (s: string)
      ensures s == name
    {
      name
    }
  }

  /** The default source, for events that do not support multiple sources. */
  const DefaultSource: IndexedEventSource := IndexedEventSource(0, "DEFAULT")

  /** `lhs == rhs`: the same instance, or the same identifier. */
  function Equals(lhs: IndexedEventSource, rhs: IndexedEventSource): (r: bool)
    ensures r <==> lhs.identifier == rhs.identifier
  {
    lhs == rhs || lhs.identifier == rhs.identifier
  }

  lemma DefaultSourceIsZero()
    ensures DefaultSource.identifier == 0 && DefaultSource.ToString() == "DEFAULT"
  {
  }

  /** `==` on sources is an equivalence relation. */
  lemma EqualsIsEquivalence(a: IndexedEventSource, b: IndexedEventSource, c: IndexedEventSource)
    ensures Equals(a, a)
    ensures Equals(a, b) ==> Equals(b, a)
    ensures Equals(a, b) && Equals(b, c) ==> Equals(a, c)
  {
  }

  /**
   * OrderSource.isSpecialSourceId. OrderSource is not part of this model; the
   * special sources are the six dxFeed ones with identifiers 1 to 6 (composite,
   * regional and aggregate bid and ask), which carry an exchange code in the
   * index.
   */
  function IsSpecialSourceId(sourceId: int): (r: bool)
    ensures r ==> 0 < sourceId < 0x1_0000
  {
    1 <= sourceId <= 6
  }
}
