/** The bound of the user-IO initialisation loop in hal_init, which walks
    the two-entry LED table s_hal_userio. */
module UserIo {
  import Arith

  /** Entries of s_hal_userio (LED0, LED1). */
  const USERIO_COUNT: nat := 2

  /** The indices `for (ix = 0; ix < bound; ix++)` visits, in order. */
  function Visited(bound: nat): (s: seq<nat>)
    ensures |s| == bound
    ensures forall i :: 0 <= i < bound ==> s[i] == i
  {
    seq(bound, i => i)
  }

  /** As written: `sizeof(s_hal_userio)`, the size of the table in bytes. */
  function BoundAsWritten(elemSize: nat): nat
  {
    USERIO_COUNT * elemSize
  }

  /** As intended: the number of entries,
      `sizeof(s_hal_userio) / sizeof(s_hal_userio[0])`. */
  function BoundIntended(elemSize: nat): nat
    requires elemSize > 0
  {
    BoundAsWritten(elemSize) / elemSize
  }

  /** A descriptor holds at least its two uint8_t fields, so the loop as
      written visits indices past the end of the table, and does so for
      USERIO_COUNT * (elemSize - 1) iterations. */
  lemma AsWrittenOverreads(elemSize: nat)
    requires elemSize >= 2
    ensures exists i :: 0 <= i < |Visited(BoundAsWritten(elemSize))| && Visited(BoundAsWritten(elemSize))[i] >= USERIO_COUNT
    ensures |Visited(BoundAsWritten(elemSize))| - USERIO_COUNT == USERIO_COUNT * (elemSize - 1)
  {
    var v := Visited(BoundAsWritten(elemSize));
    assert |v| >= 2 * USERIO_COUNT;
    assert v[USERIO_COUNT] == USERIO_COUNT;
  }

  /** The intended bound visits every entry exactly once and nothing beyond. */
  lemma IntendedStaysInTable(elemSize: nat)
    requires elemSize > 0
    ensures BoundIntended(elemSize) == USERIO_COUNT
    ensures Visited(BoundIntended(elemSize)) == [0, 1]
  {
    Arith.DivUnique(USERIO_COUNT * elemSize, elemSize, USERIO_COUNT, 0);
  }
}
