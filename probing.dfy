/** Where the table looks next after a collision: linear, quadratic or double-hash probing. */
module Probing {

  import opened Hashing

  /** The table's probe strategy, fixed at construction. */
  datatype ProbeType = Linear | Quadratic | DoubleHashing

  /** DOUBLE_HASH_MAX: the modulus of the secondary hash. */
  const DoubleHashMax: int := 8

  /** doubleHash(key): the secondary step, `(hash(key) % DOUBLE_HASH_MAX) + 1`. */
  function DoubleHash(key: Key, initialCapacity: int): (r: int)
    requires initialCapacity > 0
    ensures Hash(key, initialCapacity) >= 0 ==> 1 <= r <= DoubleHashMax
    ensures -(DoubleHashMax - 2) <= r <= DoubleHashMax
  {
    Rem(Hash(key, initialCapacity), DoubleHashMax) + 1
  }

  /**
   * The fields of a table that decide which slots are probed for a key:
   * the probe strategy, the capacity `max` that probe positions are reduced
   * by, and the construction-time capacity that the hash is reduced by.
   */
  datatype Addressing = Addressing(probeType: ProbeType, max: int, initialCapacity: int)
  {
    predicate Valid() {
      max > 0 && initialCapacity > 0
    }

    /**
     * hash(key): the first slot probed. It is reduced by the construction-time
     * capacity, so it stays below that capacity after any resize; it is
     * negative only for a key whose accumulator is MIN_VALUE.
     */
    function Start(key: Key): (r: int)
      requires Valid()
      ensures -initialCapacity < r < initialCapacity
      ensures Accumulate(key) != MinInt32 ==> r >= 0
    {
      Hash(key, initialCapacity)
    }

    /**
     * getNextLocation(pos, key, stepNum): add the strategy's step to pos and
     * reduce with Java's `%` by max. The quadratic step adds stepNum squared to
     * the current position, not to the start.
     */
    function Next(pos: int, key: Key, stepNum: nat): (r: int)
      requires Valid()
      ensures pos >= 0 && (probeType.DoubleHashing? ==> Start(key) >= 0) ==> 0 <= r < max
    {
      var step := pos + match probeType
        case Linear => 1
        case DoubleHashing => DoubleHash(key, initialCapacity)
        case Quadratic => stepNum * stepNum;
      Rem(step, max)
    }

    /**
     * The number of slot visits after which a search is taken never to stop.
     * A search is determined by its position and stepNum % max, so once it has
     * made max * max + 1 visits without stopping it repeats itself forever,
     * which in the source is a recursion that ends in a stack overflow.
     */
    function Bound(): (b: nat)
      requires Valid()
      ensures b > max
    {
      assert max * max >= max by {
        assert max * max - max == max * (max - 1);
      }
      max * max + 1
    }
  }

  /** With a non-negative position each strategy's next slot is the Euclidean remainder of its step. */
  lemma NextLocationCases(a: Addressing, pos: int, key: Key, stepNum: nat)
    requires a.Valid() && pos >= 0
    requires a.probeType.DoubleHashing? ==> a.Start(key) >= 0
    ensures a.probeType.Linear? ==> a.Next(pos, key, stepNum) == (pos + 1) % a.max
    ensures a.probeType.Quadratic? ==> a.Next(pos, key, stepNum) == (pos + stepNum * stepNum) % a.max
    ensures a.probeType.DoubleHashing? ==>
      1 <= DoubleHash(key, a.initialCapacity) <= DoubleHashMax &&
      a.Next(pos, key, stepNum) == (pos + DoubleHash(key, a.initialCapacity)) % a.max
  {
    if a.probeType.Quadratic? {
      assert stepNum * stepNum >= 0;
    }
  }

  /** The first quadratic probe (stepNum 0) lands on the slot just visited. */
  lemma QuadraticFirstProbeRevisits(a: Addressing, pos: int, key: Key)
    requires a.Valid() && a.probeType.Quadratic? && 0 <= pos < a.max
    ensures a.Next(pos, key, 0) == pos
  {
  }
}
