/**
 * The Hashtable object: its fields, its constructors and the methods that
 * update it. Every method is specified through the Table value of module
 * Tables that State() reads off the fields.
 */
module Htable {

  import opened Arith
  import opened Primes
  import opened Hashing
  import opened Probing
  import opened Tables

  class Hashtable<V> {
    /** The modulus of getNextLocation; prime. */
    var max: int
    /** The modulus of hash, fixed by makeArr. */
    var initialCapacity: int
    /** The slot list; makeArr gives it initialCapacity + 1 slots and nothing changes its length. */
    var arr: seq<Slot<V>>
    /** The number of items put has counted since the last resize. */
    var itemCount: nat
    const probeType: ProbeType

    /** What every method keeps: a prime max and a list sized by makeArr. */
    ghost predicate Valid()
      reads this
    {
      Prime(max) && initialCapacity >= 1 && |arr| == initialCapacity + 1
    }

    function Addr(): Addressing
      reads this
    {
      Addressing(probeType, max, initialCapacity)
    }

    /** The fields as a Table value. */
    function State(): Table<V>
      reads this
    {
      Table(arr, Addr(), itemCount)
    }

    /**
     * Hashtable(initialCapacity, pt): max is initialCapacity when that is
     * prime and the next prime otherwise, and the list is built for max.
     */
    constructor (capacity: nat, pt: ProbeType)
      ensures Valid() && probeType == pt
      ensures LeastPrimeFrom(capacity, max) && initialCapacity == max
      ensures State() == Initial(max, pt) && Sound(State())
    {
      probeType := pt;
      itemCount := 0;
      var prime := IsPrime(capacity);
      if prime {
        max := capacity;
      } else {
        var next := NextPrime(capacity);
        max := next;
      }
      new;
      var built := MakeArr(max);
      InitialSound<V>(max, pt);
    }

    /** Hashtable(initialCapacity): the same with linear probing. */
    constructor WithLinearProbe(capacity: nat)
      ensures Valid() && probeType == Linear
      ensures LeastPrimeFrom(capacity, max) && initialCapacity == max
      ensures State() == Initial(max, Linear) && Sound(State())
    {
      probeType := Linear;
      itemCount := 0;
      var prime := IsPrime(capacity);
      if prime {
        max := capacity;
      } else {
        var next := NextPrime(capacity);
        max := next;
      }
      new;
      var built := MakeArr(max);
      InitialSound<V>(max, Linear);
    }

    /** makeArr(size): sets initialCapacity to size and arr to size + 1 empty slots, and returns arr. */
    method MakeArr(size: int) returns (r: seq<Slot<V>>)
      requires size >= 0
      modifies this
      ensures initialCapacity == size && arr == r && r == seq(size + 1, _ => Empty)
      ensures max == old(max) && itemCount == old(itemCount)
    {
      initialCapacity := size;
      arr := [];
      for i := 0 to size + 1
        invariant arr == seq(i, _ => Empty)
        invariant initialCapacity == size && max == old(max) && itemCount == old(itemCount)
      {
        arr := arr + [Empty];
      }
      r := arr;
    }

    /**
     * resize(): max becomes the least prime from twice max and itemCount
     * drops to zero; the list keeps its slots, and initialCapacity stays.
     */
    method Resize()
      requires Valid()
      modifies this
      ensures Valid() && LeastPrimeFrom(2 * old(max), max)
      ensures State() == Resized(old(State()), max)
    {
      max := NextPrime(max * 2);
      itemCount := 0;
      var oldarr := arr;
      arr := [];
      arr := arr + oldarr;
    }

    /**
     * put(key, value); key None is a null key. The result is the exception
     * thrown, if any. First a resize when the load factor has reached
     * MAX_LOAD; from that state on, put does what Store says, and a thrown
     * exception leaves that state as it was.
     */
    method Put(key: Option<Key>, value: V) returns (thrown: Option<Error>)
      requires Valid()
      modifies this
      ensures Valid()
      ensures key.None? ==> thrown == Some(IllegalArgument) && State() == old(State())
      ensures key.Some? && NeedsResize(old(State())) ==> LeastPrimeFrom(2 * old(max), max)
      ensures key.Some? && !NeedsResize(old(State())) ==> max == old(max)
      ensures key.Some? ==>
        var mid := if NeedsResize(old(State())) then Resized(old(State()), max) else old(State());
        match Store(mid, key.value, value)
        case Ok(t) => thrown == None && State() == t
        case Err(e) => thrown == Some(e) && State() == mid
      ensures key.Some? && old(Sound(State())) && !NeedsResize(old(State())) && thrown == None ==>
        Sound(State()) && Tables.Get(State(), key.value) == Ok(Some(value))
    {
      if key.None? {
        return Some(IllegalArgument);
      }
      var k := key.value;
      ghost var start := old(State());
      if GetLoadFactor() >= MaxLoad {
        Resize();
      }
      ghost var mid := State();
      assert mid == if NeedsResize(start) then Resized(start, max) else start;
      var hash := HashCode(k, initialCapacity);
      var pointer := FindEmptyOrSameKey(arr, Addr(), hash, k, 0, Addr().Bound());
      assert pointer == Home(mid, k);
      if pointer.Err? {
        return Some(pointer.error);
      }
      var present := HasKey(k);
      assert present == Tables.HasKey(mid, k);
      // hasKey walks the probe sequence that findEmptyOrSameKey just walked
      // without error, so it cannot throw here.
      assert present.Ok?;
      if !present.value {
        itemCount := itemCount + 1;
      }
      arr := arr[pointer.value := Pair(k, value)];
      if Sound(start) && !NeedsResize(start) {
        StorePreservesSound(mid, k, value);
        StoreThenGet(mid, k, value);
      }
      return None;
    }

    /** get(key): the value stored under key, found along its probe sequence. */
    function Get(key: Key): (r: Result<Option<V>>)
      reads this
      requires Valid()
      ensures r.Ok? && r.value.Some? ==> exists q :: 0 <= q < |arr| && arr[q] == Pair(key, r.value.value)
      ensures Sound(State()) && r.Ok? ==> (r.value.Some? <==> key in OccupiedKeys(arr))
    {
      SoundGetAnswers(State(), key);
      Tables.Get(State(), key)
    }

    /** hasKey(key): get(key).isPresent(). */
    function HasKey(key: Key): (r: Result<bool>)
      reads this
      requires Valid()
      ensures r.Ok? && r.value ==> exists q :: 0 <= q < |arr| && arr[q].Pair? && arr[q].key == key
      ensures Sound(State()) && r.Ok? ==> (r.value <==> key in OccupiedKeys(arr))
    {
      match Get(key)
      case Ok(found) => Ok(found.Some?)
      case Err(e) => Err(e)
    }

    /**
     * getKeys(): the keys of the occupied slots in slot order; in a sound
     * table they are distinct and there are itemCount of them.
     */
    method GetKeys() returns (keys: seq<Key>)
      ensures keys == OccupiedKeys(arr)
      ensures Sound(State()) ==> NoDuplicates(keys) && |keys| == itemCount
    {
      keys := [];
      for i := 0 to |arr|
        invariant keys == OccupiedKeys(arr[..i])
      {
        assert arr[..i + 1][..i] == arr[..i];
        if arr[i].Pair? {
          keys := keys + [arr[i].key];
        }
      }
      assert arr[..|arr|] == arr;
      if Sound(State()) {
        SoundKeys(State());
      }
    }

    /** getLoadFactor(): itemCount / max, compared with MAX_LOAD as 5 * itemCount against 3 * max. */
    function GetLoadFactor(): (lf: real)
      reads this
      requires Valid()
      ensures lf * max as real == itemCount as real
      ensures lf >= MaxLoad <==> 5 * itemCount >= 3 * max
    {
      RatioAtLeastThreeFifths(itemCount, max);
      itemCount as real / max as real
    }

    /** getCapacity(): max, a prime. */
    function GetCapacity(): (c: int)
      reads this
      requires Valid()
      ensures c == max && Prime(c)
    {
      max
    }
  }
}
