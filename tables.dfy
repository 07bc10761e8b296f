/**
 * The table as a value: its slot list, its addressing fields and its item
 * count, the two recursive slot searches, lookup, and what `put` does once
 * the resize check is behind it. The class in module Htable holds the same
 * fields and is specified through these functions.
 */
module Tables {

  import opened Arith
  import opened Hashing
  import opened Probing

  /** A slot of the list `arr`: the sentinel `Pair(null, null)` is Empty. */
  datatype Slot<V> = Empty | Pair(key: Key, value: V)

  /** The exceptions the operations can end in. */
  datatype Error =
    | IllegalArgument            // put with a null key
    | IndexOutOfBounds(index: int) // a list access outside the list
    | Exhausted                  // a search that never stops (unbounded recursion)

  datatype Result<T> = Ok(value: T) | Err(error: Error)

  /** Java's `Optional`, and a nullable reference. */
  datatype Option<T> = None | Some(value: T)

  /**
   * findEmptyOrSameKey(pos, key, stepNum): the first slot along the probe
   * sequence from pos that is empty or holds key. fuel bounds the number of
   * slot visits; running out of it is the Exhausted outcome.
   */
  function FindEmptyOrSameKey<V>(arr: seq<Slot<V>>, a: Addressing, pos: int, key: Key, stepNum: nat, fuel: nat): (r: Result<nat>)
    requires a.Valid()
    ensures r.Ok? ==> r.value < |arr| && (arr[r.value].Empty? || arr[r.value].key == key)
    decreases fuel
  {
    if fuel == 0 then Err(Exhausted)
    else if pos < 0 || |arr| <= pos then Err(IndexOutOfBounds(pos))
    else if arr[pos].Empty? then Ok(pos)
    else if arr[pos].key == key then Ok(pos)
    else FindEmptyOrSameKey(arr, a, a.Next(pos, key, stepNum), key, stepNum + 1, fuel - 1)
  }

  /**
   * find(pos, key, stepNum): the same walk, answering with the value stored
   * under key, or None on reaching an empty slot.
   */
  function Find<V>(arr: seq<Slot<V>>, a: Addressing, pos: int, key: Key, stepNum: nat, fuel: nat): (r: Result<Option<V>>)
    requires a.Valid()
    ensures r.Ok? && r.value.Some? ==> exists q :: 0 <= q < |arr| && arr[q] == Pair(key, r.value.value)
    decreases fuel
  {
    if fuel == 0 then Err(Exhausted)
    else if pos < 0 || |arr| <= pos then Err(IndexOutOfBounds(pos))
    else if arr[pos].Empty? then Ok(None)
    else if arr[pos].key == key then Ok(Some(arr[pos].value))
    else Find(arr, a, a.Next(pos, key, stepNum), key, stepNum + 1, fuel - 1)
  }

  /** The two searches walk the same probe sequence and stop at the same slot. */
  lemma {:induction false} FindAgreesWithFindEmptyOrSameKey<V>(arr: seq<Slot<V>>, a: Addressing, pos: int, key: Key, stepNum: nat, fuel: nat)
    requires a.Valid()
    ensures Find(arr, a, pos, key, stepNum, fuel) ==
      match FindEmptyOrSameKey(arr, a, pos, key, stepNum, fuel)
      case Ok(p) => Ok(if arr[p].Pair? then Some(arr[p].value) else None)
      case Err(e) => Err(e)
    decreases fuel
  {
    if fuel > 0 && 0 <= pos < |arr| && arr[pos].Pair? && arr[pos].key != key {
      FindAgreesWithFindEmptyOrSameKey(arr, a, a.Next(pos, key, stepNum), key, stepNum + 1, fuel - 1);
    }
  }

  /** Writing key into the slot a search for key stopped at leaves that search's outcome unchanged. */
  lemma {:induction false} SearchAfterWriteAtStop<V>(arr: seq<Slot<V>>, a: Addressing, pos: int, key: Key, stepNum: nat, fuel: nat, v: V)
    requires a.Valid()
    requires FindEmptyOrSameKey(arr, a, pos, key, stepNum, fuel).Ok?
    ensures var p := FindEmptyOrSameKey(arr, a, pos, key, stepNum, fuel).value;
      FindEmptyOrSameKey(arr[p := Pair(key, v)], a, pos, key, stepNum, fuel) == Ok(p)
    decreases fuel
  {
    var p := FindEmptyOrSameKey(arr, a, pos, key, stepNum, fuel).value;
    if pos != p {
      SearchAfterWriteAtStop(arr, a, a.Next(pos, key, stepNum), key, stepNum + 1, fuel - 1, v);
    }
  }

  /**
   * Writing a pair into a slot that is empty, or that already holds a pair
   * with the same key, does not change any search that did not stop there.
   */
  lemma {:induction false} SearchSurvivesWrite<V>(arr: seq<Slot<V>>, a: Addressing, pos: int, key: Key, stepNum: nat, fuel: nat, p: int, x: Slot<V>)
    requires a.Valid() && 0 <= p < |arr| && x.Pair?
    requires arr[p].Empty? || arr[p].key == x.key
    requires FindEmptyOrSameKey(arr, a, pos, key, stepNum, fuel) != Ok(p)
    ensures FindEmptyOrSameKey(arr[p := x], a, pos, key, stepNum, fuel) == FindEmptyOrSameKey(arr, a, pos, key, stepNum, fuel)
    decreases fuel
  {
    if fuel > 0 && 0 <= pos < |arr| && arr[pos].Pair? && arr[pos].key != key {
      SearchSurvivesWrite(arr, a, a.Next(pos, key, stepNum), key, stepNum + 1, fuel - 1, p, x);
    }
  }

  /** In linear mode a search that has an empty slot ahead of it within its fuel stops at a slot. */
  lemma {:induction false} LinearSearchStops<V>(arr: seq<Slot<V>>, a: Addressing, pos: int, key: Key, stepNum: nat, fuel: nat, e: int)
    requires a.Valid() && a.probeType.Linear? && a.max <= |arr|
    requires 0 <= pos < a.max && 0 <= e < a.max && arr[e].Empty?
    requires fuel > (if pos <= e then e - pos else e - pos + a.max)
    ensures FindEmptyOrSameKey(arr, a, pos, key, stepNum, fuel).Ok?
    decreases fuel
  {
    if arr[pos].Pair? && arr[pos].key != key {
      var next := a.Next(pos, key, stepNum);
      NextLocationCases(a, pos, key, stepNum);
      if pos + 1 < a.max {
        DivModUnique(pos + 1, a.max, 0, pos + 1);
      } else {
        DivModUnique(pos + 1, a.max, 1, 0);
      }
      LinearSearchStops(arr, a, next, key, stepNum + 1, fuel - 1, e);
    }
  }

  /** The keys of the occupied slots, in slot order: the list getKeys builds. */
  function OccupiedKeys<V>(arr: seq<Slot<V>>): (keys: seq<Key>)
    ensures |keys| <= |arr|
    decreases |arr|
  {
    if |arr| == 0 then []
    else OccupiedKeys(arr[..|arr| - 1]) + (if arr[|arr| - 1].Pair? then [arr[|arr| - 1].key] else [])
  }

  /** A key is listed exactly when some slot holds it. */
  lemma {:induction false} OccupiedKeysMembership<V>(arr: seq<Slot<V>>, key: Key)
    ensures key in OccupiedKeys(arr) <==> exists q :: 0 <= q < |arr| && arr[q].Pair? && arr[q].key == key
    decreases |arr|
  {
    if |arr| > 0 {
      var pre := arr[..|arr| - 1];
      OccupiedKeysMembership(pre, key);
      if key in OccupiedKeys(pre) {
        var q :| 0 <= q < |pre| && pre[q].Pair? && pre[q].key == key;
        assert arr[q] == pre[q];
      }
      if exists q :: 0 <= q < |arr| && arr[q].Pair? && arr[q].key == key {
        var q :| 0 <= q < |arr| && arr[q].Pair? && arr[q].key == key;
        if q < |pre| {
          assert pre[q] == arr[q];
        }
      }
    }
  }

  /** Storing a pair into a slot adds one key exactly when the slot was empty. */
  lemma {:induction false} OccupiedKeysAfterWrite<V>(arr: seq<Slot<V>>, p: int, key: Key, v: V)
    requires 0 <= p < |arr|
    ensures |OccupiedKeys(arr[p := Pair(key, v)])| == |OccupiedKeys(arr)| + (if arr[p].Empty? then 1 else 0)
    decreases |arr|
  {
    var arr' := arr[p := Pair(key, v)];
    var n := |arr|;
    if p == n - 1 {
      assert arr'[..n - 1] == arr[..n - 1];
    } else {
      assert arr'[..n - 1] == arr[..n - 1][p := Pair(key, v)];
      OccupiedKeysAfterWrite(arr[..n - 1], p, key, v);
    }
  }

  /** A list of empty slots has no keys. */
  lemma {:induction false} AllEmptyNoKeys<V>(arr: seq<Slot<V>>)
    requires forall i :: 0 <= i < |arr| ==> arr[i].Empty?
    ensures OccupiedKeys(arr) == []
    decreases |arr|
  {
    if |arr| > 0 {
      AllEmptyNoKeys(arr[..|arr| - 1]);
    }
  }

  /** Fewer keys than slots leaves an empty slot. */
  lemma {:induction false} EmptySlotExists<V>(arr: seq<Slot<V>>)
    requires |OccupiedKeys(arr)| < |arr|
    ensures exists i :: 0 <= i < |arr| && arr[i].Empty?
    decreases |arr|
  {
    var n := |arr|;
    if arr[n - 1].Pair? {
      var pre := arr[..n - 1];
      EmptySlotExists(pre);
      var i :| 0 <= i < |pre| && pre[i].Empty?;
      assert arr[i] == pre[i];
    }
  }

  ghost predicate NoDuplicates(keys: seq<Key>) {
    forall i, j :: 0 <= i < j < |keys| ==> keys[i] != keys[j]
  }

  /** No two occupied slots hold the same key. */
  ghost predicate SlotsDistinct<V>(arr: seq<Slot<V>>) {
    forall i, j :: 0 <= i < |arr| && 0 <= j < |arr| && arr[i].Pair? && arr[j].Pair? && arr[i].key == arr[j].key ==> i == j
  }

  /** Distinct slots list distinct keys. */
  lemma {:induction false} DistinctSlotsDistinctKeys<V>(arr: seq<Slot<V>>)
    requires SlotsDistinct(arr)
    ensures NoDuplicates(OccupiedKeys(arr))
    decreases |arr|
  {
    var n := |arr|;
    if n > 0 {
      var pre := arr[..n - 1];
      assert SlotsDistinct(pre) by {
        forall i, j | 0 <= i < |pre| && 0 <= j < |pre| && pre[i].Pair? && pre[j].Pair? && pre[i].key == pre[j].key
          ensures i == j
        {
          assert arr[i] == pre[i] && arr[j] == pre[j];
        }
      }
      DistinctSlotsDistinctKeys(pre);
      if arr[n - 1].Pair? {
        var k := arr[n - 1].key;
        OccupiedKeysMembership(pre, k);
        assert forall q :: 0 <= q < |pre| ==> pre[q] == arr[q];
      }
    }
  }

  /** The object's state: the slot list, the addressing fields and itemCount. */
  datatype Table<V> = Table(arr: seq<Slot<V>>, addressing: Addressing, itemCount: nat)

  /**
   * The slot put chooses for key: findEmptyOrSameKey(hash(key), key, 0). It
   * is a slot of the list that is empty or already holds key; a negative hash
   * is an index out of bounds at once.
   */
  function Home<V>(t: Table<V>, key: Key): (r: Result<nat>)
    requires t.addressing.Valid()
    ensures r.Ok? ==> r.value < |t.arr| && (t.arr[r.value].Empty? || t.arr[r.value].key == key)
    ensures t.addressing.Start(key) < 0 ==> r == Err(IndexOutOfBounds(t.addressing.Start(key)))
  {
    FindEmptyOrSameKey(t.arr, t.addressing, t.addressing.Start(key), key, 0, t.addressing.Bound())
  }

  /**
   * get(key): find(hash(key), key, 0). A value it finds is stored under key,
   * and it throws exactly when put's slot search for the key would.
   */
  function Get<V>(t: Table<V>, key: Key): (r: Result<Option<V>>)
    requires t.addressing.Valid()
    ensures r.Ok? && r.value.Some? ==> exists q :: 0 <= q < |t.arr| && t.arr[q] == Pair(key, r.value.value)
    ensures r.Err? <==> Home(t, key).Err?
  {
    FindAgreesWithFindEmptyOrSameKey(t.arr, t.addressing, t.addressing.Start(key), key, 0, t.addressing.Bound());
    Find(t.arr, t.addressing, t.addressing.Start(key), key, 0, t.addressing.Bound())
  }

  /**
   * hasKey(key): get(key).isPresent(). A yes means some slot holds key, and
   * it throws exactly when get does.
   */
  function HasKey<V>(t: Table<V>, key: Key): (r: Result<bool>)
    requires t.addressing.Valid()
    ensures r == Ok(true) ==> exists q :: 0 <= q < |t.arr| && t.arr[q].Pair? && t.arr[q].key == key
    ensures r.Err? <==> Home(t, key).Err?
  {
    match Get(t, key)
    case Ok(found) => Ok(found.Some?)
    case Err(e) => Err(e)
  }

  /** get and hasKey answer from the slot that put would choose for the key. */
  lemma GetAtHome<V>(t: Table<V>, key: Key)
    requires t.addressing.Valid()
    ensures Get(t, key) ==
      match Home(t, key)
      case Ok(p) => Ok(if t.arr[p].Pair? then Some(t.arr[p].value) else None)
      case Err(e) => Err(e)
    ensures HasKey(t, key) ==
      match Home(t, key)
      case Ok(p) => Ok(t.arr[p].Pair?)
      case Err(e) => Err(e)
  {
    FindAgreesWithFindEmptyOrSameKey(t.arr, t.addressing, t.addressing.Start(key), key, 0, t.addressing.Bound());
  }

  /** MAX_LOAD, the load factor at which put resizes first. */
  const MaxLoad: real := 0.6

  /** getLoadFactor(): itemCount / max, as a fraction: times max it is itemCount. */
  function LoadFactor<V>(t: Table<V>): (r: real)
    requires t.addressing.Valid()
    ensures r * t.addressing.max as real == t.itemCount as real
    ensures r >= 0.0
  {
    t.itemCount as real / t.addressing.max as real
  }

  /**
   * put resizes before storing when the load factor has reached MAX_LOAD;
   * in integers, when 5 * itemCount >= 3 * max.
   */
  function NeedsResize<V>(t: Table<V>): (r: bool)
    requires t.addressing.Valid()
    ensures r <==> 5 * t.itemCount >= 3 * t.addressing.max
  {
    RatioAtLeastThreeFifths(t.itemCount, t.addressing.max);
    LoadFactor(t) >= MaxLoad
  }

  /** The state resize leaves: max raised to newMax and itemCount zeroed; the slot list is unchanged. */
  function Resized<V>(t: Table<V>, newMax: int): (r: Table<V>)
    ensures r.arr == t.arr && r.addressing.initialCapacity == t.addressing.initialCapacity
    ensures r.addressing.probeType == t.addressing.probeType && r.addressing.max == newMax && r.itemCount == 0
  {
    t.(addressing := t.addressing.(max := newMax), itemCount := 0)
  }

  /**
   * put(key, value) after the resize check: find the slot for key, count the
   * key if hasKey says it is new, and write the pair into the slot. An error
   * in either search is thrown before anything changes.
   */
  function Store<V>(t: Table<V>, key: Key, value: V): (r: Result<Table<V>>)
    requires t.addressing.Valid()
    ensures r.Ok? ==> Home(t, key).Ok? && r.value.addressing == t.addressing && |r.value.arr| == |t.arr|
    ensures r.Ok? ==> r.value.arr[Home(t, key).value] == Pair(key, value)
    ensures r.Ok? ==> forall i :: 0 <= i < |t.arr| && i != Home(t, key).value ==> r.value.arr[i] == t.arr[i]
    ensures r.Err? ==> Home(t, key).Err? || HasKey(t, key).Err?
  {
    match Home(t, key)
    case Err(e) => Err(e)
    case Ok(p) =>
      match HasKey(t, key)
      case Err(e) => Err(e)
      case Ok(present) =>
        Ok(Table(t.arr[p := Pair(key, value)], t.addressing, if present then t.itemCount else t.itemCount + 1))
  }

  /**
   * The invariant of a table that has not been resized: the hash modulus is
   * the capacity, the list has the capacity plus one slots, itemCount counts
   * the occupied slots, and every stored key is found, by the probe sequence
   * from its hash, at the slot that holds it.
   */
  ghost predicate Sound<V>(t: Table<V>) {
    && t.addressing.Valid()
    && t.addressing.max == t.addressing.initialCapacity
    && |t.arr| == t.addressing.max + 1
    && t.itemCount == |OccupiedKeys(t.arr)|
    && forall q :: 0 <= q < |t.arr| && t.arr[q].Pair? ==> Home(t, t.arr[q].key) == Ok(q)
  }

  /** The table the constructors build: capacity + 1 empty slots and no items. */
  function Initial<V>(capacity: int, pt: ProbeType): (t: Table<V>)
    requires capacity >= 1
    ensures t.addressing.Valid() && |t.arr| == capacity + 1
  {
    Table(seq(capacity + 1, _ => Empty), Addressing(pt, capacity, capacity), 0)
  }

  /** A freshly built table satisfies the invariant and holds no keys. */
  lemma InitialSound<V>(capacity: int, pt: ProbeType)
    requires capacity >= 1
    ensures Sound(Initial<V>(capacity, pt)) && OccupiedKeys(Initial<V>(capacity, pt).arr) == []
  {
    AllEmptyNoKeys(Initial<V>(capacity, pt).arr);
  }

  /** In a sound table no key occupies two slots, so getKeys lists itemCount keys without repetition. */
  lemma SoundKeys<V>(t: Table<V>)
    requires Sound(t)
    ensures SlotsDistinct(t.arr)
    ensures NoDuplicates(OccupiedKeys(t.arr)) && |OccupiedKeys(t.arr)| == t.itemCount
  {
    assert SlotsDistinct(t.arr) by {
      forall i, j | 0 <= i < |t.arr| && 0 <= j < |t.arr| && t.arr[i].Pair? && t.arr[j].Pair? && t.arr[i].key == t.arr[j].key
        ensures i == j
      {
        assert Home(t, t.arr[i].key) == Ok(i);
        assert Home(t, t.arr[j].key) == Ok(j);
      }
    }
    DistinctSlotsDistinctKeys(t.arr);
  }

  /** In a sound table get answers Some(w) exactly for the pairs (key, w) some slot holds. */
  lemma SoundGet<V>(t: Table<V>, key: Key, w: V)
    requires Sound(t)
    ensures Get(t, key) == Ok(Some(w)) <==> exists q :: 0 <= q < |t.arr| && t.arr[q] == Pair(key, w)
  {
    GetAtHome(t, key);
    if exists q :: 0 <= q < |t.arr| && t.arr[q] == Pair(key, w) {
      var q :| 0 <= q < |t.arr| && t.arr[q] == Pair(key, w);
      assert Home(t, t.arr[q].key) == Ok(q);
    }
  }

  /** A key a sound table does not hold is never found by get. */
  lemma SoundGetAbsent<V>(t: Table<V>, key: Key)
    requires Sound(t) && key !in OccupiedKeys(t.arr)
    ensures !(Get(t, key).Ok? && Get(t, key).value.Some?)
  {
    OccupiedKeysMembership(t.arr, key);
  }

  /**
   * put throws exactly what findEmptyOrSameKey throws: once that search has
   * stopped, the hasKey search walks the same slots and stops too.
   */
  lemma StoreErrors<V>(t: Table<V>, key: Key, value: V, e: Error)
    requires t.addressing.Valid()
    ensures Store(t, key, value) == Err(e) <==> Home(t, key) == Err(e)
  {
    GetAtHome(t, key);
  }

  /** In a sound table get, when it answers, answers Some exactly for the keys some slot holds. */
  lemma SoundGetAnswers<V>(t: Table<V>, key: Key)
    ensures Sound(t) && Get(t, key).Ok? ==> (Get(t, key).value.Some? <==> key in OccupiedKeys(t.arr))
  {
    if Sound(t) {
      GetAtHome(t, key);
      OccupiedKeysMembership(t.arr, key);
      if key in OccupiedKeys(t.arr) {
        var q :| 0 <= q < |t.arr| && t.arr[q].Pair? && t.arr[q].key == key;
        assert Home(t, t.arr[q].key) == Ok(q);
      }
    }
  }

  /** After a successful store, get finds the stored value under the key. */
  lemma StoreThenGet<V>(t: Table<V>, key: Key, value: V)
    requires t.addressing.Valid() && Store(t, key, value).Ok?
    ensures Get(Store(t, key, value).value, key) == Ok(Some(value))
  {
    var t' := Store(t, key, value).value;
    SearchAfterWriteAtStop(t.arr, t.addressing, t.addressing.Start(key), key, 0, t.addressing.Bound(), value);
    GetAtHome(t', key);
  }

  /** A successful store counts the key exactly when hasKey answered false, which in a sound table means the key was not held. */
  lemma StoreCount<V>(t: Table<V>, key: Key, value: V)
    requires Sound(t) && Store(t, key, value).Ok?
    ensures HasKey(t, key) == Ok(key in OccupiedKeys(t.arr))
    ensures Store(t, key, value).value.itemCount == t.itemCount + (if key in OccupiedKeys(t.arr) then 0 else 1)
  {
    var p := Home(t, key).value;
    GetAtHome(t, key);
    OccupiedKeysMembership(t.arr, key);
    if key in OccupiedKeys(t.arr) {
      var q :| 0 <= q < |t.arr| && t.arr[q].Pair? && t.arr[q].key == key;
      assert Home(t, t.arr[q].key) == Ok(q);
    }
  }

  /** A successful store keeps a sound table sound. */
  lemma StorePreservesSound<V>(t: Table<V>, key: Key, value: V)
    requires Sound(t) && Store(t, key, value).Ok?
    ensures Sound(Store(t, key, value).value)
  {
    var t' := Store(t, key, value).value;
    var p := Home(t, key).value;
    var a := t.addressing;
    assert t'.arr == t.arr[p := Pair(key, value)];
    StoreCount(t, key, value);
    OccupiedKeysMembership(t.arr, key);
    OccupiedKeysAfterWrite(t.arr, p, key, value);
    assert t.arr[p].Empty? <==> key !in OccupiedKeys(t.arr);
    forall q | 0 <= q < |t'.arr| && t'.arr[q].Pair?
      ensures Home(t', t'.arr[q].key) == Ok(q)
    {
      if q == p {
        SearchAfterWriteAtStop(t.arr, a, a.Start(key), key, 0, a.Bound(), value);
      } else {
        var k := t.arr[q].key;
        assert Home(t, k) == Ok(q);
        SearchSurvivesWrite(t.arr, a, a.Start(k), k, 0, a.Bound(), p, Pair(key, value));
      }
    }
  }

  /** In a sound table a store leaves every other key's lookup as it was whenever that lookup found a value. */
  lemma StoreKeepsOthers<V>(t: Table<V>, key: Key, value: V, other: Key, w: V)
    requires Sound(t) && Store(t, key, value).Ok? && other != key
    ensures Get(Store(t, key, value).value, other) == Ok(Some(w)) <==> Get(t, other) == Ok(Some(w))
  {
    var t' := Store(t, key, value).value;
    var p := Home(t, key).value;
    StorePreservesSound(t, key, value);
    SoundGet(t, other, w);
    SoundGet(t', other, w);
    if exists q :: 0 <= q < |t.arr| && t.arr[q] == Pair(other, w) {
      var q :| 0 <= q < |t.arr| && t.arr[q] == Pair(other, w);
      assert t'.arr[q] == t.arr[q];
    }
    if exists q :: 0 <= q < |t'.arr| && t'.arr[q] == Pair(other, w) {
      var q :| 0 <= q < |t'.arr| && t'.arr[q] == Pair(other, w);
      assert t'.arr[q] == t.arr[q];
    }
  }

  /** The keys of a table after a successful store into a sound table: the old ones and key. */
  lemma StoreKeys<V>(t: Table<V>, key: Key, value: V, k: Key)
    requires Sound(t) && Store(t, key, value).Ok?
    ensures k in OccupiedKeys(Store(t, key, value).value.arr) <==> k in OccupiedKeys(t.arr) || k == key
  {
    var t' := Store(t, key, value).value;
    var p := Home(t, key).value;
    OccupiedKeysMembership(t.arr, k);
    OccupiedKeysMembership(t'.arr, k);
    if k in OccupiedKeys(t.arr) && k != key {
      var q :| 0 <= q < |t.arr| && t.arr[q].Pair? && t.arr[q].key == k;
      assert t'.arr[q] == t.arr[q];
    }
    if k == key {
      assert t'.arr[p].Pair? && t'.arr[p].key == k;
    }
    if k in OccupiedKeys(t'.arr) && k != key {
      var q :| 0 <= q < |t'.arr| && t'.arr[q].Pair? && t'.arr[q].key == k;
      assert t'.arr[q] == t.arr[q];
    }
  }

  /** A key whose hash is negative (the MIN_VALUE case) makes get and put throw at once. */
  lemma NegativeHashThrows<V>(t: Table<V>, key: Key, value: V)
    requires t.addressing.Valid() && t.addressing.Start(key) < 0
    ensures Get(t, key) == Err(IndexOutOfBounds(t.addressing.Start(key)))
    ensures Store(t, key, value) == Err(IndexOutOfBounds(t.addressing.Start(key)))
  {
  }

  /** A sound table below the resize threshold has fewer items than its capacity, and so an empty slot below max. */
  lemma RoomBelowThreshold<V>(t: Table<V>)
    requires Sound(t) && !NeedsResize(t)
    ensures t.itemCount < t.addressing.max
    ensures exists e :: 0 <= e < t.addressing.max && t.arr[e].Empty?
  {
    var max := t.addressing.max;
    var pre := t.arr[..max];
    assert OccupiedKeys(t.arr) == OccupiedKeys(pre) + (if t.arr[max].Pair? then [t.arr[max].key] else []);
    EmptySlotExists(pre);
    var e :| 0 <= e < |pre| && pre[e].Empty?;
    assert t.arr[e] == pre[e];
  }

  /**
   * With linear probing, a sound table below the resize threshold always
   * finds a slot for a key whose hash is non-negative: such a store neither
   * runs out of bounds nor searches forever, and get answers without error.
   */
  lemma LinearStoreSucceeds<V>(t: Table<V>, key: Key, value: V)
    requires Sound(t) && t.addressing.probeType.Linear? && !NeedsResize(t)
    requires t.addressing.Start(key) >= 0
    ensures Store(t, key, value).Ok? && Get(t, key).Ok?
  {
    var a := t.addressing;
    RoomBelowThreshold(t);
    var e :| 0 <= e < a.max && t.arr[e].Empty?;
    LinearSearchStops(t.arr, a, a.Start(key), key, 0, a.Bound(), e);
    GetAtHome(t, key);
  }

  /**
   * put rejects only a null key: the empty string hashes to 0 and, in a
   * sound linear-probing table below the threshold, is stored and found
   * like any other key.
   */
  lemma EmptyKeyAccepted<V>(t: Table<V>, value: V)
    requires Sound(t) && t.addressing.probeType.Linear? && !NeedsResize(t)
    ensures t.addressing.Start([]) == 0
    ensures Store(t, [], value).Ok? && Get(Store(t, [], value).value, []) == Ok(Some(value))
  {
    assert Accumulate([]) == 0;
    LinearStoreSucceeds(t, [], value);
    StoreThenGet(t, [], value);
  }
}
