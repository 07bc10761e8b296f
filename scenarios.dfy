/**
 * A worked run of put and get on a table of capacity 5 with linear probing.
 * It shows what resize does to a key whose probe sequence wrapped around:
 * the modulus of getNextLocation grows to 11 while the list and the hash
 * modulus stay, so get no longer reaches the key, and putting the key again
 * stores it a second time, in the list's extra last slot.
 *
 * The run is stated for any three distinct keys c, h and a whose hashes
 * modulo 5 are 4, 4 and 2; the one-character keys "c", "h" and "a" are such
 * keys.
 */
module Scenarios {

  import opened Arith
  import opened Primes
  import opened Hashing
  import opened Probing
  import opened Tables

  const Linear5: Addressing := Addressing(Linear, 5, 5)

  /** c and h both hash to slot 4, so h collides with c; a hashes to slot 2. */
  predicate RunKeys(c: Key, h: Key, a: Key) {
    Hash(c, 5) == 4 && Hash(h, 5) == 4 && Hash(a, 5) == 2 && c != h && c != a && h != a
  }

  /** A one-character key hashes to its code unit modulo the capacity. */
  lemma OneCharHash(ch: CodeUnit, m: int)
    requires m > 0
    ensures Hash([ch], m) == ch % m
  {
    assert [ch][..0] == [];
    assert Accumulate([ch]) == ch;
  }

  /** "c", "h" and "a" (code units 99, 104 and 97) are keys for the run. */
  lemma LetterKeys()
    ensures RunKeys([99], [104], [97])
  {
    OneCharHash(99, 5);
    OneCharHash(104, 5);
    OneCharHash(97, 5);
  }

  /** nextPrime(2 * 5) is 11. */
  lemma NextPrimeOfTen()
    ensures LeastPrimeFrom(10, 11)
  {
    assert Divides(2, 10);
    PrimeByTrialDivision(11);
    forall d | 2 <= d && d * d <= 11
      ensures !Divides(d, 11)
    {
      if d >= 4 {
        MulMono(4, d, d);
        MulMono(4, d, 4);
      }
    }
  }

  lemma StopsAtEmpty<V>(t: Table<V>, pos: int, key: Key, stepNum: nat, fuel: nat)
    requires t.addressing.Valid() && fuel > 0 && 0 <= pos < |t.arr| && t.arr[pos].Empty?
    ensures FindEmptyOrSameKey(t.arr, t.addressing, pos, key, stepNum, fuel) == Ok(pos)
    ensures Find(t.arr, t.addressing, pos, key, stepNum, fuel) == Ok(None)
  {
  }

  lemma StopsAtKey<V>(t: Table<V>, pos: int, key: Key, stepNum: nat, fuel: nat)
    requires t.addressing.Valid() && fuel > 0 && 0 <= pos < |t.arr| && t.arr[pos].Pair? && t.arr[pos].key == key
    ensures FindEmptyOrSameKey(t.arr, t.addressing, pos, key, stepNum, fuel) == Ok(pos)
    ensures Find(t.arr, t.addressing, pos, key, stepNum, fuel) == Ok(Some(t.arr[pos].value))
  {
  }

  lemma Passes<V>(t: Table<V>, pos: int, key: Key, stepNum: nat, fuel: nat)
    requires t.addressing.Valid() && fuel > 0 && 0 <= pos < |t.arr| && t.arr[pos].Pair? && t.arr[pos].key != key
    ensures FindEmptyOrSameKey(t.arr, t.addressing, pos, key, stepNum, fuel)
      == FindEmptyOrSameKey(t.arr, t.addressing, t.addressing.Next(pos, key, stepNum), key, stepNum + 1, fuel - 1)
    ensures Find(t.arr, t.addressing, pos, key, stepNum, fuel)
      == Find(t.arr, t.addressing, t.addressing.Next(pos, key, stepNum), key, stepNum + 1, fuel - 1)
  {
  }

  /** Lookup and put's slot search for key are the two searches from its start slot s. */
  lemma SearchFrom<V>(t: Table<V>, key: Key, s: int)
    requires t.addressing.Valid() && t.addressing.Start(key) == s
    ensures Home(t, key) == FindEmptyOrSameKey(t.arr, t.addressing, s, key, 0, t.addressing.Bound())
    ensures Get(t, key) == Find(t.arr, t.addressing, s, key, 0, t.addressing.Bound())
    ensures Get(t, key) == Ok(None) ==> HasKey(t, key) == Ok(false)
  {
  }

  /** The table Store builds once the slot search found p and hasKey answered present. */
  lemma StoreAt<V>(t: Table<V>, key: Key, value: V, p: nat, present: bool)
    requires t.addressing.Valid() && Home(t, key) == Ok(p) && HasKey(t, key) == Ok(present)
    ensures Store(t, key, value) ==
      Ok(Table(t.arr[p := Pair(key, value)], t.addressing, if present then t.itemCount else t.itemCount + 1))
  {
  }

  /** new Hashtable(5): six empty slots. */
  function T0(): Table<int> { Table([Empty, Empty, Empty, Empty, Empty, Empty], Linear5, 0) }
  /** ... then put(c, 1) ... */
  function T1(c: Key): Table<int> { Table([Empty, Empty, Empty, Empty, Pair(c, 1), Empty], Linear5, 1) }
  /** ... put(h, 2), which probes past c and wraps to slot 0 ... */
  function T2(c: Key, h: Key): Table<int> { Table([Pair(h, 2), Empty, Empty, Empty, Pair(c, 1), Empty], Linear5, 2) }
  /** ... and put(a, 3). */
  function T3(c: Key, h: Key, a: Key): Table<int> {
    Table([Pair(h, 2), Empty, Pair(a, 3), Empty, Pair(c, 1), Empty], Linear5, 3)
  }
  /** put(h, 9) on T3 resizes (3 / 5 >= 0.6) and then stores h in slot 5. */
  function T5(c: Key, h: Key, a: Key): Table<int> {
    Table([Pair(h, 2), Empty, Pair(a, 3), Empty, Pair(c, 1), Pair(h, 9)], Addressing(Linear, 11, 5), 1)
  }

  lemma PutC(c: Key, h: Key, a: Key)
    requires RunKeys(c, h, a)
    ensures Store(T0(), c, 1) == Ok(T1(c))
  {
    var t := T0();
    SearchFrom(t, c, 4);
    StopsAtEmpty(t, 4, c, 0, 26);
    StoreAt(t, c, 1, 4, false);
    assert t.arr[4 := Pair(c, 1)] == T1(c).arr;
  }

  lemma PutH(c: Key, h: Key, a: Key)
    requires RunKeys(c, h, a)
    ensures Store(T1(c), h, 2) == Ok(T2(c, h))
  {
    var t := T1(c);
    SearchFrom(t, h, 4);
    Passes(t, 4, h, 0, 26);
    assert t.addressing.Next(4, h, 0) == 0;
    StopsAtEmpty(t, 0, h, 1, 25);
    StoreAt(t, h, 2, 0, false);
    assert t.arr[0 := Pair(h, 2)] == T2(c, h).arr;
  }

  lemma PutA(c: Key, h: Key, a: Key)
    requires RunKeys(c, h, a)
    ensures Store(T2(c, h), a, 3) == Ok(T3(c, h, a))
  {
    var t := T2(c, h);
    SearchFrom(t, a, 2);
    StopsAtEmpty(t, 2, a, 0, 26);
    StoreAt(t, a, 3, 2, false);
    assert t.arr[2 := Pair(a, 3)] == T3(c, h, a).arr;
  }

  lemma GetBeforeResize(c: Key, h: Key, a: Key)
    requires RunKeys(c, h, a)
    ensures Get(T3(c, h, a), h) == Ok(Some(2))
  {
    var t := T3(c, h, a);
    SearchFrom(t, h, 4);
    Passes(t, 4, h, 0, 26);
    assert t.addressing.Next(4, h, 0) == 0;
    StopsAtKey(t, 0, h, 1, 25);
  }

  lemma GetAfterResize(c: Key, h: Key, a: Key)
    requires RunKeys(c, h, a)
    ensures Home(Resized(T3(c, h, a), 11), h) == Ok(5)
    ensures Get(Resized(T3(c, h, a), 11), h) == Ok(None)
    ensures HasKey(Resized(T3(c, h, a), 11), h) == Ok(false)
  {
    var t := Resized(T3(c, h, a), 11);
    SearchFrom(t, h, 4);
    Passes(t, 4, h, 0, 122);
    assert t.addressing.Next(4, h, 0) == 5;
    StopsAtEmpty(t, 5, h, 1, 121);
  }

  lemma PutAfterResize(c: Key, h: Key, a: Key)
    requires RunKeys(c, h, a)
    ensures Store(Resized(T3(c, h, a), 11), h, 9) == Ok(T5(c, h, a))
  {
    var t := Resized(T3(c, h, a), 11);
    GetAfterResize(c, h, a);
    StoreAt(t, h, 9, 5, false);
    assert t.arr[5 := Pair(h, 9)] == T5(c, h, a).arr;
  }

  lemma KeysBeforeAndAfter(c: Key, h: Key, a: Key)
    ensures OccupiedKeys(T3(c, h, a).arr) == [h, a, c]
    ensures OccupiedKeys(T5(c, h, a).arr) == [h, a, c, h]
  {
    var s := T5(c, h, a).arr;
    assert s[..1][..0] == [];
    assert OccupiedKeys(s[..1]) == [h];
    assert s[..2][..1] == s[..1];
    assert OccupiedKeys(s[..2]) == [h];
    assert s[..3][..2] == s[..2];
    assert OccupiedKeys(s[..3]) == [h, a];
    assert s[..4][..3] == s[..3];
    assert OccupiedKeys(s[..4]) == [h, a];
    assert s[..5][..4] == s[..4];
    assert OccupiedKeys(s[..5]) == [h, a, c];
    assert s[..5] == T3(c, h, a).arr[..5] && s[..|s| - 1] == s[..5];
  }

  /**
   * The run: three puts on a new table of capacity 5 give a sound table
   * holding h, a and c at its resize threshold; resize makes h unreachable,
   * and put(h, 9) then stores a second h, after which getKeys lists h twice
   * and itemCount is 1.
   */
  lemma ResizeLosesWrappedKey(c: Key, h: Key, a: Key)
    requires RunKeys(c, h, a)
    ensures Initial<int>(5, Linear) == T0()
    ensures Store(T0(), c, 1) == Ok(T1(c)) && Store(T1(c), h, 2) == Ok(T2(c, h))
    ensures Store(T2(c, h), a, 3) == Ok(T3(c, h, a))
    ensures Sound(T3(c, h, a)) && NeedsResize(T3(c, h, a)) && LeastPrimeFrom(2 * 5, 11)
    ensures OccupiedKeys(T3(c, h, a).arr) == [h, a, c] && Get(T3(c, h, a), h) == Ok(Some(2))
    ensures Get(Resized(T3(c, h, a), 11), h) == Ok(None)
    ensures Store(Resized(T3(c, h, a), 11), h, 9) == Ok(T5(c, h, a))
    ensures OccupiedKeys(T5(c, h, a).arr) == [h, a, c, h] && !NoDuplicates(OccupiedKeys(T5(c, h, a).arr))
    ensures T5(c, h, a).itemCount == 1
  {
    assert Initial<int>(5, Linear).arr == T0().arr;
    InitialSound<int>(5, Linear);
    PutC(c, h, a);
    StorePreservesSound(T0(), c, 1);
    PutH(c, h, a);
    StorePreservesSound(T1(c), h, 2);
    PutA(c, h, a);
    StorePreservesSound(T2(c, h), a, 3);
    NextPrimeOfTen();
    GetBeforeResize(c, h, a);
    GetAfterResize(c, h, a);
    PutAfterResize(c, h, a);
    KeysBeforeAndAfter(c, h, a);
    assert OccupiedKeys(T5(c, h, a).arr)[0] == OccupiedKeys(T5(c, h, a).arr)[3];
  }
}
