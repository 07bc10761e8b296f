# Open-addressing hash table

This project models `ci583.htable.Hashtable<V>` in Dafny. It is a hash table with string keys and no deletion. Entries live in one list of slots, and each slot is either the empty sentinel or a (key, value) pair. A collision is resolved by one of three probe strategies, fixed at construction:

- linear: step 1;
- quadratic: add `stepNum²` to the current slot;
- double hashing: add `hash(key) % 8 + 1`.

Before each insertion, `put` resizes the table once the load factor `itemCount / max` has reached 0.6. The capacity `max` starts at the least prime that is at least the requested capacity. A resize raises it to the least prime that is at least twice the old one.

The model follows the code as written, including behaviour that reads as unintended:

- `makeArr(size)` builds `size + 1` empty slots.
- `hash` reduces by `initialCapacity`, which only `makeArr` sets, so a resize never changes it.
- `resize` sets `max` and zeroes `itemCount`. It copies the old slots in their old places, so the list does not grow and nothing is re-inserted.
- After a resize, `getNextLocation` reduces by the new `max` over a list that is still `initialCapacity + 1` long. A probe can then land outside the list, which makes `get`/`put` throw `IndexOutOfBoundsException`.
- A key whose Java hash is `Integer.MIN_VALUE` stays negative after `Math.abs`, and `% initialCapacity` turns it into -(2³¹ mod initialCapacity). The capacity is always a prime, so this is negative unless the capacity is 2. A negative start makes the first list access throw `IndexOutOfBoundsException`; with capacity 2 the key starts at slot 0 like any other.
- `put` rejects only a null key; the empty string is stored like any other key.
- The first quadratic probe uses `stepNum = 0`, so it revisits the slot just tried.

The source's own doc comments promise more than its code does:

- The comment on `put` (Hashtable.java line 70) says an empty-string key throws `IllegalArgumentException`. The code rejects only null.
- The comment on `hash` (lines 243-244) says the result is a positive number less than `max`. The code reduces by `initialCapacity`, and a MIN_VALUE key gives a negative result.
- The comment on `resize` (lines 287-289) calls the new prime the new size of the underlying array. The code copies the old slots into a list of the old length, so the list does not grow.

In each case the model follows the code. `Scenarios.ResizeLosesWrappedKey` shows a key that a resize makes unreachable.

The modules are:

- `Arith`: divisibility and quotient/remainder facts.
- `Primes`: the primality predicate, and `isPrime`/`nextPrime` as loops. A proof via `n! + 1` shows that a prime at least `n` always exists, so `nextPrime` terminates.
- `Hashing`:
  - Java's 32-bit `int` arithmetic, `Math.abs` and truncating `%`.
  - The hash loop, and a proof that it computes the 31-polynomial of the key modulo 2³².
- `Probing`: the probe strategies and `getNextLocation`.
- `Tables`:
  - The table as a value: slot list, `max`/`initialCapacity`/probe type, and `itemCount`.
  - The two recursive searches `find` and `findEmptyOrSameKey`, with `get`, `hasKey`, the load-factor test and the storing half of `put`.
  - The invariant `Sound` of a table that has not been resized, and the lemmas about all of these.
- `Htable`: the class `Hashtable`.
  - Its fields are the Java fields: `max`, `initialCapacity`, the slot list as a `seq`, `itemCount` and the probe type.
  - Its constructors and methods update those fields. Each one is specified through the `Tables` value `State()`.
- `Scenarios`: a run of four puts on a table of capacity 5. It is stated for any three distinct keys whose hashes modulo 5 are 4, 4 and 2, and "c", "h" and "a" are shown to be such keys.

Keys are sequences of UTF-16 code units, which is what `String.charAt` returns. Each search takes fuel `max² + 1`. A search that uses up its fuel is reported as `Exhausted`, which stands for the unbounded recursion (a stack overflow) it is in Java. Every modelled exception is a value of the `Error` datatype; the NullPointerExceptions under "Left out" are not modelled.

## Model

| member | source | states |
|---|---|---|
| Hashing.Wrap | src/main/java/ci583/htable/Hashtable.java:251 | the result is the `int` congruent to the argument modulo 2³², as Java's `int` operations wrap |
| Hashing.Abs | src/main/java/ci583/htable/Hashtable.java:253 | `Math.abs` is non-negative and equal to ±x for every int except MIN_VALUE, which it returns unchanged |
| Hashing.Rem | src/main/java/ci583/htable/Hashtable.java:254 | Java's `%` by a positive divisor: the remainder lies in [0, b) for a ≥ 0 and in (-b, 0] for a < 0, and it is congruent to a modulo b |
| Hashing.StepTimes31 | src/main/java/ci583/htable/Hashtable.java:251 | one turn `c + ((h << 5) - h)` equals `c + 31·h` wrapped to 32 bits |
| Hashing.AccumulateIsPolynomial | src/main/java/ci583/htable/Hashtable.java:249-252 | the loop's accumulator equals the polynomial Σ key[i]·31^(n-1-i), wrapped to 32 bits |
| Hashing.Hash | src/main/java/ci583/htable/Hashtable.java:253-254 | the hash lies strictly between -modulus and modulus, and it is non-negative whenever the accumulator is not MIN_VALUE |
| Hashing.HashRange | src/main/java/ci583/htable/Hashtable.java:253-254 | the hash is non-negative exactly when the accumulator is not MIN_VALUE or the modulus divides 2³¹; for MIN_VALUE it is -(2³¹ mod modulus) |
| Hashing.MinValueKey | src/main/java/ci583/htable/Hashtable.java:250-253 | the key "GydZG_" drives the accumulator to MIN_VALUE, so the negative-hash case is reachable |
| Hashing.HashCode | src/main/java/ci583/htable/Hashtable.java:248-255 | the loop, the abs and the `%` compute `Hash(key, modulus)`, the wrapped polynomial made non-negative and reduced |
| Primes.PrimeByTrialDivision | src/main/java/ci583/htable/Hashtable.java:266-270 | n ≥ 2 is prime exactly when no d with 2 ≤ d and d·d ≤ n divides it |
| Primes.IsPrime | src/main/java/ci583/htable/Hashtable.java:262-272 | the answer is true exactly when n is prime or negative (0 and 1 answer false) |
| Primes.PrimeAtLeast | src/main/java/ci583/htable/Hashtable.java:279-284 | for every n some prime p ≥ n exists, so the `nextPrime` loop stops |
| Primes.NextPrime | src/main/java/ci583/htable/Hashtable.java:279-284 | for n ≥ 0 the result is the least prime ≥ n, and it is n itself when n is prime; a negative n is returned as is |
| Probing.DoubleHash | src/main/java/ci583/htable/Hashtable.java:237-239 | the secondary step lies in [1, DOUBLE_HASH_MAX] whenever the hash is non-negative, and in [-6, 8] always |
| Probing.Addressing.Start | src/main/java/ci583/htable/Hashtable.java:90 | the first slot probed lies strictly between -initialCapacity and initialCapacity, so it stays below the capacity after any resize, and it is non-negative unless the accumulator is MIN_VALUE |
| Probing.Addressing.Next | src/main/java/ci583/htable/Hashtable.java:213-229 | from a non-negative slot the next slot lies in [0, max), given a non-negative hash in double-hash mode |
| Probing.Addressing.Bound | src/main/java/ci583/htable/Hashtable.java:190-201 | the fuel max² + 1 exceeds max, the most visits a linear search can need |
| Probing.NextLocationCases | src/main/java/ci583/htable/Hashtable.java:213-229 | per strategy, the next slot is (pos + 1), (pos + stepNum²) or (pos + doubleHash) reduced modulo max, with doubleHash in [1, 8] |
| Probing.QuadraticFirstProbeRevisits | src/main/java/ci583/htable/Hashtable.java:222-224 | the first quadratic probe (stepNum 0) returns the slot just visited |
| Tables.FindEmptyOrSameKey | src/main/java/ci583/htable/Hashtable.java:190-201 | a slot it returns is inside the list and is either empty or holds the key; every other outcome is an error |
| Tables.Find | src/main/java/ci583/htable/Hashtable.java:167-177 | a value it returns is stored under the key in some slot |
| Tables.FindAgreesWithFindEmptyOrSameKey | src/main/java/ci583/htable/Hashtable.java:167-201 | `find` stops where `findEmptyOrSameKey` stops, answering that slot's value or empty, and fails with the same error |
| Tables.SearchAfterWriteAtStop | src/main/java/ci583/htable/Hashtable.java:92-98 | after the pair is written at the slot the search chose, the same search stops at that slot again |
| Tables.SearchSurvivesWrite | src/main/java/ci583/htable/Hashtable.java:98 | writing a pair into a slot that is empty or holds the same key leaves every search that did not stop there unchanged |
| Tables.LinearSearchStops | src/main/java/ci583/htable/Hashtable.java:190-201 | in linear mode a search with an empty slot ahead of it within its fuel stops without error |
| Tables.OccupiedKeys | src/main/java/ci583/htable/Hashtable.java:127-135 | there are no more keys than slots |
| Tables.OccupiedKeysMembership | src/main/java/ci583/htable/Hashtable.java:127-135 | a key is listed exactly when some slot holds it |
| Tables.OccupiedKeysAfterWrite | src/main/java/ci583/htable/Hashtable.java:94-98 | storing a pair adds one key exactly when the slot was empty |
| Tables.DistinctSlotsDistinctKeys | src/main/java/ci583/htable/Hashtable.java:127-135 | when no key occupies two slots, the key list has no repetition |
| Tables.Home | src/main/java/ci583/htable/Hashtable.java:92 | the slot `put` chooses is inside the list and is empty or already holds the key; a negative hash throws IndexOutOfBounds at that index at once |
| Tables.Get | src/main/java/ci583/htable/Hashtable.java:110-112 | a value `get` finds is stored under the key in some slot, and `get` throws exactly when `put`'s slot search for the key throws |
| Tables.HasKey | src/main/java/ci583/htable/Hashtable.java:119-121 | true only for a key some slot holds, and it throws exactly when `put`'s slot search for the key throws |
| Tables.GetAtHome | src/main/java/ci583/htable/Hashtable.java:110-121 | `get` and `hasKey` answer from the slot `put` would choose for the key, and fail exactly when that search fails |
| Tables.LoadFactor | src/main/java/ci583/htable/Hashtable.java:141-144 | the load factor is non-negative, and times max it is itemCount |
| Tables.NeedsResize | src/main/java/ci583/htable/Hashtable.java:85-87 | the test `itemCount / max >= 0.6` holds exactly when 5·itemCount ≥ 3·max |
| Tables.Resized | src/main/java/ci583/htable/Hashtable.java:291-298 | resize keeps the slot list, `initialCapacity` and the probe type; it sets max and zeroes itemCount |
| Tables.Store | src/main/java/ci583/htable/Hashtable.java:90-98 | on success the key's slot holds the new pair, every other slot and the addressing are unchanged, and the list keeps its length. On failure one of the two searches failed |
| Tables.Initial | src/main/java/ci583/htable/Hashtable.java:44-51 | a new table has valid addressing and capacity + 1 slots |
| Tables.InitialSound | src/main/java/ci583/htable/Hashtable.java:33-51 | a newly built table satisfies the invariant and holds no keys |
| Tables.SoundKeys | src/main/java/ci583/htable/Hashtable.java:127-135 | in a sound table no key occupies two slots; getKeys lists itemCount keys without repetition |
| Tables.SoundGet | src/main/java/ci583/htable/Hashtable.java:110-112 | in a sound table `get` answers Some(w) exactly when some slot holds (key, w) |
| Tables.SoundGetAbsent | src/main/java/ci583/htable/Hashtable.java:110-112 | in a sound table a key no slot holds is never found |
| Tables.SoundGetAnswers | src/main/java/ci583/htable/Hashtable.java:110-121 | in a sound table, when `get` answers, it answers present exactly for the held keys |
| Tables.StoreErrors | src/main/java/ci583/htable/Hashtable.java:92-94 | put throws error e exactly when `findEmptyOrSameKey` fails with e; the `hasKey` check never adds a failure |
| Tables.StoreThenGet | src/main/java/ci583/htable/Hashtable.java:90-112 | after a successful store, `get` of the key returns the stored value, with no precondition on the table |
| Tables.StoreCount | src/main/java/ci583/htable/Hashtable.java:94-96 | in a sound table `hasKey` answers whether the key was held, and itemCount grows by one exactly when it was not |
| Tables.StorePreservesSound | src/main/java/ci583/htable/Hashtable.java:90-98 | a successful store keeps a sound table sound |
| Tables.StoreKeepsOthers | src/main/java/ci583/htable/Hashtable.java:90-98 | in a sound table, after storing one key, every other key maps to w exactly when it did before |
| Tables.StoreKeys | src/main/java/ci583/htable/Hashtable.java:90-98 | after storing into a sound table, the keys are the old keys plus the stored one |
| Tables.NegativeHashThrows | src/main/java/ci583/htable/Hashtable.java:248-254 | a key with a negative hash makes `get` and `put` throw IndexOutOfBounds at that index |
| Tables.RoomBelowThreshold | src/main/java/ci583/htable/Hashtable.java:85-88 | a sound table below the threshold has fewer items than max and an empty slot below max |
| Tables.LinearStoreSucceeds | src/main/java/ci583/htable/Hashtable.java:80-99 | with linear probing, a sound table below the threshold stores and looks up every key with a non-negative hash without error |
| Tables.EmptyKeyAccepted | src/main/java/ci583/htable/Hashtable.java:80-83 | the empty string is not rejected: it hashes to slot 0 and, in a sound linear table below the threshold, is stored and then found with its value |
| Htable.Hashtable.constructor | src/main/java/ci583/htable/Hashtable.java:33-43 | max is the least prime ≥ the requested capacity, initialCapacity equals max, all max + 1 slots are empty, and the table is sound |
| Htable.Hashtable.WithLinearProbe | src/main/java/ci583/htable/Hashtable.java:57-67 | the same with the linear probe |
| Htable.Hashtable.MakeArr | src/main/java/ci583/htable/Hashtable.java:44-51 | initialCapacity becomes size and the list becomes size + 1 empty slots, which it returns; max and itemCount are unchanged |
| Htable.Hashtable.Resize | src/main/java/ci583/htable/Hashtable.java:291-298 | max becomes the least prime ≥ twice the old max, itemCount becomes 0, and the slots and initialCapacity stay as they were |
| Htable.Hashtable.Put | src/main/java/ci583/htable/Hashtable.java:80-99 | a null key throws IllegalArgument with the state unchanged. Otherwise: a resize first when the load test holds, with the new max the least prime ≥ twice the old; from that state, exactly the new state and exception `Store` gives; from a sound table below the threshold, success keeps it sound and `get` returns the value |
| Htable.Hashtable.Get | src/main/java/ci583/htable/Hashtable.java:110-112 | a found value is stored under the key; in a sound table, an answer is present exactly for the held keys |
| Htable.Hashtable.HasKey | src/main/java/ci583/htable/Hashtable.java:119-121 | true only for a key some slot holds; in a sound table, true exactly for the held keys |
| Htable.Hashtable.GetKeys | src/main/java/ci583/htable/Hashtable.java:127-135 | the keys of the occupied slots in slot order; in a sound table they are distinct and there are itemCount of them |
| Htable.Hashtable.GetLoadFactor | src/main/java/ci583/htable/Hashtable.java:141-144 | the load factor times max is itemCount, and it reaches 0.6 exactly when 5·itemCount ≥ 3·max |
| Htable.Hashtable.GetCapacity | src/main/java/ci583/htable/Hashtable.java:150-152 | the capacity is max, a prime |
| Scenarios.OneCharHash | src/main/java/ci583/htable/Hashtable.java:248-255 | a one-character key hashes to its code unit modulo the capacity |
| Scenarios.LetterKeys | src/main/java/ci583/htable/Hashtable.java:248-255 | the keys "c", "h" and "a" hash to 4, 4 and 2 modulo 5, and they are distinct |
| Scenarios.NextPrimeOfTen | src/main/java/ci583/htable/Hashtable.java:279-284 | nextPrime(10) is 11 |
| Scenarios.ResizeLosesWrappedKey | src/main/java/ci583/htable/Hashtable.java:80-99 | for distinct keys c, h and a with hashes 4, 4 and 2 modulo 5 (such as "c", "h" and "a"): on capacity 5, put(c), put(h), put(a) give a sound table at the threshold with h wrapped to slot 0. After resize to 11 `get(h)` is empty, and put(h, 9) stores a second h in slot 5, leaving getKeys with a repeated key and itemCount 1 |

## Left out

- Probing.Addressing.Bound: the claim that a search which has made max² + 1 visits never stops is justified, not proved. It holds because the next slot depends only on the position and on stepNum modulo max. Only linear mode is proved to terminate whenever an empty slot exists (`Tables.LinearSearchStops`).
- Stack overflow is modelled only as the Exhausted error. The actual recursion depth at which Java overflows is not modelled.
- Primes.IsPrime: the loop test `i <= Math.sqrt(n)` in doubles is modelled as `i * i <= n` on integers. The two agree for every `int` n ≥ 0. A negative n answers true in both, since the square root is NaN.
- Primes.NextPrime: it does not model `int` overflow of `n++`. Likewise `Htable.Hashtable.Resize` does not model overflow of `max * 2` when max exceeds 2³⁰.
- Integer widths are otherwise unbounded. `itemCount`, `max` and probe positions are not modelled as 32-bit `int`s; the hash loop is the one place whose wrap-around is modelled exactly.
- Probing.Addressing.Next: the `int` overflow of `stepNum * stepNum` is not modelled. Within the fuel of max² + 1 visits, stepNum can pass 46340 once max ≥ 216. From there Java's square wraps and the model's does not, so the quadratic positions of such long searches differ.
- Htable.Hashtable.constructor: a negative capacity is not modelled, since the parameter is a `nat`. In Java a negative capacity passes `isPrime` and then makes `new ArrayList<>(size)` throw. The same holds for `Htable.Hashtable.WithLinearProbe`.
- Htable.Hashtable.MakeArr requires size ≥ 0, for the same reason.
- Htable.Hashtable.Get: a null key is not modelled; in Java `get(null)` throws NullPointerException inside `hash`. The same holds for `Htable.Hashtable.HasKey`. Null keys are modelled only for `put`, through an `Option`.
- Null values are not modelled: every value of `V` stands for a non-null reference. In Java a pair whose value is null makes `Optional.of` (line 172) throw NullPointerException, so `get` and `hasKey` of that key throw. A later `put` of the same key then throws at the `hasKey` call (line 94) and leaves the null in place. The model answers `Some(value)` and overwrites. An occupied slot is one whose key is non-null, as in the source.
- `ArrayList` capacity hints (`new ArrayList<>(size)`, `new ArrayList<>(max)`) have no observable effect and are left out. The list is a `seq`.
- The `Pair` class and its getters are a datatype constructor and its fields.
- `getKeys` returns a `Collection`; the model returns the keys as a sequence in list order.
- The `double` load factor is modelled as an exact real. The test against 0.6 agrees with the `double` comparison for every `int` count and capacity, since a quotient with denominator below 2³¹ is never within rounding distance of 0.6 unless it equals it.
