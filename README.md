# Bloom filter, modelled in Dafny

This project models the Bloom filter of `org.chinaml.util.BloomFilter`. The filter is a
fixed-size bit set of `m` bits (`bitSetSize`), a hash count `k` and an insertion
counter (`numOfAdded`). A key is a byte string. Its `k` hash values come from
salted MD5 rounds (`createHashes`). Each value is reduced to a bit index with
`Math.abs(hash % bitSetSize)`. `add` turns those bits on and counts the call,
`contains` reports whether they are all on, and `clear` resets the filter.

Files:

- `JavaInt.dfy` (module `JavaInt`): Java's `byte` and `int` as `int8` and `int32`,
  and the Java operators the filter uses. `<<` is multiplication by 2^n modulo
  2^32. `|` and `&` are defined bit by bit on the two's-complement value. `%`
  truncates, so the remainder takes the dividend's sign. `Math.abs` (`JavaAbs`)
  leaves `MIN_VALUE` negative. `++` on a byte and on an int wraps around.
- `Hashing.dfy` (module `Hashing`): `createHashes` as an imperative method with its
  nested loops, proved against the specification function `Hashes`. Value `t` is
  chunk `t % 4` of the digest of `[salt t/4] + data`, read big-endian with every
  byte taken as unsigned.
- `BloomFilter.dfy` (module `BloomFilters`): the class `BloomFilter`, with fields
  `bitset: array<bool>` and `numOfAdded`, changed in place. `bitSetSize`, `k` and
  the digest are `const`s. A ghost history `added` holds the keys added since
  construction or the last `clear`. `Valid()` ties the bits to the specification
  function `FilterBits(added)` and ties the counter to `|added|` taken as a
  wrapping 32-bit count.

The message digest is a parameter `md: seq<int8> -> Block` (16 bytes). It stands
for the static `MessageDigest` the source shares between all filters, and
`digestFunc.update(salt); digestFunc.digest(data)` becomes `md([salt] + data)`.

Two edge cases of the code:

- The index is `Math.abs(hash % m)`, which `Index` proves equals `|hash| mod m`
  and always lies in `[0, m)`. Taking `Math.abs` first would not be the same when
  `hash` is `MIN_VALUE` and `m` is not a power of two: `Math.abs(hash) % m` is
  then negative, -2 for `m = 3` (`AbsBeforeRemIsNegative`).
- After `clear`, `contains` rejects every key only when `k > 0`. With `k == 0` it
  accepts every key (`EmptyRejects`).

## Model

| member | source | states |
|---|---|---|
| `Hashing.CreateHashes` | bloom-filter/src/main/java/org/chinaml/util/BloomFilter.java:48-76 | returns exactly `hashes` values, with `result[t]` equal to chunk `t % 4` of the digest of round `t / 4`; `ceil(hashes / 4)` rounds run, and round `r` digests salt `r` followed by the data |
| `Hashing.Hashes` | bloom-filter/src/main/java/org/chinaml/util/BloomFilter.java:48-76 | the specification of `createHashes`'s result: exactly `n` values (their contents are stated by `HashesByRound`) |
| `Hashing.HashesByRound` | bloom-filter/src/main/java/org/chinaml/util/BloomFilter.java:54-72 | hash `4r + c` is chunk `c` of the digest of `[salt r] + data` |
| `Hashing.Salt` | bloom-filter/src/main/java/org/chinaml/util/BloomFilter.java:52-59 | the salt byte of round `r` has the bits of `r mod 256`, and equals `r` while `r < 128` |
| `Hashing.SaltNext` | bloom-filter/src/main/java/org/chinaml/util/BloomFilter.java:52-59 | the salt starts at 0 and `salt++` moves it from round `r`'s value to round `r + 1`'s, wrapping as a byte |
| `Hashing.Chunk` | bloom-filter/src/main/java/org/chinaml/util/BloomFilter.java:63-68 | the unsigned value of chunk `i` is `b0·2^24 + b1·2^16 + b2·2^8 + b3`, with byte `4i` most significant and each byte unsigned |
| `Hashing.ChunkBytes` | bloom-filter/src/main/java/org/chinaml/util/BloomFilter.java:63-68 | packing loses nothing: splitting a chunk back into four bytes gives the digest bytes, in order |
| `Hashing.PackChunk` | bloom-filter/src/main/java/org/chinaml/util/BloomFilter.java:63-68 | the shift-and-OR loop over bytes `4i..4i+3` yields the big-endian signed int of those bytes |
| `Hashing.PackStep` | bloom-filter/src/main/java/org/chinaml/util/BloomFilter.java:66-67 | `h <<= 8; h \|= b & 0xFF` extends the big-endian value of the bytes read so far by the next byte, unsigned |
| `Hashing.BigEndian` | bloom-filter/src/main/java/org/chinaml/util/BloomFilter.java:65-68 | the big-endian value of `n` bytes is below `2^(8n)` |
| `JavaInt.ShiftLeft` | bloom-filter/src/main/java/org/chinaml/util/BloomFilter.java:66 | Java `x << n`: the result is `x·2^n` modulo `2^32`, and its low `n` bits are zero |
| `JavaInt.BitOr` | bloom-filter/src/main/java/org/chinaml/util/BloomFilter.java:67 | Java `x \| y`: each of the 32 bits of the result is set exactly when it is set in `x` or in `y` |
| `JavaInt.BitAnd` | bloom-filter/src/main/java/org/chinaml/util/BloomFilter.java:67 | Java `x & y`: each of the 32 bits of the result is set exactly when it is set in both `x` and `y` |
| `JavaInt.MaskByte` | bloom-filter/src/main/java/org/chinaml/util/BloomFilter.java:67 | `((int) b) & 0xFF` is the unsigned value 0..255 of the byte, also for negative bytes |
| `JavaInt.ShiftInByte` | bloom-filter/src/main/java/org/chinaml/util/BloomFilter.java:66-67 | on an accumulator below `2^24`, `(h << 8) \| u` equals `h·256 + u` as a 32-bit int |
| `JavaInt.Rem` | bloom-filter/src/main/java/org/chinaml/util/BloomFilter.java:113 | Java `%`: its magnitude is below the divisor's, it is zero or has the dividend's sign, and it differs from the dividend by a multiple of the divisor |
| `JavaInt.JavaAbs` | bloom-filter/src/main/java/org/chinaml/util/BloomFilter.java:113 | `Math.abs`: agrees with the magnitude `\|x\|` modulo `2^32`, and is negative only for `MIN_VALUE` |
| `JavaInt.Inc8` | bloom-filter/src/main/java/org/chinaml/util/BloomFilter.java:59 | byte `++` adds one modulo 256 to the byte's bits |
| `JavaInt.Inc32` | bloom-filter/src/main/java/org/chinaml/util/BloomFilter.java:116 | int `++` adds one modulo 2^32 to the int's bits |
| `JavaInt.Inc32Wrap` | bloom-filter/src/main/java/org/chinaml/util/BloomFilter.java:116 | incrementing the wrapped count of `n` gives the wrapped count of `n + 1` |
| `BloomFilters.Index` | bloom-filter/src/main/java/org/chinaml/util/BloomFilter.java:113 | for every int hash and every `m > 0`, `Math.abs(hash % m)` lies in `[0, m)` and equals `\|hash\| mod m`, `MIN_VALUE` included |
| `BloomFilters.AbsBeforeRemIsNegative` | bloom-filter/src/main/java/org/chinaml/util/BloomFilter.java:113 | applying `Math.abs` before `%` would give the negative index -2 for `MIN_VALUE` and `m = 3`, where the code's order gives 2 |
| `BloomFilters.KeyIndices` | bloom-filter/src/main/java/org/chinaml/util/BloomFilter.java:111-114 | a key has exactly `k` indices, all within the bit set |
| `BloomFilters.SetBits` | bloom-filter/src/main/java/org/chinaml/util/BloomFilter.java:112-114 | setting a key's bits keeps the length, turns every bit at the indices on, turns no bit off and leaves every other bit unchanged |
| `BloomFilters.SetBitsStep` | bloom-filter/src/main/java/org/chinaml/util/BloomFilter.java:112-114 | one iteration of the loop in `add` turns on one more index of those set so far |
| `BloomFilters.AllSetPreserved` | bloom-filter/src/main/java/org/chinaml/util/BloomFilter.java:112-114 | a key whose bits are all on stays so when another key's bits are set |
| `BloomFilters.FilterBits` | bloom-filter/src/main/java/org/chinaml/util/BloomFilter.java:110-117 | the bit set after the keys of a history were added in order to an empty filter has `m` bits (its contents are stated by `FilterBitsAreUnion` and `NoFalseNegatives`) |
| `BloomFilters.NoFalseNegatives` | bloom-filter/src/main/java/org/chinaml/util/BloomFilter.java:110-132 | every key added since the filter was empty has all its bits on |
| `BloomFilters.FilterBitsAreUnion` | bloom-filter/src/main/java/org/chinaml/util/BloomFilter.java:110-117 | a bit is on exactly when it is an index of some added key, in both directions |
| `BloomFilters.EmptyRejects` | bloom-filter/src/main/java/org/chinaml/util/BloomFilter.java:123-132 | on an all-zero bit set, every key is reported absent exactly when `k > 0` |
| `BloomFilters.BloomFilter.constructor` | bloom-filter/src/main/java/org/chinaml/util/BloomFilter.java:33-39 | a new filter has `m` bits, all off, hash count `k`, a zero counter and an empty history |
| `BloomFilters.BloomFilter.Add` | bloom-filter/src/main/java/org/chinaml/util/BloomFilter.java:110-117 | the new bits are the old bits with exactly the key's indices turned on; the counter rises by one as a Java int, also for a repeated key; the key joins the history |
| `BloomFilters.BloomFilter.Contains` | bloom-filter/src/main/java/org/chinaml/util/BloomFilter.java:123-132 | returns true exactly when every bit at the key's indices is on, and true for every key added since the last clear; changes nothing |
| `BloomFilters.BloomFilter.Clear` | bloom-filter/src/main/java/org/chinaml/util/BloomFilter.java:101-104 | every bit is off, the counter is 0 and the history is empty; size and `k` are constants |
| `BloomFilters.BloomFilter.Size` | bloom-filter/src/main/java/org/chinaml/util/BloomFilter.java:134-136 | the reported size is the length of the bit set and is positive |
| `BloomFilters.BloomFilter.Count` | bloom-filter/src/main/java/org/chinaml/util/BloomFilter.java:138-140 | the reported count is the number of adds since construction or the last clear, wrapped to a 32-bit int |
| `BloomFilters.BloomFilter.GetK` | bloom-filter/src/main/java/org/chinaml/util/BloomFilter.java:97-99 | returns the configured hash count, which is never negative |
| `BloomFilters.AddThenQuery` | bloom-filter/src/main/java/org/chinaml/util/BloomFilter.java:110-132 | after `add(key)` and any number of further adds, `contains(key)` returns true |

## Left out

- Floating-point sizing (lines 37, 42-46) and the false-positive rate estimates (lines 89-95) use `Math.log`, `Math.ceil`, `Math.exp` and `Math.pow` on doubles. The constructor takes `m` and `k` directly. The fields `bitsPerElement` and `maxNum` are not modelled: only these formulas and `hashCode` (left out below) read them.
- MD5 and its static initialisation (lines 20-31): the digest is an arbitrary function parameter returning 16 bytes. The case where MD5 is unavailable and `digestFunc` is null is not modelled.
- The `synchronized` block (lines 57-61) exists for concurrency; each round is one sequential step.
- `add(E)` and `contains(E)` (lines 106-108, 119-121) depend on `toString()` and UTF-8 encoding.
- `hashCode` (lines 78-87) depends on `java.util.BitSet.hashCode`, which is not part of this model. `Serializable` is plumbing.
- `java.util.BitSet` can grow past its initial size. The model uses an array of exactly `m` bits, which gives the same behaviour because every index is below `m`.
- The byte arrays passed to `createHashes`, `add` and `contains` are modelled as sequences. The source only reads them.
- Hashing.CreateHashes: requires `hashes >= 0`; with a negative count `new int[hashes]` throws, and that exception is not modelled.
- BloomFilters.BloomFilter.constructor: requires `m > 0` and `k >= 0`; the source does not check them (with `m == 0` the `%` in `add` throws).
