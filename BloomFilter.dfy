/** The Bloom filter: a fixed-size bit array and an insertion counter,
    updated in place by `add` and `clear` and queried by `contains`. */
module BloomFilters {
  import opened JavaInt
  import opened Hashing

  /** The bit index of a hash value: `Math.abs(hash % bitSetSize)`. */
  function Index(hash: int32, m: int32): (r: int32)
    requires m > 0
    ensures 0 <= r < m
    ensures r as int == Magnitude(hash) % m as int
  {
    JavaAbs(Rem(hash, m))
  }

  /** Taking `Math.abs` before `%` instead would give a negative index for
      MIN_VALUE, whose absolute value does not fit in an int. */
  lemma AbsBeforeRemIsNegative()
    ensures Rem(JavaAbs(MIN_VALUE), 3) == -2
    ensures Index(MIN_VALUE, 3) == 2
  {
  }

  /** The bit indices of a key for a filter with k hashes over m bits. */
  function KeyIndices(md: Digest, key: seq<int8>, k: nat, m: int32): (r: seq<int>)
    requires m > 0
    ensures |r| == k
    ensures InRange(r, m as int)
  {
    var hs := Hashes(md, key, k);
    seq(k, t requires 0 <= t < k => Index(hs[t], m) as int)
  }

  /** Every index lies in [0, n). */
  ghost predicate InRange(idx: seq<int>, n: nat)
  {
    forall t :: 0 <= t < |idx| ==> 0 <= idx[t] < n
  }

  /** The bit array with the bits at idx turned on: every bit at idx is on,
      no bit that was on is turned off, and every other bit is unchanged. */
  function SetBits(bits: seq<bool>, idx: seq<int>): (r: seq<bool>)
    ensures |r| == |bits|
    ensures forall t :: 0 <= t < |idx| && 0 <= idx[t] < |bits| ==> r[idx[t]]
    ensures forall j :: 0 <= j < |bits| && bits[j] ==> r[j]
    ensures forall j :: 0 <= j < |bits| && j !in idx ==> r[j] == bits[j]
  {
    seq(|bits|, j requires 0 <= j < |bits| => bits[j] || j in idx)
  }

  /** Every bit at idx is on. */
  predicate AllSet(bits: seq<bool>, idx: seq<int>)
    requires InRange(idx, |bits|)
  {
    forall t :: 0 <= t < |idx| ==> bits[idx[t]]
  }

  /** A freshly allocated bit set of m bits. */
  function EmptyBits(m: nat): (r: seq<bool>)
    ensures |r| == m
  {
    seq(m, _ => false)
  }

  /** The bits of an m-bit filter with k hashes after the keys in added were
      added, in order, to an empty one. */
  function FilterBits(md: Digest, k: nat, m: int32, added: seq<seq<int8>>): (r: seq<bool>)
    requires m > 0
    ensures |r| == m as int
  {
    if added == [] then EmptyBits(m as nat)
    else SetBits(FilterBits(md, k, m, added[..|added| - 1]), KeyIndices(md, added[|added| - 1], k, m))
  }

  /** Turning on the bits of one more index, as one iteration of the loop in
      `add` does, extends the indices set so far. */
  lemma SetBitsStep(bits: seq<bool>, idx: seq<int>, t: nat)
    requires t < |idx| && 0 <= idx[t] < |bits|
    ensures SetBits(bits, idx[..t + 1]) == SetBits(bits, idx[..t])[idx[t] := true]
  {
    assert idx[..t + 1] == idx[..t] + [idx[t]];
  }

  /** A key whose bits are all on stays so when more bits are turned on. */
  lemma AllSetPreserved(bits: seq<bool>, idx: seq<int>, more: seq<int>)
    requires InRange(idx, |bits|) && AllSet(bits, idx)
    ensures AllSet(SetBits(bits, more), idx)
  {
  }

  /** No false negatives: every key added since the filter was empty has all
      its bits on. */
  lemma {:induction false} NoFalseNegatives(md: Digest, k: nat, m: int32, added: seq<seq<int8>>, key: seq<int8>)
    requires m > 0
    requires key in added
    ensures AllSet(FilterBits(md, k, m, added), KeyIndices(md, key, k, m))
  {
    var last := added[|added| - 1];
    var prev := FilterBits(md, k, m, added[..|added| - 1]);
    if key == last {
    } else {
      assert key in added[..|added| - 1] by {
        assert added == added[..|added| - 1] + [last];
      }
      NoFalseNegatives(md, k, m, added[..|added| - 1], key);
      AllSetPreserved(prev, KeyIndices(md, key, k, m), KeyIndices(md, last, k, m));
    }
  }

  /** A bit of the filter is on exactly when it is one of the indices of some
      added key. */
  lemma {:induction false} FilterBitsAreUnion(md: Digest, k: nat, m: int32, added: seq<seq<int8>>, j: int)
    requires m > 0 && 0 <= j < m as int
    ensures FilterBits(md, k, m, added)[j] <==>
      exists a :: 0 <= a < |added| && j in KeyIndices(md, added[a], k, m)
  {
    if added != [] {
      var prefix := added[..|added| - 1];
      FilterBitsAreUnion(md, k, m, prefix, j);
      if j in KeyIndices(md, added[|added| - 1], k, m) {
        assert 0 <= |added| - 1 < |added|;
      }
      if exists a :: 0 <= a < |added| && j in KeyIndices(md, added[a], k, m) {
        var a :| 0 <= a < |added| && j in KeyIndices(md, added[a], k, m);
        if a < |added| - 1 {
          assert prefix[a] == added[a];
        }
      }
    }
  }

  /** An empty filter with at least one hash rejects every key (with k == 0
      every key is reported present). */
  lemma EmptyRejects(md: Digest, k: nat, m: int32, key: seq<int8>)
    requires m > 0
    ensures AllSet(EmptyBits(m as nat), KeyIndices(md, key, k, m)) <==> k == 0
  {
    if k > 0 {
      assert !EmptyBits(m as nat)[KeyIndices(md, key, k, m)[0]];
    }
  }

  class BloomFilter {
    /** The message digest shared by all filters. */
    const md: Digest
    /** Number of bits, m. */
    const bitSetSize: int32
    /** Number of hash values per key. */
    const k: int32
    var bitset: array<bool>
    var numOfAdded: int32
    /** The keys added since construction or the last clear, in order. */
    ghost var added: seq<seq<int8>>

    ghost predicate Valid()
      reads this, bitset
    {
      && bitSetSize > 0
      && k >= 0
      && bitset.Length == bitSetSize as int
      && bitset[..] == FilterBits(md, k as nat, bitSetSize, added)
      && numOfAdded == Wrap32(|added|)
    }

    /** The private constructor's field setup, with m and k given. */
    constructor (md: Digest, m: int32, k: int32)
      requires m > 0 && k >= 0
      ensures Valid() && fresh(bitset)
      ensures this.md == md && bitSetSize == m && this.k == k
      ensures bitset[..] == EmptyBits(m as nat) && numOfAdded == 0 && added == []
    {
      this.md := md;
      this.k := k;
      bitSetSize := m;
      bitset := new bool[m](_ => false);
      numOfAdded := 0;
      added := [];
    }

    /** `add(byte[])`: turns on the bit of each derived hash and counts the call. */
    method Add(bytes: seq<int8>)
      requires Valid()
      modifies this, bitset
      ensures Valid() && bitset == old(bitset)
      ensures bitset[..] == SetBits(old(bitset[..]), KeyIndices(md, bytes, k as nat, bitSetSize))
      ensures numOfAdded == Inc32(old(numOfAdded))
      ensures added == old(added) + [bytes]
    {
      var hashes, _ := CreateHashes(md, bytes, k);
      ghost var idx := KeyIndices(md, bytes, k as nat, bitSetSize);
      HashIndices(hashes, idx, bytes);
      for t := 0 to hashes.Length
        modifies bitset
        invariant bitset[..] == SetBits(old(bitset[..]), idx[..t])
      {
        SetBitsStep(old(bitset[..]), idx, t);
        bitset[Index(hashes[t], bitSetSize)] := true;
      }
      assert idx[..hashes.Length] == idx;
      Inc32Wrap(|added|);
      numOfAdded := Inc32(numOfAdded);
      added := added + [bytes];
      assert added[..|added| - 1] == old(added);
    }

    /** `contains(byte[])`: true exactly when every derived bit is on. */
    method Contains(bytes: seq<int8>) returns (r: bool)
      requires Valid()
      ensures r == AllSet(bitset[..], KeyIndices(md, bytes, k as nat, bitSetSize))
      ensures bytes in added ==> r
    {
      var hashes, _ := CreateHashes(md, bytes, k);
      ghost var idx := KeyIndices(md, bytes, k as nat, bitSetSize);
      HashIndices(hashes, idx, bytes);
      if bytes in added {
        NoFalseNegatives(md, k as nat, bitSetSize, added, bytes);
      }
      for t := 0 to hashes.Length
        invariant forall s :: 0 <= s < t ==> bitset[idx[s]]
      {
        if !bitset[Index(hashes[t], bitSetSize)] {
          assert !bitset[..][idx[t]];
          return false;
        }
      }
      assert AllSet(bitset[..], idx);
      return true;
    }

    /** The indices the loops of `add` and `contains` compute from the hash
        array are the key's indices. */
    lemma HashIndices(hashes: array<int32>, idx: seq<int>, bytes: seq<int8>)
      requires Valid()
      requires hashes[..] == Hashes(md, bytes, k as nat)
      requires idx == KeyIndices(md, bytes, k as nat, bitSetSize)
      ensures hashes.Length == |idx|
      ensures forall t :: 0 <= t < |idx| ==> idx[t] == Index(hashes[t], bitSetSize) as int
    {
      assert hashes.Length == |hashes[..]|;
    }

    /** `clear()`: turns every bit off and resets the counter. */
    method Clear()
      requires Valid()
      modifies this, bitset
      ensures Valid() && bitset == old(bitset)
      ensures bitset[..] == EmptyBits(bitSetSize as nat)
      ensures numOfAdded == 0 && added == []
    {
      forall j | 0 <= j < bitset.Length {
        bitset[j] := false;
      }
      numOfAdded := 0;
      added := [];
    }

    /** `size()`: the number of bits. */
    function Size(): (r: int32)
      requires Valid()
      reads this, bitset
      ensures r as int == bitset.Length && r > 0
    {
      bitSetSize
    }

    /** `count()`: the number of adds since construction or the last clear,
        as a Java int counter that wraps past MAX_VALUE. */
    function Count(): (r: int32)
      requires Valid()
      reads this, bitset
      ensures r == Wrap32(|added|)
    {
      numOfAdded
    }

    /** `getK()`: the number of hash values per key. */
    function GetK(): (r: int32)
      requires Valid()
      reads this, bitset
      ensures r == k && r >= 0
    {
      k
    }
  }

  /** A caller's view of the no-false-negative guarantee: after `add(key)`,
      any number of further adds leave `contains(key)` true. */
  method AddThenQuery(f: BloomFilter, key: seq<int8>, later: seq<seq<int8>>) returns (r: bool)
    requires f.Valid()
    modifies f, f.bitset
    ensures f.Valid() && r
    ensures f.added == old(f.added) + [key] + later
  {
    f.Add(key);
    for i := 0 to |later|
      invariant f.Valid() && f.bitset == old(f.bitset)
      invariant f.added == old(f.added) + [key] + later[..i]
    {
      f.Add(later[i]);
      assert later[..i + 1] == later[..i] + [later[i]];
    }
    assert later[..|later|] == later;
    assert key in f.added by {
      assert f.added[|old(f.added)|] == key;
    }
    r := f.Contains(key);
  }
}
