/** The Bloom filter in front of a directory: bit arithmetic and the absence of false negatives. */
module Bloom {
  import opened Bytes

  type Key = string

  /** The two base hashes of a key, each 32 bits wide. */
  datatype Hashes = Hashes(adler32: Key -> uint32, crc32: Key -> uint32)

  /** The i-th bit position of a key: double hashing in 64-bit arithmetic, reduced to the filter's size. */
  function Position(key: Key, i: nat, m: nat, hashes: Hashes): (p: nat)
    requires m > 0
    ensures p < m
  {
    (hashes.adler32(key) + i * hashes.crc32(key)) % 0x1_0000_0000_0000_0000 % m
  }

  predicate TestBit(b: bv8, j: nat)
    requires j < 8
  {
    (b >> j) & 1 == 1
  }

  /** Setting one bit of a byte sets that bit and keeps the others. */
  lemma SetBit(b: bv8, j: nat, i: nat)
    requires j < 8 && i < 8
    ensures TestBit(b | (1 << j), i) <==> i == j || TestBit(b, i)
  {
    assert j == 0 || j == 1 || j == 2 || j == 3 || j == 4 || j == 5 || j == 6 || j == 7;
    assert i == 0 || i == 1 || i == 2 || i == 3 || i == 4 || i == 5 || i == 6 || i == 7;
  }

  predicate BitSet(bits: seq<bv8>, p: nat)
    requires p / 8 < |bits|
  {
    TestBit(bits[p / 8], p % 8)
  }

  lemma SetBitAt(bits: seq<bv8>, p: nat, q: nat)
    requires p / 8 < |bits| && q / 8 < |bits|
    ensures BitSet(bits[p / 8 := bits[p / 8] | (1 << (p % 8))], q) <==> q == p || BitSet(bits, q)
  {
    if q / 8 == p / 8 {
      SetBit(bits[p / 8], p % 8, q % 8);
      assert q == p <==> q % 8 == p % 8;
    }
  }

  /** A position of one of the keys. */
  ghost predicate IsPosition(keys: set<Key>, p: nat, k: nat, m: nat, hashes: Hashes)
    requires m > 0
  {
    exists key, i: nat :: key in keys && i < k && Position(key, i, m, hashes) == p
  }

  class BloomFilter {
    const m: nat
    const k: nat
    const hashes: Hashes
    const bits: array<bv8>
    ghost var added: set<Key>

    ghost predicate Valid()
      reads this, bits
    {
      && m > 0 && m <= 8 * bits.Length
      && forall p: nat :: p < m ==> (BitSet(bits[..], p) <==> IsPosition(added, p, k, m, hashes))
    }

    constructor (m: nat, k: nat, hashes: Hashes)
      requires 1 <= m && 1 <= k
      ensures Valid() && added == {} && fresh(bits)
      ensures this.m == m && this.k == k && this.hashes == hashes
    {
      this.m, this.k, this.hashes := m, k, hashes;
      bits := new bv8[(m + 7) / 8](_ => 0);
      added := {};
      new;
      forall p: nat | p < m ensures !BitSet(bits[..], p) {
        ZeroBit(p % 8);
      }
    }

    method SetPosition(p: nat)
      requires p < m && m <= 8 * bits.Length
      modifies bits
      ensures forall q :: 0 <= q < m ==> (BitSet(bits[..], q) <==> q == p || BitSet(old(bits[..]), q))
    {
      hide TestBit, BitSet;
      ghost var was := bits[..];
      bits[p / 8] := bits[p / 8] | (1 << (p % 8));
      assert bits[..] == was[p / 8 := was[p / 8] | (1 << (p % 8))];
      forall q | 0 <= q < m ensures BitSet(bits[..], q) <==> q == p || BitSet(was, q) {
        SetBitAt(was, p, q);
      }
    }

    /** Sets the positions of the key and no other. */
    method Add(key: Key)
      requires Valid()
      modifies this`added, bits
      ensures Valid() && added == old(added) + {key}
    {
      hide BitSet, Position, IsPosition;
      forall p: nat | p < m
        ensures !IsPosition({key}, p, 0, m, hashes)
      {
        NoPosition(key, p, m, hashes);
      }
      for i := 0 to k
        invariant added == old(added)
        invariant forall p: nat :: p < m ==>
                    (BitSet(bits[..], p) <==> BitSet(old(bits[..]), p) || IsPosition({key}, p, i, m, hashes))
      {
        SetPosition(Position(key, i, m, hashes));
        forall p: nat | p < m
          ensures IsPosition({key}, p, i + 1, m, hashes) <==>
                  IsPosition({key}, p, i, m, hashes) || p == Position(key, i, m, hashes)
        {
          OneMore(key, p, i, m, hashes);
        }
      }
      added := added + {key};
      forall p: nat | p < m
        ensures IsPosition(added, p, k, m, hashes) <==>
                IsPosition(old(added), p, k, m, hashes) || IsPosition({key}, p, k, m, hashes)
      {
        OneKeyMore(old(added), key, p, k, m, hashes);
      }
    }

    /** Whether every position of the key is a position of some key added: always so for a key that was added itself. */
    method Contains(key: Key) returns (r: bool)
      requires Valid()
      ensures r <==> forall i: nat :: i < k ==> IsPosition(added, Position(key, i, m, hashes), k, m, hashes)
      ensures key in added ==> r
    {
      hide Position;
      for i := 0 to k
        invariant forall j: nat :: j < i ==> IsPosition(added, Position(key, j, m, hashes), k, m, hashes)
      {
        var p := Position(key, i, m, hashes);
        if !TestBit(bits[p / 8], p % 8) {
          assert !BitSet(bits[..], p);
          return false;
        }
        assert BitSet(bits[..], p);
      }
      r := true;
    }
  }

  lemma ZeroBit(j: nat)
    requires j < 8
    ensures !TestBit(0, j)
  {
    assert j == 0 || j == 1 || j == 2 || j == 3 || j == 4 || j == 5 || j == 6 || j == 7;
  }

  lemma NoPosition(key: Key, p: nat, m: nat, hashes: Hashes)
    requires m > 0
    ensures !IsPosition({key}, p, 0, m, hashes)
  {
  }

  lemma OneMore(key: Key, p: nat, i: nat, m: nat, hashes: Hashes)
    requires m > 0
    ensures IsPosition({key}, p, i + 1, m, hashes) <==>
            IsPosition({key}, p, i, m, hashes) || p == Position(key, i, m, hashes)
  {
    hide Position;
    if p == Position(key, i, m, hashes) {
      assert key in {key};
    }
  }

  lemma OneKeyMore(keys: set<Key>, key: Key, p: nat, k: nat, m: nat, hashes: Hashes)
    requires m > 0
    ensures IsPosition(keys + {key}, p, k, m, hashes) <==>
            IsPosition(keys, p, k, m, hashes) || IsPosition({key}, p, k, m, hashes)
  {
    hide Position;
  }
}
