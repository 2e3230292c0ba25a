/** Fixed-width integers as bytes, in both byte orders, with the round trips the on-disk formats rest on. */
module IntCodec {
  import opened Bytes
  import Probing

  function Pow256(w: nat): (p: nat)
    ensures p >= 1
  {
    if w == 0 then 1 else 256 * Pow256(w - 1)
  }

  /** v modulo 256^w as w bytes, most significant first. */
  function BigEndian(w: nat, v: nat): (s: seq<byte>)
    ensures |s| == w
  {
    if w == 0 then [] else BigEndian(w - 1, v / 256) + [v % 256]
  }

  function FromBigEndian(s: seq<byte>): nat {
    if s == [] then 0 else 256 * FromBigEndian(s[..|s| - 1]) + s[|s| - 1]
  }

  /** v modulo 256^w as w bytes, least significant first. */
  function LittleEndian(w: nat, v: nat): (s: seq<byte>)
    ensures |s| == w
  {
    if w == 0 then [] else [v % 256] + LittleEndian(w - 1, v / 256)
  }

  function FromLittleEndian(s: seq<byte>): nat {
    if s == [] then 0 else s[0] + 256 * FromLittleEndian(s[1..])
  }

  lemma {:induction false} BigEndianRoundTrip(w: nat, v: nat)
    requires v < Pow256(w)
    ensures FromBigEndian(BigEndian(w, v)) == v
  {
    if w == 0 {
    } else {
      BigEndianRoundTrip(w - 1, v / 256);
      assert BigEndian(w, v)[..w - 1] == BigEndian(w - 1, v / 256);
    }
  }

  lemma {:induction false} BigEndianReprints(s: seq<byte>)
    ensures FromBigEndian(s) < Pow256(|s|)
    ensures BigEndian(|s|, FromBigEndian(s)) == s
  {
    if s == [] {
    } else {
      var t := s[..|s| - 1];
      BigEndianReprints(t);
      assert s == t + [s[|s| - 1]];
    }
  }

  /** A value survives a field of w bytes exactly when it fits. */
  lemma SurvivesExactly(w: nat, v: nat)
    ensures FromBigEndian(BigEndian(w, v)) == v <==> v < Pow256(w)
  {
    BigEndianReprints(BigEndian(w, v));
    if v < Pow256(w) {
      BigEndianRoundTrip(w, v);
    }
  }

  lemma {:induction false} LittleEndianRoundTrip(w: nat, v: nat)
    requires v < Pow256(w)
    ensures FromLittleEndian(LittleEndian(w, v)) == v
  {
    if w == 0 {
    } else {
      LittleEndianRoundTrip(w - 1, v / 256);
      assert LittleEndian(w, v)[1..] == LittleEndian(w - 1, v / 256);
    }
  }

  lemma {:induction false} LittleEndianBound(s: seq<byte>)
    ensures FromLittleEndian(s) < Pow256(|s|)
  {
    if s == [] {
    } else {
      LittleEndianBound(s[1..]);
    }
  }

  lemma {:induction false} BigEndianAt(w: nat, v: nat, k: nat)
    requires k < w
    ensures BigEndian(w, v)[k] == v / Pow256(w - 1 - k) % 256
  {
    if k == w - 1 {
    } else {
      BigEndianAt(w - 1, v / 256, k);
      DivideTwice(v, Pow256(w - 2 - k));
    }
  }

  lemma DivideTwice(v: nat, p: nat)
    requires p >= 1
    ensures v / 256 / p == v / (256 * p)
  {
    var a, q := v / 256, v / 256 / p;
    assert v == 256 * a + v % 256 && a == p * q + a % p;
    var r := 256 * (a % p) + v % 256;
    assert v == 256 * p * q + r by {
      assert 256 * a == 256 * (p * q) + 256 * (a % p);
      assert 256 * (p * q) == 256 * p * q;
    }
    assert 0 <= r < 256 * p;
    Probing.DivModUnique(v, q, r, 256 * p);
  }

  lemma {:induction false} LittleEndianAt(w: nat, v: nat, k: nat)
    requires k < w
    ensures LittleEndian(w, v)[k] == v / Pow256(k) % 256
  {
    if k == 0 {
      assert Pow256(0) == 1;
    } else {
      LittleEndianAt(w - 1, v / 256, k - 1);
      DivideTwice(v, Pow256(k - 1));
    }
  }

  lemma Pow256Values()
    ensures Pow256(2) == UINT16_MAX + 1
    ensures Pow256(4) == UINT32_MAX + 1
    ensures Pow256(8) == UINT64_MAX + 1
  {
    assert Pow256(1) == 256 && Pow256(2) == 0x1_0000 && Pow256(3) == 0x100_0000 && Pow256(4) == 0x1_0000_0000;
    assert Pow256(5) == 0x100_0000_0000 && Pow256(6) == 0x1_0000_0000_0000 && Pow256(7) == 0x100_0000_0000_0000;
  }
}
