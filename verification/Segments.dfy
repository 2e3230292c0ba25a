/** Cutting a byte stream into fixed-size segments, whatever chunks it arrives in. */
module Segments {
  import opened Bytes

  function Flatten(chunks: seq<seq<byte>>): seq<byte> {
    if chunks == [] then [] else chunks[0] + Flatten(chunks[1..])
  }

  lemma {:induction false} FlattenAppend(a: seq<seq<byte>>, b: seq<seq<byte>>)
    ensures Flatten(a + b) == Flatten(a) + Flatten(b)
  {
    if a == [] {
      assert a + b == b;
    } else {
      FlattenAppend(a[1..], b);
      assert (a + b)[1..] == a[1..] + b;
      assert (a + b)[0] == a[0];
    }
  }

  lemma FlattenOne(a: seq<seq<byte>>, c: seq<byte>)
    ensures Flatten(a + [c]) == Flatten(a) + c
  {
    FlattenAppend(a, [c]);
    assert [c][1..] == [];
    assert Flatten([c]) == c + [];
  }

  /** The segments of a byte string: full ones, then what is left; an empty string is one empty segment. */
  function Cut(data: seq<byte>, n: nat): (segments: seq<seq<byte>>)
    requires n > 0
    ensures segments != []
  {
    if |data| <= n then [data] else [data[..n]] + Cut(data[n..], n)
  }

  /** Cutting loses nothing, no segment is too long, and only the last may be short. */
  lemma {:induction false} CutCovers(data: seq<byte>, n: nat)
    requires n > 0
    ensures Flatten(Cut(data, n)) == data
    ensures forall i :: 0 <= i < |Cut(data, n)| ==> |Cut(data, n)[i]| <= n
    ensures forall i :: 0 <= i < |Cut(data, n)| - 1 ==> |Cut(data, n)[i]| == n
  {
    if |data| <= n {
      FlattenOne([], data);
      assert [] + [data] == [data];
    } else {
      CutCovers(data[n..], n);
      var rest := Cut(data[n..], n);
      assert Cut(data, n)[1..] == rest;
      assert data == data[..n] + data[n..];
    }
  }

  lemma SomethingFollows(done: seq<seq<byte>>, rest: seq<byte>, n: nat)
    requires done != [] && |done[0]| == n && rest != []
    ensures |Flatten(done) + rest| > n
  {
  }

  /** Full segments can be cut off one at a time while more data follows. */
  lemma {:induction false} CutFull(done: seq<seq<byte>>, rest: seq<byte>, n: nat)
    requires n > 0
    requires forall i :: 0 <= i < |done| ==> |done[i]| == n
    requires rest != [] || done == []
    ensures Cut(Flatten(done) + rest, n) == done + Cut(rest, n)
  {
    if done == [] {
      assert Flatten(done) + rest == rest;
      assert done + Cut(rest, n) == Cut(rest, n);
    } else {
      var whole := Flatten(done) + rest;
      CutFull(done[1..], rest, n);
      assert whole == done[0] + (Flatten(done[1..]) + rest);
      assert whole[..n] == done[0];
      assert whole[n..] == Flatten(done[1..]) + rest;
      assert |whole| > n by {
        SomethingFollows(done, rest, n);
      }
      assert done == [done[0]] + done[1..];
      assert [done[0]] + (done[1..] + Cut(rest, n)) == done + Cut(rest, n);
    }
  }

  lemma CutExact(done: seq<seq<byte>>, n: nat)
    requires n > 0 && done != []
    requires forall i :: 0 <= i < |done| ==> |done[i]| == n
    ensures Cut(Flatten(done), n) == done
  {
    var last := |done| - 1;
    assert done == done[..last] + [done[last]];
    FlattenOne(done[..last], done[last]);
    CutFull(done[..last], done[last], n);
  }

  /** The commit loop's buffering of one chunk: fill the pending segment, hand it over whenever it is full. */
  method TakeChunk(view: seq<byte>, n: nat, refs0: seq<seq<byte>>, pending0: seq<byte>)
    returns (refs: seq<seq<byte>>, pending: seq<byte>)
    requires |pending0| < n
    requires forall i :: 0 <= i < |refs0| ==> |refs0[i]| == n
    ensures |pending| < n
    ensures forall i :: 0 <= i < |refs| ==> |refs[i]| == n
    ensures Flatten(refs) + pending == Flatten(refs0) + pending0 + view
  {
    refs, pending := refs0, pending0;
    var offset := 0;
    while offset < |view|
      invariant 0 <= offset <= |view| && |pending| < n
      invariant forall i :: 0 <= i < |refs| ==> |refs[i]| == n
      invariant Flatten(refs) + pending == Flatten(refs0) + pending0 + view[..offset]
    {
      hide Flatten;
      var take := if n - |pending| < |view| - offset then n - |pending| else |view| - offset;
      ghost var x := view[offset..offset + take];
      assert view[..offset + take] == view[..offset] + x;
      assert Flatten(refs) + (pending + x) == (Flatten(refs) + pending) + x;
      assert (Flatten(refs0) + pending0 + view[..offset]) + x == Flatten(refs0) + pending0 + (view[..offset] + x);
      pending := pending + view[offset..offset + take];
      offset := offset + take;
      if |pending| == n {
        FlattenOne(refs, pending);
        refs := refs + [pending];
        pending := [];
        assert Flatten(refs) + pending == Flatten(refs);
      }
    }
    assert view[..offset] == view;
  }

  /** The segment list depends only on the bytes of the stream, not on how it was chunked. */
  method SplitStream(chunks: seq<seq<byte>>, n: nat) returns (refs: seq<seq<byte>>)
    requires n > 0
    ensures refs == Cut(Flatten(chunks), n)
  {
    refs := [];
    var pending: seq<byte> := [];
    var k := 0;
    while k < |chunks|
      invariant 0 <= k <= |chunks| && |pending| < n
      invariant forall i :: 0 <= i < |refs| ==> |refs[i]| == n
      invariant Flatten(refs) + pending == Flatten(chunks[..k])
    {
      refs, pending := TakeChunk(chunks[k], n, refs, pending);
      assert chunks[..k + 1] == chunks[..k] + [chunks[k]];
      FlattenOne(chunks[..k], chunks[k]);
      k := k + 1;
    }
    assert chunks[..k] == chunks;
    if pending != [] || refs == [] {
      CutFull(refs, pending, n);
      refs := refs + [pending];
    } else {
      assert Flatten(refs) + pending == Flatten(refs);
      CutExact(refs, n);
    }
  }

  /** Bytes read in pieces of at most `n`. */
  method Pieces(data: seq<byte>, n: nat) returns (chunks: seq<seq<byte>>)
    requires n > 0
    ensures Flatten(chunks) == data
    ensures forall c :: c in chunks ==> 0 < |c| <= n
  {
    chunks := [];
    var at := 0;
    while at < |data|
      invariant at <= |data| && Flatten(chunks) == data[..at]
      invariant forall c :: c in chunks ==> 0 < |c| <= n
    {
      var take := if |data| - at < n then |data| - at else n;
      FlattenOne(chunks, data[at..at + take]);
      assert data[..at] + data[at..at + take] == data[..at + take];
      chunks := chunks + [data[at..at + take]];
      at := at + take;
    }
    assert data[..at] == data;
  }
}
