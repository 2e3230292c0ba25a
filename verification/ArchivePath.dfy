/**
 Relative paths in a transition image.

 A raw path is read as a POSIX path: components between slashes, with empty ones and "." dropped. Absolute paths,
 "..", back-slashes and NUL bytes are refused (the last by the operating system's open call).
 */
module ArchivePath {
  import opened Bytes
  import Utf8Plan

  type Path = seq<byte>

  const SLASH: byte := 47
  const DOT: byte := 46
  const BACKSLASH: byte := 92

  /** The fields between slashes; n slashes give n + 1 fields. */
  function SplitSlash(s: seq<byte>): (parts: seq<seq<byte>>)
    ensures parts != []
  {
    if s == [] then [[]]
    else
      var rest := SplitSlash(s[1..]);
      if s[0] == SLASH then [[]] + rest
      else [[s[0]] + rest[0]] + rest[1..]
  }

  function JoinSlash(parts: seq<seq<byte>>): seq<byte> {
    if parts == [] then []
    else if |parts| == 1 then parts[0]
    else parts[0] + [SLASH] + JoinSlash(parts[1..])
  }

  predicate Kept(part: seq<byte>) {
    part != [] && part != [DOT]
  }

  function KeepParts(parts: seq<seq<byte>>): seq<seq<byte>> {
    if parts == [] then []
    else (if Kept(parts[0]) then [parts[0]] else []) + KeepParts(parts[1..])
  }

  /** PurePosixPath(text).parts for a relative path. */
  function Parts(text: seq<byte>): seq<seq<byte>> {
    KeepParts(SplitSlash(text))
  }

  predicate SafePart(part: seq<byte>) {
    part != [DOT, DOT] && BACKSLASH !in part && 0 !in part
  }

  /** The normal form of a safe relative path, or None when the path is refused. */
  function SafeRelative(raw: seq<byte>): Option<Path> {
    if !Utf8Plan.WellFormed(raw) then None
    else if raw != [] && raw[0] == SLASH then None
    else
      var parts := Parts(raw);
      if parts == [] || (exists p :: p in parts && !SafePart(p)) then None
      else Some(JoinSlash(parts))
  }

  // ---- splitting and joining undo each other on clean components ----

  ghost predicate Clean(part: seq<byte>) {
    Kept(part) && SLASH !in part
  }

  lemma {:induction false} SplitOne(part: seq<byte>)
    requires SLASH !in part
    ensures SplitSlash(part) == [part]
  {
    if part == [] {
    } else {
      SplitOne(part[1..]);
      assert [part[0]] + part[1..] == part;
      assert [part[1..]][1..] == [];
    }
  }

  lemma {:induction false} SplitFirst(part: seq<byte>, rest: seq<byte>)
    requires SLASH !in part
    ensures SplitSlash(part + [SLASH] + rest) == [part] + SplitSlash(rest)
  {
    var s := part + [SLASH] + rest;
    if part == [] {
      assert s[1..] == rest;
    } else {
      SplitFirst(part[1..], rest);
      assert s[1..] == part[1..] + [SLASH] + rest;
      assert [s[0]] + part[1..] == part;
      var tail := SplitSlash(s[1..]);
      assert tail == [part[1..]] + SplitSlash(rest);
      assert tail[1..] == SplitSlash(rest);
    }
  }

  lemma {:induction false} SplitJoin(parts: seq<seq<byte>>)
    requires parts != [] && forall p :: p in parts ==> Clean(p)
    ensures SplitSlash(JoinSlash(parts)) == parts
  {
    hide SplitSlash, Kept;
    assert parts[0] in parts;
    if |parts| == 1 {
      SplitOne(parts[0]);
      assert parts == [parts[0]];
    } else {
      assert forall p :: p in parts[1..] ==> p in parts;
      SplitJoin(parts[1..]);
      SplitFirst(parts[0], JoinSlash(parts[1..]));
      assert parts == [parts[0]] + parts[1..];
    }
  }

  lemma {:induction false} KeepClean(parts: seq<seq<byte>>)
    requires forall p :: p in parts ==> Kept(p)
    ensures KeepParts(parts) == parts
  {
    if parts == [] {
    } else {
      assert parts[0] in parts;
      assert forall p :: p in parts[1..] ==> p in parts;
      KeepClean(parts[1..]);
      assert parts == [parts[0]] + parts[1..];
    }
  }

  lemma {:induction false} KeptParts(parts: seq<seq<byte>>, p: seq<byte>)
    requires p in KeepParts(parts)
    ensures p in parts && Kept(p)
  {
    if parts != [] && !(Kept(parts[0]) && p == parts[0]) {
      assert p in KeepParts(parts[1..]);
      KeptParts(parts[1..], p);
    }
  }

  // ---- UTF-8 survives the cut ----

  /** An ASCII byte never sits inside a longer code point. */
  lemma AsciiEndsCodePoint(s: seq<byte>, i: nat)
    requires 0 < i < |s| && s[i] <= 0x7F
    ensures Utf8Plan.Width(s) <= i
  {
    var w := Utf8Plan.Width(s);
    assert forall k :: 1 <= k < w ==> s[..w][k] == s[k] >= 0x80;
  }

  lemma {:induction false} SplitAtAscii(a: seq<byte>, c: byte, b: seq<byte>)
    requires c <= 0x7F
    requires Utf8Plan.WellFormed(a + [c] + b)
    ensures Utf8Plan.WellFormed(a) && Utf8Plan.WellFormed(b)
    decreases |a|
  {
    hide Utf8Plan.IsCodePoint;
    var s := a + [c] + b;
    if a == [] {
      assert Utf8Plan.IsCodePoint([c]) by {
        AsciiIsCodePoint(c);
      }
      assert s[..1] == [c];
      Utf8Plan.WidthUnique(s, 1);
      assert s[1..] == b;
    } else {
      AsciiEndsCodePoint(s, |a|);
      var w := Utf8Plan.Width(s);
      assert a == a[..w] + a[w..];
      assert s == a[..w] + (a[w..] + [c] + b);
      assert s[w..] == a[w..] + [c] + b;
      SplitAtAscii(a[w..], c, b);
      assert s[..w] == a[..w];
      Utf8Plan.WidthUnique(a, w);
    }
  }

  lemma AsciiIsCodePoint(c: byte)
    requires c <= 0x7F
    ensures Utf8Plan.IsCodePoint([c])
  {
  }

  /** Either there is no slash, or the text before the first one and the text after it are the pieces. */
  lemma {:induction false} FirstSlash(s: seq<byte>) returns (a: seq<byte>, b: seq<byte>)
    requires SLASH in s
    ensures s == a + [SLASH] + b && SLASH !in a
  {
    if s[0] == SLASH {
      a, b := [], s[1..];
    } else {
      assert s == [s[0]] + s[1..];
      a, b := FirstSlash(s[1..]);
      a := [s[0]] + a;
    }
  }

  lemma {:induction false} SplitWellFormed(s: seq<byte>, p: seq<byte>)
    requires Utf8Plan.WellFormed(s)
    requires p in SplitSlash(s)
    ensures Utf8Plan.WellFormed(p) && SLASH !in p
    decreases |s|
  {
    hide SplitSlash, Utf8Plan.WellFormed;
    if SLASH in s {
      var a, b := FirstSlash(s);
      SplitFirst(a, b);
      SplitAtAscii(a, SLASH, b);
      if p != a {
        SplitWellFormed(b, p);
      }
    } else {
      SplitOne(s);
    }
  }

  lemma {:induction false} JoinWellFormed(parts: seq<seq<byte>>)
    requires forall p :: p in parts ==> Utf8Plan.WellFormed(p)
    ensures Utf8Plan.WellFormed(JoinSlash(parts))
  {
    if |parts| == 1 {
      assert parts[0] in parts;
    } else if |parts| > 1 {
      assert parts[0] in parts;
      assert forall p :: p in parts[1..] ==> p in parts;
      JoinWellFormed(parts[1..]);
      var rest := JoinSlash(parts[1..]);
      Utf8Plan.WidthUnique([SLASH], 1);
      assert [SLASH][1..] == [];
      assert Utf8Plan.WellFormed([SLASH]);
      Utf8Plan.Cancel([SLASH], rest);
      Utf8Plan.Cancel(parts[0], [SLASH] + rest);
      assert parts[0] + [SLASH] + rest == parts[0] + ([SLASH] + rest);
    }
  }

  /** The normal form is a fixed point: what was accepted once is accepted again, as itself. */
  lemma SafeRelativeIdempotent(raw: seq<byte>)
    requires SafeRelative(raw).Some?
    ensures SafeRelative(SafeRelative(raw).value) == SafeRelative(raw)
  {
    hide SplitSlash, KeepParts, JoinSlash, Utf8Plan.WellFormed;
    var parts := Parts(raw);
    forall p | p in parts
      ensures Clean(p) && Utf8Plan.WellFormed(p)
    {
      KeptParts(SplitSlash(raw), p);
      SplitWellFormed(raw, p);
    }
    SplitJoin(parts);
    KeepClean(parts);
    JoinWellFormed(parts);
    JoinHead(parts);
  }

  lemma JoinHead(parts: seq<seq<byte>>)
    requires parts != [] && forall p :: p in parts ==> Clean(p)
    ensures JoinSlash(parts) != [] && JoinSlash(parts)[0] != SLASH
  {
    assert parts[0] in parts;
  }

  // ---- what is accepted, by positions ----

  /** raw[i..j] is a maximal stretch without a slash. */
  ghost predicate Component(raw: seq<byte>, i: nat, j: nat): (yes: bool)
    ensures yes ==> i <= j <= |raw|
  {
    && i <= j <= |raw|
    && (i == 0 || raw[i - 1] == 47)
    && (j == |raw| || raw[j] == 47)
    && forall k :: i <= k < j ==> raw[k] != 47
  }

  datatype Stretch = Stretch(from: nat, to: nat)

  ghost predicate IsComponent(raw: seq<byte>, c: Stretch) {
    Component(raw, c.from, c.to)
  }

  function Text(raw: seq<byte>, c: Stretch): seq<byte> {
    if c.from <= c.to <= |raw| then raw[c.from..c.to] else []
  }

  function Texts(raw: seq<byte>, cs: seq<Stretch>): (parts: seq<seq<byte>>)
    ensures |parts| == |cs| && forall k :: 0 <= k < |cs| ==> parts[k] == Text(raw, cs[k])
  {
    seq(|cs|, k requires 0 <= k < |cs| => Text(raw, cs[k]))
  }

  /** From left to right. */
  ghost predicate Ordered(cs: seq<Stretch>) {
    forall k, l :: 0 <= k < l < |cs| ==> cs[k].to < cs[l].from
  }

  lemma OrderedCons(c: Stretch, cs: seq<Stretch>)
    requires Ordered(cs) && forall k :: 0 <= k < |cs| ==> c.to < cs[k].from
    ensures Ordered([c] + cs)
  {
  }

  lemma OneOrdered(c: Stretch)
    ensures Ordered([c])
  {
  }

  lemma ConsMember(c: Stretch, cs: seq<Stretch>, x: Stretch)
    ensures x in [c] + cs <==> x == c || x in cs
  {
  }

  ghost function NextSlash(raw: seq<byte>, at: nat): (n: nat)
    requires at <= |raw|
    ensures at <= n <= |raw| && (n == |raw| || raw[n] == SLASH)
    ensures forall k :: at <= k < n ==> raw[k] != SLASH
    decreases |raw| - at
  {
    if at == |raw| || raw[at] == SLASH then at else NextSlash(raw, at + 1)
  }

  /** The stretches from a component's start on. */
  ghost function Stretches(raw: seq<byte>, at: nat): seq<Stretch>
    requires at <= |raw|
    decreases |raw| - at
  {
    var n := NextSlash(raw, at);
    if n == |raw| then [Stretch(at, n)] else [Stretch(at, n)] + Stretches(raw, n + 1)
  }

  lemma {:induction false} SplitIsStretches(raw: seq<byte>, at: nat)
    requires at <= |raw|
    ensures SplitSlash(raw[at..]) == Texts(raw, Stretches(raw, at))
    decreases |raw| - at
  {
    hide SplitSlash, NextSlash;
    var n := NextSlash(raw, at);
    var cs := Stretches(raw, at);
    assert SLASH !in raw[at..n];
    if n == |raw| {
      SplitOne(raw[at..]);
      assert raw[at..] == raw[at..n];
      assert Texts(raw, cs) == [raw[at..n]];
    } else {
      SplitIsStretches(raw, n + 1);
      SplitFirst(raw[at..n], raw[n + 1..]);
      assert raw[at..] == raw[at..n] + [SLASH] + raw[n + 1..];
      assert Texts(raw, cs) == [raw[at..n]] + Texts(raw, Stretches(raw, n + 1));
    }
  }

  lemma SameComponent(raw: seq<byte>, at: nat, c: Stretch)
    requires at <= |raw| && (at == 0 || raw[at - 1] == SLASH)
    requires IsComponent(raw, c) && c.from >= at
    ensures c == Stretch(at, NextSlash(raw, at)) || c.from > NextSlash(raw, at)
  {
    hide NextSlash;
    assert c.from == at || raw[c.from - 1] == SLASH;
  }

  lemma {:induction false} StretchesMember(raw: seq<byte>, at: nat, c: Stretch)
    requires at <= |raw| && (at == 0 || raw[at - 1] == SLASH)
    ensures c in Stretches(raw, at) <==> IsComponent(raw, c) && c.from >= at
    decreases |raw| - at
  {
    hide NextSlash, IsComponent;
    var n := NextSlash(raw, at);
    FirstComponent(raw, at);
    if IsComponent(raw, c) && c.from >= at {
      SameComponent(raw, at, c);
    }
    if n < |raw| {
      StretchesMember(raw, n + 1, c);
      ConsMember(Stretch(at, n), Stretches(raw, n + 1), c);
    } else if IsComponent(raw, c) && c.from > n {
      StretchInside(raw, c);
    }
  }

  lemma FirstComponent(raw: seq<byte>, at: nat)
    requires at <= |raw| && (at == 0 || raw[at - 1] == SLASH)
    ensures IsComponent(raw, Stretch(at, NextSlash(raw, at)))
  {
  }

  lemma StretchInside(raw: seq<byte>, c: Stretch)
    requires IsComponent(raw, c)
    ensures c.from <= c.to <= |raw|
  {
  }

  lemma {:induction false} StretchesOrdered(raw: seq<byte>, at: nat)
    requires at <= |raw| && (at == 0 || raw[at - 1] == SLASH)
    ensures Ordered(Stretches(raw, at))
    decreases |raw| - at
  {
    hide NextSlash, IsComponent, Ordered;
    var n := NextSlash(raw, at);
    if n < |raw| {
      var rest := Stretches(raw, n + 1);
      StretchesOrdered(raw, n + 1);
      forall k | 0 <= k < |rest|
        ensures rest[k].from > n
      {
        assert rest[k] in rest;
        StretchesMember(raw, n + 1, rest[k]);
      }
      OrderedCons(Stretch(at, n), rest);
    } else {
      OneOrdered(Stretch(at, n));
    }
  }

  function KeepStretches(raw: seq<byte>, cs: seq<Stretch>): seq<Stretch> {
    if cs == [] then []
    else (if Kept(Text(raw, cs[0])) then [cs[0]] else []) + KeepStretches(raw, cs[1..])
  }

  lemma {:induction false} KeepTexts(raw: seq<byte>, cs: seq<Stretch>)
    ensures KeepParts(Texts(raw, cs)) == Texts(raw, KeepStretches(raw, cs))
  {
    if cs == [] {
    } else {
      KeepTexts(raw, cs[1..]);
      assert Texts(raw, cs)[1..] == Texts(raw, cs[1..]);
    }
  }

  lemma {:induction false} KeepMember(raw: seq<byte>, cs: seq<Stretch>, c: Stretch)
    ensures c in KeepStretches(raw, cs) <==> c in cs && Kept(Text(raw, c))
  {
    hide Kept, Text;
    if cs == [] {
    } else {
      KeepMember(raw, cs[1..], c);
      assert cs == [cs[0]] + cs[1..];
      ConsMember(cs[0], cs[1..], c);
      ConsMember(cs[0], KeepStretches(raw, cs[1..]), c);
      assert [] + KeepStretches(raw, cs[1..]) == KeepStretches(raw, cs[1..]);
    }
  }

  lemma {:induction false} KeepOrdered(raw: seq<byte>, cs: seq<Stretch>)
    requires Ordered(cs)
    ensures Ordered(KeepStretches(raw, cs))
  {
    hide Kept, Text;
    if cs == [] {
    } else {
      var rest := KeepStretches(raw, cs[1..]);
      KeepOrdered(raw, cs[1..]);
      forall k | 0 <= k < |rest|
        ensures cs[0].to < rest[k].from
      {
        assert rest[k] in rest;
        KeepMember(raw, cs[1..], rest[k]);
      }
      OrderedCons(cs[0], rest);
      assert [] + rest == rest;
    }
  }

  /** Neither empty nor the dot that stands for the directory itself. */
  ghost predicate Named(raw: seq<byte>, i: nat, j: nat) {
    Component(raw, i, j) && raw[i..j] != [] && raw[i..j] != [46]
  }

  /** Exactly the named components of raw, from left to right. */
  ghost predicate NamedComponents(raw: seq<byte>, cs: seq<Stretch>) {
    && Ordered(cs)
    && forall c :: c in cs <==> Named(raw, c.from, c.to)
  }

  lemma PartsByPosition(raw: seq<byte>) returns (cs: seq<Stretch>)
    ensures NamedComponents(raw, cs) && Parts(raw) == Texts(raw, cs)
  {
    hide SplitSlash, KeepParts, KeepStretches, Stretches;
    var all := Stretches(raw, 0);
    SplitIsStretches(raw, 0);
    StretchesOrdered(raw, 0);
    assert raw[0..] == raw;
    cs := KeepStretches(raw, all);
    KeepTexts(raw, all);
    KeepOrdered(raw, all);
    forall c
      ensures c in cs <==> Named(raw, c.from, c.to)
    {
      StretchesMember(raw, 0, c);
      KeepMember(raw, all, c);
    }
  }

  /** A component that leads out of the directory, or that the operating system would not take for a name. */
  ghost predicate Harmful(part: seq<byte>) {
    part == [46, 46] || 92 in part || 0 in part
  }

  /** The kept fields are exactly the texts of the named components. */
  lemma PartIsNamed(raw: seq<byte>, p: seq<byte>)
    ensures p in Parts(raw) <==> exists i: nat, j: nat :: Named(raw, i, j) && raw[i..j] == p
  {
    hide Parts;
    var cs := PartsByPosition(raw);
    if p in Parts(raw) {
      var k :| 0 <= k < |cs| && Texts(raw, cs)[k] == p;
      assert cs[k] in cs && Named(raw, cs[k].from, cs[k].to);
    }
    if i: nat, j: nat :| Named(raw, i, j) && raw[i..j] == p {
      assert Stretch(i, j) in cs;
      var k :| 0 <= k < |cs| && cs[k] == Stretch(i, j);
      assert Texts(raw, cs)[k] == p;
    }
  }

  /** What is accepted: well-formed UTF-8 that does not start with a slash, names something, and has no component that
      is two dots or holds a back-slash or a NUL. The value is its named components, in order, joined by slashes. */
  lemma SafeRelativeExactly(raw: seq<byte>)
    ensures SafeRelative(raw).Some? <==>
            && Utf8Plan.WellFormed(raw)
            && (raw != [] ==> raw[0] != 47)
            && (exists i: nat, j: nat :: Named(raw, i, j))
            && (forall i: nat, j: nat :: Component(raw, i, j) ==> !Harmful(raw[i..j]))
    ensures SafeRelative(raw).Some? ==>
              exists cs :: NamedComponents(raw, cs) && SafeRelative(raw).value == JoinSlash(Texts(raw, cs))
  {
    hide Utf8Plan.WellFormed, JoinSlash, Parts, Component;
    var parts := Parts(raw);
    if parts != [] {
      assert parts[0] in parts;
      PartIsNamed(raw, parts[0]);
    }
    if i: nat, j: nat :| Named(raw, i, j) {
      PartIsNamed(raw, raw[i..j]);
    }
    forall p | p in parts && !SafePart(p)
      ensures exists i: nat, j: nat :: Component(raw, i, j) && Harmful(raw[i..j])
    {
      PartIsNamed(raw, p);
    }
    forall i: nat, j: nat | Component(raw, i, j) && Harmful(raw[i..j])
      ensures raw[i..j] in parts && !SafePart(raw[i..j])
    {
      assert Named(raw, i, j);
      PartIsNamed(raw, raw[i..j]);
    }
    var cs := PartsByPosition(raw);
  }

  // ---- the accepted paths are the fixed points ----

  /** Every component is a name: not empty, not one dot, not harmful. */
  ghost predicate NormalPath(path: Path) {
    && Utf8Plan.WellFormed(path)
    && forall i: nat, j: nat :: Component(path, i, j) ==> path[i..j] != [] && path[i..j] != [46] && !Harmful(path[i..j])
  }

  lemma FieldIsComponent(raw: seq<byte>, p: seq<byte>)
    ensures p in SplitSlash(raw) <==> exists i: nat, j: nat :: Component(raw, i, j) && raw[i..j] == p
  {
    hide SplitSlash, Stretches, Component;
    var all := Stretches(raw, 0);
    SplitIsStretches(raw, 0);
    assert raw[0..] == raw;
    if p in SplitSlash(raw) {
      var k :| 0 <= k < |all| && Texts(raw, all)[k] == p;
      StretchesMember(raw, 0, all[k]);
      StretchInside(raw, all[k]);
    }
    if i: nat, j: nat :| Component(raw, i, j) && raw[i..j] == p {
      StretchesMember(raw, 0, Stretch(i, j));
      StretchInside(raw, Stretch(i, j));
      var k :| 0 <= k < |all| && all[k] == Stretch(i, j);
      assert Texts(raw, all)[k] == p;
    }
  }

  lemma {:induction false} JoinSplit(s: seq<byte>)
    ensures JoinSlash(SplitSlash(s)) == s
    decreases |s|
  {
    hide SplitSlash;
    if SLASH in s {
      var a, b := FirstSlash(s);
      SplitFirst(a, b);
      JoinSplit(b);
      assert SplitSlash(s)[1..] == SplitSlash(b);
    } else {
      SplitOne(s);
    }
  }

  /** Whatever is accepted is normal, and the normal paths are those accepted as themselves. */
  lemma AcceptedAreNormal(raw: seq<byte>)
    ensures SafeRelative(raw).Some? ==> NormalPath(SafeRelative(raw).value)
    ensures NormalPath(raw) <==> SafeRelative(raw) == Some(raw)
  {
    hide SafeRelative, NormalPath;
    if SafeRelative(raw).Some? {
      SafeRelativeIdempotent(raw);
      FixedIsNormal(SafeRelative(raw).value);
    }
    if NormalPath(raw) {
      NormalIsFixed(raw);
    }
  }

  lemma FixedIsNormal(v: Path)
    requires SafeRelative(v) == Some(v)
    ensures NormalPath(v)
  {
    hide SplitSlash, KeepParts, JoinSlash, Utf8Plan.WellFormed, Component;
    var parts := Parts(v);
    forall p | p in parts
      ensures Clean(p)
    {
      KeptParts(SplitSlash(v), p);
      SplitWellFormed(v, p);
    }
    SplitJoin(parts);
    forall i: nat, j: nat | Component(v, i, j)
      ensures v[i..j] != [] && v[i..j] != [46] && !Harmful(v[i..j])
    {
      StretchInside(v, Stretch(i, j));
      FieldIsComponent(v, v[i..j]);
    }
  }

  lemma NormalIsFixed(v: Path)
    requires NormalPath(v)
    ensures SafeRelative(v) == Some(v)
  {
    hide SplitSlash, KeepParts, JoinSlash, Utf8Plan.WellFormed;
    forall p | p in SplitSlash(v)
      ensures Kept(p) && SafePart(p)
    {
      FieldIsComponent(v, p);
    }
    KeepClean(SplitSlash(v));
    JoinSplit(v);
    assert v[0..0] == [];
    assert !Component(v, 0, 0);
  }
}
