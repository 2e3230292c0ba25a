/**
 The file name of a directory node: escaped path components joined by a double underscore.

 Distinct paths can share a file name. It is shown exactly which paths are affected.
 */
module FileName {
  type Text = string

  function PercentChar(x: char): Text {
    if x == '%' then "%25" else [x]
  }

  /** Percent signs escaped. */
  function Percent(c: Text): Text {
    if c == "" then "" else PercentChar(c[0]) + Percent(c[1..])
  }

  /** Pairs of underscores escaped, from the left. */
  function Under(s: Text): Text {
    if s == "" then ""
    else if |s| >= 2 && s[0] == '_' && s[1] == '_' then "%5F%5F" + Under(s[2..])
    else [s[0]] + Under(s[1..])
  }

  function Encode(c: Text): Text {
    Under(Percent(c))
  }

  /** Encoded components joined by double underscores. */
  function Join(xs: seq<Text>): Text {
    if xs == [] then "" else if |xs| == 1 then Encode(xs[0]) else Encode(xs[0]) + "__" + Join(xs[1..])
  }

  ghost predicate Path(xs: seq<Text>) {
    forall i :: 0 <= i < |xs| ==> xs[i] != ""
  }

  // ---- the ends of an encoded component ----

  predicate StartsLone(c: Text) {
    c != "" && c[0] == '_' && (|c| == 1 || c[1] != '_')
  }

  predicate StartsPlain(c: Text) {
    c != "" && c[0] != '_'
  }

  /** The text ends in an odd number of underscores. */
  predicate OddTail(c: Text) {
    c != "" && c[|c| - 1] == '_' && !OddTail(c[..|c| - 1])
  }

  ghost predicate NoDouble(s: Text) {
    forall i :: 0 <= i < |s| - 1 ==> !(s[i] == '_' && s[i + 1] == '_')
  }

  lemma {:induction false} OddTailPrepend(p: Text, t: Text)
    requires !OddTail(p)
    ensures OddTail(p + t) == OddTail(t)
  {
    if t == "" {
      assert p + t == p;
    } else {
      OddTailPrepend(p, t[..|t| - 1]);
      assert (p + t)[..|p + t| - 1] == p + t[..|t| - 1];
    }
  }

  lemma UnderHead(s: Text)
    requires s != ""
    ensures Under(s) != "" && (Under(s)[0] == '_' <==> StartsLone(s))
  {
  }

  lemma {:induction false} UnderNoDouble(s: Text)
    ensures NoDouble(Under(s))
  {
    if |s| >= 2 && s[0] == '_' && s[1] == '_' {
      UnderNoDouble(s[2..]);
      var rest := Under(s[2..]);
      forall i | 0 <= i < |Under(s)| - 1 ensures !(Under(s)[i] == '_' && Under(s)[i + 1] == '_') {
        if i >= 6 {
          assert Under(s)[i] == rest[i - 6] && Under(s)[i + 1] == rest[i - 5];
        }
      }
    } else if s != "" {
      UnderNoDouble(s[1..]);
      var rest := Under(s[1..]);
      if s[1..] != "" {
        UnderHead(s[1..]);
      }
      forall i | 0 <= i < |Under(s)| - 1 ensures !(Under(s)[i] == '_' && Under(s)[i + 1] == '_') {
        if i >= 1 {
          assert Under(s)[i] == rest[i - 1] && Under(s)[i + 1] == rest[i];
        }
      }
    }
  }

  predicate Pair(s: Text) {
    |s| >= 2 && s[0] == '_' && s[1] == '_'
  }

  lemma OddTailPair(s: Text)
    requires Pair(s)
    ensures OddTail(s) == OddTail(s[2..])
  {
    assert !OddTail("__") by {
      assert "__"[..1] == "_" && "_"[..0] == "";
    }
    OddTailPrepend("__", s[2..]);
    assert "__" + s[2..] == s;
  }

  lemma OddTailRest(s: Text)
    requires s != "" && !Pair(s)
    ensures OddTail(s) == if s == "_" then true else OddTail(s[1..])
  {
    if s == "_" {
      assert s[..0] == "";
    } else if s[0] == '_' {
      assert !OddTail(s[..2]) && !OddTail(s[1..2]);
      OddTailPrepend(s[..2], s[2..]);
      OddTailPrepend(s[1..2], s[2..]);
      assert s[..2] + s[2..] == s && s[1..2] + s[2..] == s[1..];
    } else {
      assert !OddTail([s[0]]);
      OddTailPrepend([s[0]], s[1..]);
      assert [s[0]] + s[1..] == s;
    }
  }

  /** An encoded text ends in an underscore exactly when the text ends in an odd number of them. */
  lemma {:induction false} UnderTail(s: Text)
    requires s != ""
    ensures Under(s) != "" && (Under(s)[|Under(s)| - 1] == '_' <==> OddTail(s))
  {
    hide OddTail;
    if Pair(s) {
      OddTailPair(s);
      if s[2..] == "" {
        NoTail();
      } else {
        UnderTail(s[2..]);
      }
    } else {
      OddTailRest(s);
      if s[1..] == "" {
        NoTail();
        assert Under(s[1..]) == "";
      } else {
        UnderTail(s[1..]);
      }
    }
  }

  lemma NoTail()
    ensures !OddTail("")
  {
  }

  /** One more underscore after an even number of them stays as it is. */
  lemma {:induction false} UnderAppend(s: Text)
    requires !OddTail(s)
    ensures Under(s + "_") == Under(s) + "_"
  {
    hide OddTail;
    if s == "" {
      assert "" + "_" == "_" && "_"[1..] == "";
    } else if Pair(s) {
      OddTailPair(s);
      UnderAppend(s[2..]);
      assert (s + "_")[2..] == s[2..] + "_";
      assert "%5F%5F" + (Under(s[2..]) + "_") == "%5F%5F" + Under(s[2..]) + "_";
    } else {
      OddTailRest(s);
      UnderAppend(s[1..]);
      assert (s + "_")[1..] == s[1..] + "_";
      assert [s[0]] + (Under(s[1..]) + "_") == [s[0]] + Under(s[1..]) + "_";
    }
  }

  lemma Associate(a: Text, b: Text, c: Text)
    ensures a + (b + c) == a + b + c
  {
  }

  lemma {:induction false} PercentAppend(a: Text, b: Text)
    ensures Percent(a + b) == Percent(a) + Percent(b)
  {
    hide PercentChar;
    if a == "" {
      assert a + b == b;
    } else {
      PercentAppend(a[1..], b);
      assert (a + b)[1..] == a[1..] + b;
      assert (a + b)[0] == a[0];
      Associate(PercentChar(a[0]), Percent(a[1..]), Percent(b));
    }
  }

  lemma PercentOne(x: char)
    ensures Percent([x]) == if x == '%' then "%25" else [x]
  {
    assert [x][1..] == "";
  }

  lemma {:induction false} PercentTail(c: Text)
    ensures OddTail(Percent(c)) == OddTail(c)
  {
    if c == "" {
    } else {
      var k := |c| - 1;
      PercentTail(c[..k]);
      PercentAppend(c[..k], [c[k]]);
      PercentOne(c[k]);
      assert c[..k] + [c[k]] == c;
      if c[k] != '%' {
        assert Percent(c)[..|Percent(c)| - 1] == Percent(c[..k]);
      }
    }
  }

  lemma PercentHead(c: Text)
    requires c != ""
    ensures Percent(c) != "" && (Percent(c)[0] == '_' <==> c[0] == '_')
    ensures StartsLone(Percent(c)) == StartsLone(c)
  {
    assert Percent(c) == PercentChar(c[0]) + Percent(c[1..]);
    if c[0] == '_' && |c| > 1 {
      PercentHead(c[1..]);
      assert Percent(c) == "_" + Percent(c[1..]);
    }
  }

  /** What is needed about one encoded component. */
  lemma EncodeEnds(c: Text)
    requires c != ""
    ensures Encode(c) != "" && NoDouble(Encode(c))
    ensures Encode(c)[0] == '_' <==> StartsLone(c)
    ensures Encode(c)[|Encode(c)| - 1] == '_' <==> OddTail(c)
  {
    PercentHead(c);
    PercentTail(c);
    UnderHead(Percent(c));
    UnderTail(Percent(c));
    UnderNoDouble(Percent(c));
  }

  lemma EncodeAppend(c: Text)
    requires !OddTail(c)
    ensures Encode(c + "_") == Encode(c) + "_"
  {
    PercentAppend(c, "_");
    PercentOne('_');
    PercentTail(c);
    UnderAppend(Percent(c));
  }

  lemma EncodePrepend(c: Text)
    requires StartsPlain(c)
    ensures Encode("_" + c) == "_" + Encode(c)
  {
    PercentHead(c);
    assert ("_" + c)[1..] == c;
    assert Percent("_" + c) == "_" + Percent(c);
    assert ("_" + Percent(c))[1..] == Percent(c);
  }

  lemma EncodeUnderscore()
    ensures Encode("_") == "_"
  {
    assert "_"[1..] == "";
    assert Percent("_") == "_";
  }

  // ---- what an encoded component says ----

  function HexDigit(x: char): nat {
    if '0' <= x <= '9' then x as nat - '0' as nat
    else if 'A' <= x <= 'F' then x as nat - 'A' as nat + 10
    else 0
  }

  /** Ordinary percent-decoding: a percent sign and two hexadecimal digits stand for one character. */
  function PercentDecode(s: Text): Text {
    if s == "" then ""
    else if s[0] == '%' && |s| >= 3 then [(16 * HexDigit(s[1]) + HexDigit(s[2])) as char] + PercentDecode(s[3..])
    else [s[0]] + PercentDecode(s[1..])
  }

  lemma UnderPlain(x: char, s: Text)
    requires x != '_' || s == "" || s[0] != '_'
    ensures Under([x] + s) == [x] + Under(s)
  {
    assert ([x] + s)[1..] == s;
  }

  lemma DecodePlain(x: char, s: Text)
    requires x != '%'
    ensures PercentDecode([x] + s) == [x] + PercentDecode(s)
  {
    assert ([x] + s)[1..] == s;
  }

  lemma DecodePercent(s: Text)
    ensures PercentDecode("%25" + s) == "%" + PercentDecode(s)
    ensures PercentDecode("%5F" + s) == "_" + PercentDecode(s)
  {
    assert ("%25" + s)[3..] == s && ("%5F" + s)[3..] == s;
  }

  lemma UnderPercent(s: Text)
    ensures Under("%25" + s) == "%25" + Under(s)
  {
    UnderPlain('5', s);
    UnderPlain('2', "5" + s);
    UnderPlain('%', "2" + ("5" + s));
    assert "%25" + s == "%" + ("2" + ("5" + s));
    assert "%" + ("2" + ("5" + Under(s))) == "%25" + Under(s);
  }

  lemma UnderPair(s: Text)
    ensures Under("__" + s) == "%5F" + ("%5F" + Under(s))
  {
    assert ("__" + s)[2..] == s;
    assert "%5F%5F" + Under(s) == "%5F" + ("%5F" + Under(s));
  }

  lemma PercentCons(c: Text)
    requires c != ""
    ensures Percent(c) == PercentChar(c[0]) + Percent(c[1..])
  {
  }

  /** Percent-decoding undoes the encoding. */
  lemma {:induction false} DecodeUndoesEncode(c: Text)
    ensures PercentDecode(Encode(c)) == c
    decreases |c|
  {
    hide PercentDecode, Under, Percent;
    if c == "" {
      EmptyDecodes();
    } else {
      PercentCons(c);
      var rest := c[1..];
      if c[0] == '%' {
        UnderPercent(Percent(rest));
        DecodePercent(Encode(rest));
        DecodeUndoesEncode(rest);
      } else if Pair(c) {
        PercentCons(rest);
        assert rest[1..] == c[2..];
        assert Percent(c) == "__" + Percent(c[2..]);
        UnderPair(Percent(c[2..]));
        DecodePercent("%5F" + Encode(c[2..]));
        DecodePercent(Encode(c[2..]));
        DecodeUndoesEncode(c[2..]);
        assert "_" + ("_" + c[2..]) == c;
      } else {
        if rest != "" {
          PercentHead(rest);
        } else {
          EmptyDecodes();
        }
        UnderPlain(c[0], Percent(rest));
        DecodePlain(c[0], Encode(rest));
        DecodeUndoesEncode(rest);
      }
    }
  }

  lemma EmptyDecodes()
    ensures Percent("") == "" && Encode("") == "" && PercentDecode("") == ""
  {
  }

  lemma {:induction false} PercentLength(c: Text)
    ensures |Percent(c)| >= |c| && (|Percent(c)| == |c| <==> '%' !in c)
    ensures '%' !in c ==> Percent(c) == c
  {
    if c == "" {
    } else {
      PercentLength(c[1..]);
      assert c == [c[0]] + c[1..];
    }
  }

  lemma DoubleDrop(s: Text)
    requires s != ""
    ensures NoDouble(s) <==> !Pair(s) && NoDouble(s[1..])
  {
    if NoDouble(s[1..]) && !Pair(s) {
      forall i | 0 <= i < |s| - 1 ensures !(s[i] == '_' && s[i + 1] == '_') {
        if i > 0 {
          assert s[i] == s[1..][i - 1] && s[i + 1] == s[1..][i];
        }
      }
    }
  }

  lemma {:induction false} UnderLength(s: Text)
    ensures |Under(s)| >= |s| && (|Under(s)| == |s| <==> NoDouble(s))
    ensures NoDouble(s) ==> Under(s) == s
    decreases |s|
  {
    hide NoDouble;
    if s == "" {
      assert NoDouble("") by {
        UnderNoDouble("");
      }
    } else {
      DoubleDrop(s);
      if Pair(s) {
        UnderLength(s[2..]);
      } else {
        UnderLength(s[1..]);
        assert s == [s[0]] + s[1..];
      }
    }
  }

  /** A component keeps its own name exactly when it has no percent sign and no two underscores in a row. */
  lemma OrdinaryUnchanged(c: Text)
    ensures Encode(c) == c <==> '%' !in c && NoDouble(c)
  {
    hide Percent, Under, NoDouble;
    PercentLength(c);
    UnderLength(Percent(c));
    UnderLength(c);
  }

  // ---- encoding is injective ----

  /** Every percent sign begins an escape of itself. */
  ghost predicate Escaped(s: Text) {
    forall i :: 0 <= i < |s| && s[i] == '%' ==> i + 1 < |s| && s[i + 1] == '2'
  }

  lemma {:induction false} PercentEscaped(c: Text)
    ensures Escaped(Percent(c))
  {
    if c == "" {
    } else {
      PercentEscaped(c[1..]);
      var p, rest := Percent(c), Percent(c[1..]);
      var n := |p| - |rest|;
      forall i | 0 <= i < |p| && p[i] == '%' ensures i + 1 < |p| && p[i + 1] == '2' {
        if i >= n {
          assert p[i] == rest[i - n];
        }
      }
    }
  }

  lemma EscapedIsNotPair(s: Text)
    requires Escaped(s) && s != "" && !Pair(s)
    ensures !("%5" <= Under(s))
  {
    assert Under(s)[0] == s[0];
    if s[0] == '%' {
      assert s[1] == '2';
      var rest := s[1..];
      assert rest[0] == '2' && !Pair(rest);
      assert Under(rest)[0] == '2';
    }
  }

  lemma EncodeInjective(a: Text, b: Text)
    requires Encode(a) == Encode(b)
    ensures a == b
  {
    DecodeUndoesEncode(a);
    DecodeUndoesEncode(b);
  }

  // ---- where a separator can slide ----

  /** After any components that are a single underscore comes one that does not start with an underscore. */
  predicate ChainPlain(xs: seq<Text>) {
    xs != [] && if xs[0] == "_" then ChainPlain(xs[1..]) else StartsPlain(xs[0])
  }

  /** After any components that are a single underscore comes one that starts with a lone underscore. */
  predicate ChainLone(xs: seq<Text>) {
    xs != [] && if xs[0] == "_" then ChainLone(xs[1..]) else StartsLone(xs[0])
  }

  /** A component that could hand its last underscore to what follows, or take one from it. */
  predicate SlidesAt(xs: seq<Text>, i: nat)
    requires i < |xs|
  {
    && xs[i] != "_"
    && if OddTail(xs[i]) then ChainPlain(xs[i + 1..]) else ChainLone(xs[i + 1..])
  }

  predicate Slides(xs: seq<Text>) {
    exists i :: 0 <= i < |xs| && SlidesAt(xs, i)
  }

  lemma SlidesLater(xs: seq<Text>)
    requires xs != [] && Slides(xs[1..])
    ensures Slides(xs)
  {
    var i :| 0 <= i < |xs[1..]| && SlidesAt(xs[1..], i);
    assert xs[1..][i + 1..] == xs[i + 2..];
    assert SlidesAt(xs, i + 1);
  }

  ghost predicate HasLone(xs: seq<Text>) {
    exists i :: 0 <= i < |xs| && StartsLone(xs[i])
  }

  lemma JoinCons(xs: seq<Text>)
    requires Path(xs) && xs != []
    ensures Join(xs) != ""
    ensures |xs| > 1 ==> Join(xs) == Encode(xs[0]) + ("__" + Join(xs[1..]))
    ensures |xs| == 1 ==> Join(xs) == Encode(xs[0])
    ensures Path(xs[1..])
    ensures Encode(xs[0]) <= Join(xs)
  {
    EncodeEnds(xs[0]);
    if |xs| > 1 {
      Associate(Encode(xs[0]), "__", Join(xs[1..]));
    }
  }

  lemma DoubleInside(f: Text, s: Text, n: nat)
    requires f <= s && n + 2 <= |f| && s[n] == '_' && s[n + 1] == '_'
    ensures !NoDouble(f)
  {
    assert f[n] == '_' && f[n + 1] == '_';
  }

  /** Two readings of one text, one with a separator earlier than the other's first part ends. */
  lemma EarlierSeparator(e: Text, a: Text, f: Text, rest: Text)
    requires e + ("__" + a) == f + rest && |e| < |f| && NoDouble(f)
    ensures f == e + "_" && rest == "_" + a
  {
    hide NoDouble;
    var s, n := f + rest, |e|;
    assert s[n] == '_' && s[n + 1] == '_';
    if |f| >= n + 2 {
      DoubleInside(f, s, n);
    }
    assert f == s[..n + 1] && rest == s[n + 1..];
  }

  /** A first component that begins two underscores is a lone underscore followed by a separator. */
  lemma UnderscoresFirst(xs: seq<Text>, t: Text)
    requires Path(xs) && xs != [] && Join(xs) == "__" + t
    ensures xs[0] == "_" && |xs| > 1 && "_" + Join(xs[1..]) == t
  {
    hide Encode, Join, NoDouble;
    JoinCons(xs);
    EncodeEnds(xs[0]);
    EncodeUnderscore();
    var e := Encode(xs[0]);
    assert e[0] == Join(xs)[0] == '_';
    if |e| >= 2 {
      DoubleInside(e, Join(xs), 0);
    }
    assert e == "_";
    EncodeInjective(xs[0], "_");
    assert Join(xs)[2..] == t;
    assert ("_" + ("__" + Join(xs[1..])))[2..] == "_" + Join(xs[1..]);
  }

  /** If one path's name is another's after an underscore, the underscore came from a component that starts with it. */
  lemma {:induction false} SlideLeft(xs: seq<Text>, ys: seq<Text>)
    requires Path(xs) && Path(ys) && xs != [] && ys != []
    requires Join(xs) == "_" + Join(ys)
    ensures ChainLone(xs) && StartsLone(xs[0])
    decreases |xs|
  {
    hide Encode, Join;
    JoinCons(xs);
    JoinCons(ys);
    EncodeEnds(xs[0]);
    assert Encode(xs[0])[0] == Join(xs)[0] == '_';
    if xs[0] == "_" {
      EncodeUnderscore();
      assert Join(xs)[1..] == Join(ys);
      assert |xs| > 1;
      assert ("_" + ("__" + Join(xs[1..])))[1..] == "__" + Join(xs[1..]);
      UnderscoresFirst(ys, Join(xs[1..]));
      SlideLeft(xs[1..], ys[1..]);
    }
  }

  lemma LoneIsPrefixed(c: Text) returns (w: Text)
    requires StartsLone(c) && c != "_"
    ensures c == "_" + w && StartsPlain(w) && Encode(c) == "_" + Encode(w)
  {
    w := c[1..];
    EncodePrepend(w);
    assert c == "_" + w;
  }

  /** Encoded components with the same first characters start with the same kind of character. */
  lemma PlainFirst(c: Text, w: Text, t: Text)
    requires c != "" && StartsPlain(w) && Encode(c) <= Encode(w) + t
    ensures StartsPlain(c)
  {
    EncodeEnds(c);
    EncodeEnds(w);
    PercentHead(w);
    if Pair(c) {
      PercentHead(c[1..]);
      assert Percent(c) == "_" + Percent(c[1..]) && Pair(Percent(c));
      assert "%5" <= Encode(c);
      assert (Encode(w) + t)[0] == '%' && (Encode(w) + t)[1] == '5';
      PercentEscaped(w);
      EscapedIsNotPair(Percent(w));
      assert |Encode(w)| == 1;
      OneCharacter(w);
    }
  }

  lemma OneCharacter(w: Text)
    requires StartsPlain(w) && |Encode(w)| == 1
    ensures Encode(w)[0] != '%'
  {
    PercentHead(w);
    PercentEscaped(w);
    var p := Percent(w);
    assert Under(p)[0] == p[0];
    if p[0] == '%' {
      UnderHead(p[1..]);
    }
  }

  lemma {:induction false} SlideRight(xs: seq<Text>, ys: seq<Text>)
    requires Path(xs) && Path(ys) && xs != [] && ys != []
    requires "_" + Join(xs) == Join(ys)
    ensures ChainPlain(xs) && StartsLone(ys[0])
    decreases |xs|
  {
    hide Encode, Join;
    JoinCons(xs);
    JoinCons(ys);
    EncodeEnds(ys[0]);
    assert Encode(ys[0])[0] == Join(ys)[0] == '_';
    assert Join(xs) == Join(ys)[1..];
    if ys[0] == "_" {
      EncodeUnderscore();
      assert |ys| > 1;
      assert ("_" + ("__" + Join(ys[1..])))[1..] == "__" + Join(ys[1..]);
      UnderscoresFirst(xs, Join(ys[1..]));
      SlideRight(xs[1..], ys[1..]);
    } else {
      var w := LoneIsPrefixed(ys[0]);
      var t := Join(ys)[|Encode(ys[0])|..];
      assert Join(ys) == "_" + Encode(w) + t;
      assert Join(xs) == Encode(w) + t;
      PlainFirst(xs[0], w, t);
    }
  }

  /** One file name's first component is shorter than the other's: it is shorter by one underscore. */
  lemma OneLonger(xs: seq<Text>, ys: seq<Text>)
    requires Path(xs) && Path(ys) && xs != [] && ys != []
    requires Join(xs) == Join(ys) && |Encode(xs[0])| < |Encode(ys[0])|
    ensures |xs| > 1 && |ys| > 1
    ensures Encode(ys[0]) == Encode(xs[0]) + "_"
    ensures Join(xs[1..]) == "_" + Join(ys[1..])
  {
    hide Encode, Join, NoDouble, Path;
    JoinCons(xs);
    JoinCons(ys);
    FirstComponent(ys);
    var e, f := Encode(xs[0]), Encode(ys[0]);
    assert |f| <= |Join(ys)|;
    var rest := Join(ys)[|f|..];
    assert Join(ys) == f + rest;
    EarlierSeparator(e, Join(xs[1..]), f, rest);
    if |ys| > 1 {
      assert rest == "__" + Join(ys[1..]);
      assert Join(xs[1..]) == rest[1..] == "_" + Join(ys[1..]);
    }
  }

  lemma FirstComponent(ys: seq<Text>)
    requires Path(ys) && ys != []
    ensures NoDouble(Encode(ys[0]))
  {
    EncodeEnds(ys[0]);
  }

  lemma OddTailOf(c: Text, d: Text)
    requires c != "" && d != "" && Encode(d) == Encode(c) + "_"
    ensures OddTail(d) && !OddTail(c) && d != "_" && c != "_"
  {
    hide Encode;
    EncodeEnds(c);
    EncodeEnds(d);
    EncodeUnderscore();
    var e := Encode(c);
    assert Encode(d)[|e| - 1] == e[|e| - 1] && Encode(d)[|e|] == '_';
  }

  /** Two paths with one file name are the same path, or a separator slides in the first of them; and then one of the
      two has a component that starts with a lone underscore. */
  lemma {:induction false} SameNameSlides(xs: seq<Text>, ys: seq<Text>)
    requires Path(xs) && Path(ys) && Join(xs) == Join(ys)
    ensures xs == ys || (Slides(xs) && (HasLone(xs) || HasLone(ys)))
    decreases |xs|
  {
    hide Encode, Join, ChainPlain, ChainLone, OddTail;
    if xs == [] || ys == [] {
      EmptyName(xs, ys);
    } else {
      JoinCons(xs);
      JoinCons(ys);
      var e, f := Encode(xs[0]), Encode(ys[0]);
      if |e| < |f| {
        OneLonger(xs, ys);
        OddTailOf(xs[0], ys[0]);
        SlideLeft(xs[1..], ys[1..]);
        assert SlidesAt(xs, 0) && StartsLone(xs[1]);
      } else if |f| < |e| {
        OneLonger(ys, xs);
        OddTailOf(ys[0], xs[0]);
        SlideRight(xs[1..], ys[1..]);
        assert SlidesAt(xs, 0) && StartsLone(ys[1]);
      } else {
        assert e == Join(xs)[..|e|] && f == Join(ys)[..|f|];
        EncodeInjective(xs[0], ys[0]);
        SameRest(xs, ys);
        SameNameSlides(xs[1..], ys[1..]);
        LaterPart(xs, ys);
      }
    }
  }

  lemma EmptyName(xs: seq<Text>, ys: seq<Text>)
    requires Path(xs) && Path(ys) && Join(xs) == Join(ys) && (xs == [] || ys == [])
    ensures xs == ys
  {
    hide Encode;
    if xs != [] {
      JoinCons(xs);
    }
    if ys != [] {
      JoinCons(ys);
    }
  }

  lemma SameRest(xs: seq<Text>, ys: seq<Text>)
    requires Path(xs) && Path(ys) && xs != [] && ys != [] && xs[0] == ys[0] && Join(xs) == Join(ys)
    ensures Join(xs[1..]) == Join(ys[1..])
  {
    hide Encode;
    JoinCons(xs);
    JoinCons(ys);
    var n := |Encode(xs[0])|;
    if |xs| > 1 && |ys| > 1 {
      assert Join(xs)[n + 2..] == Join(xs[1..]) && Join(ys)[n + 2..] == Join(ys[1..]);
    } else {
      assert |Join(xs)| == |Join(ys)|;
      assert |xs| == 1 && |ys| == 1;
    }
  }

  lemma LaterPart(xs: seq<Text>, ys: seq<Text>)
    requires xs != [] && ys != [] && xs[0] == ys[0]
    requires xs[1..] == ys[1..] || (Slides(xs[1..]) && (HasLone(xs[1..]) || HasLone(ys[1..])))
    ensures xs == ys || (Slides(xs) && (HasLone(xs) || HasLone(ys)))
  {
    hide SlidesAt;
    if xs[1..] == ys[1..] {
      assert xs == [xs[0]] + xs[1..] && ys == [ys[0]] + ys[1..];
    } else {
      SlidesLater(xs);
      if HasLone(xs[1..]) {
        var i :| 0 <= i < |xs[1..]| && StartsLone(xs[1..][i]);
        assert StartsLone(xs[i + 1]);
      } else {
        var i :| 0 <= i < |ys[1..]| && StartsLone(ys[1..][i]);
        assert StartsLone(ys[i + 1]);
      }
    }
  }

  /** Among paths with no component that starts with a lone underscore, distinct paths have distinct file names. */
  lemma NamesDistinct(xs: seq<Text>, ys: seq<Text>)
    requires Path(xs) && Path(ys) && !HasLone(xs) && !HasLone(ys)
    requires xs != ys
    ensures Join(xs) != Join(ys)
  {
    hide Join;
    if Join(xs) == Join(ys) {
      SameNameSlides(xs, ys);
    }
  }

  // ---- a separator that can slide does ----

  function TakeUnderscore(xs: seq<Text>): (ys: seq<Text>)
    requires ChainPlain(xs)
    ensures |ys| == |xs|
  {
    if xs[0] == "_" then ["_"] + TakeUnderscore(xs[1..]) else ["_" + xs[0]] + xs[1..]
  }

  function GiveUnderscore(xs: seq<Text>): (ys: seq<Text>)
    requires ChainLone(xs)
    ensures |ys| == |xs|
  {
    if xs[0] == "_" then ["_"] + GiveUnderscore(xs[1..]) else [xs[0][1..]] + xs[1..]
  }

  lemma JoinOf(x: Text, xs: seq<Text>)
    ensures Join([x] + xs) == Encode(x) + if xs == [] then "" else "__" + Join(xs)
  {
    hide Encode;
    assert ([x] + xs)[1..] == xs;
    if xs != [] {
      Associate(Encode(x), "__", Join(xs));
    }
  }

  lemma {:induction false} TakeName(xs: seq<Text>)
    requires Path(xs) && ChainPlain(xs)
    ensures Path(TakeUnderscore(xs)) && Join(TakeUnderscore(xs)) == "_" + Join(xs)
    decreases |xs|
  {
    hide Encode, Join;
    var rest := xs[1..];
    assert xs == [xs[0]] + rest;
    JoinOf(xs[0], rest);
    if xs[0] == "_" {
      TakeName(rest);
      JoinOf("_", TakeUnderscore(rest));
      EncodeUnderscore();
      assert "_" + ("__" + ("_" + Join(rest))) == "_" + ("_" + ("__" + Join(rest)));
    } else {
      JoinOf("_" + xs[0], rest);
      EncodePrepend(xs[0]);
    }
  }

  lemma {:induction false} GiveName(xs: seq<Text>)
    requires Path(xs) && ChainLone(xs)
    ensures Path(GiveUnderscore(xs)) && Join(xs) == "_" + Join(GiveUnderscore(xs))
    decreases |xs|
  {
    hide Encode, Join;
    var rest := xs[1..];
    assert xs == [xs[0]] + rest;
    JoinOf(xs[0], rest);
    if xs[0] == "_" {
      GiveName(rest);
      JoinOf("_", GiveUnderscore(rest));
      EncodeUnderscore();
      assert "_" + ("__" + ("_" + Join(GiveUnderscore(rest)))) == "_" + ("_" + ("__" + Join(GiveUnderscore(rest))));
    } else {
      var w := LoneIsPrefixed(xs[0]);
      assert w == xs[0][1..];
      JoinOf(w, rest);
    }
  }

  /** The path that shares the name of one whose separator slides at the front. */
  lemma SlidFirst(xs: seq<Text>) returns (ys: seq<Text>)
    requires Path(xs) && xs != [] && SlidesAt(xs, 0)
    ensures Path(ys) && ys != [] && ys != xs && Join(ys) == Join(xs)
  {
    hide Encode, Join, ChainPlain, ChainLone, TakeUnderscore, GiveUnderscore;
    var x, rest := xs[0], xs[1..];
    assert xs == [x] + rest;
    JoinOf(x, rest);
    if OddTail(x) {
      var w := x[..|x| - 1];
      assert x == w + "_";
      EncodeAppend(w);
      TakeName(rest);
      ys := [w] + TakeUnderscore(rest);
      JoinOf(w, TakeUnderscore(rest));
      ChainNonEmpty(rest);
      assert Encode(w) + "_" + ("__" + Join(rest)) == Encode(w) + ("__" + ("_" + Join(rest)));
    } else {
      EncodeAppend(x);
      GiveName(rest);
      ys := [x + "_"] + GiveUnderscore(rest);
      JoinOf(x + "_", GiveUnderscore(rest));
      ChainNonEmpty(rest);
      var t := Join(GiveUnderscore(rest));
      assert Encode(x) + "_" + ("__" + t) == Encode(x) + ("__" + ("_" + t));
    }
    assert ys[0] != xs[0];
  }

  lemma ChainNonEmpty(xs: seq<Text>)
    ensures ChainPlain(xs) || ChainLone(xs) ==> xs != []
  {
  }

  lemma {:induction false} SlidTwin(xs: seq<Text>, i: nat) returns (ys: seq<Text>)
    requires Path(xs) && i < |xs| && SlidesAt(xs, i)
    ensures Path(ys) && ys != [] && ys != xs && Join(ys) == Join(xs)
    decreases i
  {
    hide Encode, Join, ChainPlain, ChainLone;
    if i == 0 {
      ys := SlidFirst(xs);
    } else {
      var rest := xs[1..];
      assert rest[i - 1 + 1..] == xs[i + 1..];
      var zs := SlidTwin(rest, i - 1);
      assert xs == [xs[0]] + rest;
      JoinOf(xs[0], rest);
      JoinOf(xs[0], zs);
      ys := [xs[0]] + zs;
      assert ys[1..] == zs;
    }
  }

  /** A path shares its file name with another path exactly when one of its separators can slide. */
  lemma AmbiguousExactly(xs: seq<Text>)
    requires Path(xs)
    ensures (exists ys :: Path(ys) && ys != xs && Join(ys) == Join(xs)) <==> Slides(xs)
  {
    hide Join, SlidesAt;
    if Slides(xs) {
      var i :| 0 <= i < |xs| && SlidesAt(xs, i);
      var ys := SlidTwin(xs, i);
    }
    forall ys | Path(ys) && ys != xs && Join(ys) == Join(xs) ensures Slides(xs) {
      SameNameSlides(xs, ys);
    }
  }

  /** The smallest collision: `a_` then `b`, and `a` then `_b`. */
  lemma Collision()
    ensures Join(["a_", "b"]) == "a___b" && Join(["a", "_b"]) == "a___b"
  {
    hide Join;
    assert "a_"[1..] == "_" && "_"[1..] == "" && "a"[1..] == "" && "b"[1..] == "" && "_b"[1..] == "b";
    assert Percent("_") == "_" && Percent("b") == "b" && Under("_") == "_" && Under("b") == "b";
    assert Encode("a_") == "a_" && Encode("a") == "a" && Encode("b") == "b" && Encode("_b") == "_b";
    assert ["a_", "b"] == ["a_"] + ["b"] && ["a", "_b"] == ["a"] + ["_b"];
    JoinOf("a_", ["b"]);
    JoinOf("a", ["_b"]);
    JoinOf("b", []);
    JoinOf("_b", []);
    assert ["b"] + [] == ["b"] && ["_b"] + [] == ["_b"];
  }
}
