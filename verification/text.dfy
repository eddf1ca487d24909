/** String utilities the housekeeper relies on: the code-point order that
    directory listings and `Array.prototype.sort` use, turning a finite set of
    names into its sorted listing, `String.prototype.split` on one character,
    `String.prototype.trim`, and `startsWith`. */
module Text {

  /** Strict lexicographic order on strings by code point; a proper prefix
      comes first. */
  predicate Less(a: string, b: string)
    decreases |a|
  {
    |b| > 0 && (|a| == 0 || a[0] < b[0] || (a[0] == b[0] && Less(a[1..], b[1..])))
  }

  lemma LessIrreflexive(a: string)
    ensures !Less(a, a)
  {
  }

  lemma LessTransitive(a: string, b: string, c: string)
    requires Less(a, b) && Less(b, c)
    ensures Less(a, c)
    decreases |a|
  {
    if |a| > 0 && a[0] == b[0] && b[0] == c[0] {
      LessTransitive(a[1..], b[1..], c[1..]);
    }
  }

  lemma LessTotal(a: string, b: string)
    ensures a == b || Less(a, b) || Less(b, a)
    decreases |a|
  {
    if |a| > 0 && |b| > 0 && a[0] == b[0] {
      LessTotal(a[1..], b[1..]);
      if a[1..] == b[1..] {
        assert a == [a[0]] + a[1..] && b == [b[0]] + b[1..];
      }
    }
  }

  lemma LessAsymmetric(a: string, b: string)
    requires Less(a, b)
    ensures !Less(b, a)
    decreases |a|
  {
    if |a| > 0 && a[0] == b[0] {
      LessAsymmetric(a[1..], b[1..]);
    }
  }

  /** `m` is the least element of `s`. */
  predicate IsLeast(m: string, s: set<string>)
  {
    m in s && forall x :: x in s ==> !Less(x, m)
  }

  lemma LeastExists(s: set<string>)
    requires s != {}
    ensures exists m :: IsLeast(m, s)
    decreases |s|
  {
    var x :| x in s;
    if s == {x} {
      LessIrreflexive(x);
      assert IsLeast(x, s);
    } else {
      LeastExists(s - {x});
      var m :| IsLeast(m, s - {x});
      LessTotal(x, m);
      if Less(x, m) {
        forall y | y in s
          ensures !Less(y, x)
        {
          if y == x {
            LessIrreflexive(x);
          } else if Less(y, x) {
            LessTransitive(y, x, m);
          }
        }
        assert IsLeast(x, s);
      } else {
        assert IsLeast(m, s);
      }
    }
  }

  lemma LeastUnique(s: set<string>)
    ensures forall m1, m2 :: IsLeast(m1, s) && IsLeast(m2, s) ==> m1 == m2
  {
    forall m1, m2 | IsLeast(m1, s) && IsLeast(m2, s)
      ensures m1 == m2
    {
      LessTotal(m1, m2);
    }
  }

  /** The least element of a non-empty finite set of strings. */
  function Least(s: set<string>): (m: string)
    requires s != {}
    ensures IsLeast(m, s)
  {
    LeastExists(s);
    LeastUnique(s);
    var m :| IsLeast(m, s); m
  }

  /** Strictly increasing, hence also free of duplicates. */
  predicate Increasing(r: seq<string>)
  {
    forall i, j :: 0 <= i < j < |r| ==> Less(r[i], r[j])
  }

  /** The listing of a finite set of names in code-point order, the order
      in which a directory read returns names. */
  function SortedSet(s: set<string>): (r: seq<string>)
    ensures |r| == |s|
    ensures forall x :: x in r <==> x in s
    ensures Increasing(r)
    decreases |s|
  {
    if s == {} then []
    else
      var m := Least(s);
      var rest := SortedSet(s - {m});
      assert forall j :: 0 < j < |[m] + rest| ==> Less(m, ([m] + rest)[j]) by {
        forall j | 0 < j < |[m] + rest|
          ensures Less(m, ([m] + rest)[j])
        {
          var y := rest[j - 1];
          assert y in s - {m};
          LessTotal(m, y);
        }
      }
      [m] + rest
  }

  /** The first element of an increasing sequence is its least. */
  lemma HeadLeast(r: seq<string>, x: string)
    requires Increasing(r) && r != [] && x in r && x != r[0]
    ensures Less(r[0], x)
  {
    var k :| 0 <= k < |r| && r[k] == x;
    assert k != 0;
  }

  /** Two increasing sequences with the same elements start alike. */
  lemma SameHead(r1: seq<string>, r2: seq<string>)
    requires Increasing(r1) && Increasing(r2) && r1 != [] && r2 != []
    requires forall x :: x in r1 <==> x in r2
    ensures r1[0] == r2[0]
  {
    assert r1[0] in r2 && r2[0] in r1;
    if r1[0] != r2[0] {
      HeadLeast(r2, r1[0]);
      HeadLeast(r1, r2[0]);
      LessAsymmetric(r2[0], r1[0]);
      assert false;
    }
  }

  /** After the common first element, the rest have the same elements. */
  lemma SameTail(r1: seq<string>, r2: seq<string>, x: string)
    requires Increasing(r1) && Increasing(r2) && r1 != [] && r2 != []
    requires forall y :: y in r1 <==> y in r2
    requires r1[0] == r2[0]
    ensures x in r1[1..] ==> x in r2[1..]
  {
    if x in r1[1..] {
      var k :| 0 <= k < |r1[1..]| && r1[1..][k] == x;
      assert r1[k + 1] == x;
      assert Less(r1[0], x);
      LessIrreflexive(x);
      assert x in r2;
      var k2 :| 0 <= k2 < |r2| && r2[k2] == x;
      assert k2 != 0;
      assert r2[1..][k2 - 1] == x;
    }
  }

  lemma IncreasingTail(r: seq<string>)
    requires Increasing(r) && r != []
    ensures Increasing(r[1..])
  {
    forall i, j | 0 <= i < j < |r[1..]|
      ensures Less(r[1..][i], r[1..][j])
    {
      assert r[1..][i] == r[i + 1] && r[1..][j] == r[j + 1];
    }
  }

  lemma EmptyAlike(r1: seq<string>, r2: seq<string>)
    requires forall x :: x in r1 <==> x in r2
    ensures r1 == [] <==> r2 == []
  {
    if r1 != [] {
      assert r1[0] in r2;
    }
    if r2 != [] {
      assert r2[0] in r1;
    }
  }

  /** Two increasing sequences with the same elements are equal: the
      listing of a set is unique. */
  lemma {:induction false} IncreasingUnique(r1: seq<string>, r2: seq<string>)
    requires Increasing(r1) && Increasing(r2)
    requires forall x :: x in r1 <==> x in r2
    ensures r1 == r2
    decreases |r1|
  {
    EmptyAlike(r1, r2);
    if r1 != [] {
      SameHead(r1, r2);
      forall x
        ensures x in r1[1..] <==> x in r2[1..]
      {
        SameTail(r1, r2, x);
        SameTail(r2, r1, x);
      }
      IncreasingTail(r1);
      IncreasingTail(r2);
      IncreasingUnique(r1[1..], r2[1..]);
      assert r1 == [r1[0]] + r1[1..] && r2 == [r2[0]] + r2[1..];
    }
  }

  function StartsWith(s: string, prefix: string): bool
  {
    |prefix| <= |s| && s[..|prefix|] == prefix
  }

  /** `String.prototype.split` with a one-character separator: the pieces
      between separators, always at least one. */
  function Split(s: string, sep: char): (r: seq<string>)
    ensures |r| >= 1
    ensures forall i :: 0 <= i < |r| ==> sep !in r[i]
  {
    if |s| == 0 then [""]
    else
      var rest := Split(s[1..], sep);
      if s[0] == sep then [""] + rest
      else [[s[0]] + rest[0]] + rest[1..]
  }

  /** `Array.prototype.join` with a one-character separator. */
  function Join(parts: seq<string>, sep: char): string
    requires |parts| >= 1
  {
    if |parts| == 1 then parts[0] else parts[0] + [sep] + Join(parts[1..], sep)
  }

  /** Joining the pieces of a split gives the original string back. */
  lemma {:induction false} JoinSplit(s: string, sep: char)
    ensures Join(Split(s, sep), sep) == s
    decreases |s|
  {
    if |s| > 0 {
      var rest := Split(s[1..], sep);
      JoinSplit(s[1..], sep);
      if s[0] == sep {
        assert Join([""] + rest, sep) == "" + [sep] + Join(rest, sep);
      } else if |rest| == 1 {
        assert Split(s, sep) == [[s[0]] + rest[0]];
      } else {
        var r := [[s[0]] + rest[0]] + rest[1..];
        assert r[1..] == rest[1..];
        assert Join(r, sep) == [s[0]] + rest[0] + [sep] + Join(rest[1..], sep);
      }
      assert s == [s[0]] + s[1..];
    }
  }

  lemma {:induction false} SplitPiece(p: string, sep: char)
    requires sep !in p
    ensures Split(p, sep) == [p]
    decreases |p|
  {
    if |p| > 0 {
      SplitPiece(p[1..], sep);
      assert p == [p[0]] + p[1..];
    }
  }

  lemma {:induction false} SplitPieceThen(p: string, sep: char, t: string)
    requires sep !in p
    ensures Split(p + [sep] + t, sep) == [p] + Split(t, sep)
    decreases |p|
  {
    var s := p + [sep] + t;
    if |p| == 0 {
      assert s[1..] == t;
    } else {
      assert s[1..] == p[1..] + [sep] + t;
      SplitPieceThen(p[1..], sep, t);
      assert p == [p[0]] + p[1..];
    }
  }

  /** Splitting a join of separator-free pieces gives the pieces back. */
  lemma {:induction false} SplitJoin(parts: seq<string>, sep: char)
    requires |parts| >= 1
    requires forall i :: 0 <= i < |parts| ==> sep !in parts[i]
    ensures Split(Join(parts, sep), sep) == parts
    decreases |parts|
  {
    if |parts| == 1 {
      SplitPiece(parts[0], sep);
    } else {
      SplitJoin(parts[1..], sep);
      SplitPieceThen(parts[0], sep, Join(parts[1..], sep));
      assert parts == [parts[0]] + parts[1..];
    }
  }

  /** The characters `String.prototype.trim` removes: ECMAScript WhiteSpace
      and LineTerminator. */
  predicate IsSpace(c: char)
  {
    || c == '\t' || c == '\n' || c == '\U{000B}' || c == '\U{000C}' || c == '\r'
    || c == ' ' || c == '\U{00A0}' || c == '\U{1680}'
    || ('\U{2000}' <= c <= '\U{200A}')
    || c == '\U{2028}' || c == '\U{2029}' || c == '\U{202F}' || c == '\U{205F}'
    || c == '\U{3000}' || c == '\U{FEFF}'
  }

  predicate AllSpace(s: string)
  {
    forall k :: 0 <= k < |s| ==> IsSpace(s[k])
  }

  /** Neither end of `s` is white space. */
  predicate Trimmed(s: string)
  {
    s == [] || (!IsSpace(s[0]) && !IsSpace(s[|s| - 1]))
  }

  function TrimStart(s: string): (r: string)
    ensures r == [] || !IsSpace(r[0])
    ensures |r| <= |s| && r == s[|s| - |r|..]
    ensures AllSpace(s[..|s| - |r|])
  {
    if |s| > 0 && IsSpace(s[0]) then TrimStart(s[1..]) else s
  }

  function TrimEnd(s: string): (r: string)
    ensures r == [] || !IsSpace(r[|r| - 1])
    ensures |r| <= |s| && r == s[..|r|]
    ensures AllSpace(s[|r|..])
  {
    if |s| > 0 && IsSpace(s[|s| - 1]) then TrimEnd(s[..|s| - 1]) else s
  }

  /** `String.prototype.trim`: white space removed from both ends. */
  function Trim(s: string): (r: string)
    ensures Trimmed(r)
    ensures Trimmed(s) ==> r == s
  {
    var t := TrimStart(s);
    var r := TrimEnd(t);
    assert r != [] ==> r[0] == t[0];
    r
  }

  lemma {:induction false} TrimStartSpaces(p: string, s: string)
    requires AllSpace(p)
    ensures TrimStart(p + s) == TrimStart(s)
    decreases |p|
  {
    if |p| > 0 {
      assert (p + s)[1..] == p[1..] + s;
      TrimStartSpaces(p[1..], s);
    } else {
      assert p + s == s;
    }
  }

  lemma {:induction false} TrimStartAppend(s: string, q: string)
    requires TrimStart(s) != []
    ensures TrimStart(s + q) == TrimStart(s) + q
    decreases |s|
  {
    if IsSpace(s[0]) {
      assert (s + q)[1..] == s[1..] + q;
      TrimStartAppend(s[1..], q);
    }
  }

  lemma {:induction false} TrimEndSpaces(s: string, q: string)
    requires AllSpace(q)
    ensures TrimEnd(s + q) == TrimEnd(s)
    decreases |q|
  {
    if |q| > 0 {
      assert (s + q)[..|s + q| - 1] == s + q[..|q| - 1];
      TrimEndSpaces(s, q[..|q| - 1]);
    } else {
      assert s + q == s;
    }
  }

  /** Trimming ignores any white space padded around a string: together
      with `Trimmed(Trim(s))` this pins `Trim` down completely. */
  lemma TrimPadded(p: string, s: string, q: string)
    requires AllSpace(p) && AllSpace(q)
    ensures Trim(p + s + q) == Trim(s)
  {
    var w := p + s + q;
    if TrimStart(s) != [] {
      assert w == p + (s + q);
      TrimStartSpaces(p, s + q);
      TrimStartAppend(s, q);
      TrimEndSpaces(TrimStart(s), q);
      assert TrimStart(w) == TrimStart(s) + q;
      assert Trim(w) == TrimEnd(TrimStart(s));
    } else {
      assert s[..|s|] == s;
      assert AllSpace(w) by {
        forall k | 0 <= k < |w|
          ensures IsSpace(w[k])
        {
          if k < |p| {
            assert w[k] == p[k];
          } else if k < |p| + |s| {
            assert w[k] == s[k - |p|];
          } else {
            assert w[k] == q[k - |p| - |s|];
          }
        }
      }
      AllSpaceTrim(w);
      AllSpaceTrim(s);
    }
  }

  /** A string of white space trims to the empty string. */
  lemma AllSpaceTrim(s: string)
    requires AllSpace(s)
    ensures Trim(s) == []
  {
    TrimStartSpaces(s, []);
    assert s + [] == s;
  }
}
