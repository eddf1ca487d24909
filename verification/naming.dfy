/** The name a file gets inside a trash batch: its target directory encoded
    into one path name, then `__`, then the file's own name. */
module Naming {
  import opened Paths

  /** One character of `rel.replace(/[\\/]/g, "_")`. */
  function FlattenChar(c: char): char
  {
    if c == '/' || c == '\\' then '_' else c
  }

  /** `rel.replace(/[\\/]/g, "_")`: every separator becomes `_`, and every
      other character stays where it was. */
  function FlattenAsWritten(rel: string): (r: string)
    ensures |r| == |rel|
    ensures forall i :: 0 <= i < |rel| ==> r[i] == FlattenChar(rel[i])
    ensures '/' !in r && '\\' !in r
    decreases |rel|
  {
    if rel == [] then []
    else
      var r := [FlattenChar(rel[0])] + FlattenAsWritten(rel[1..]);
      assert forall i :: 1 <= i < |rel| ==> rel[1..][i - 1] == rel[i];
      r
  }

  /** The destination name as the housekeeper writes it. */
  function DstNameAsWritten(rel: string, base: string): (r: string)
    ensures |r| == |rel| + 2 + |base|
    ensures IsName(base) ==> IsName(r)
    ensures r[|rel|] == '_'
  {
    var r := FlattenAsWritten(rel) + "__" + base;
    assert r[|rel|] == '_';
    r
  }

  lemma {:induction false} FlattenIdempotent(rel: string)
    ensures FlattenAsWritten(FlattenAsWritten(rel)) == FlattenAsWritten(rel)
  {
    if rel != [] {
      FlattenIdempotent(rel[1..]);
    }
  }

  /** The as-written scheme is not injective: every target containing a
      slash sends its files to the same names as the target with the slashes
      turned into underscores (`a/b` and `a_b`), and with `overwrite: true`
      the later move replaces the earlier file. */
  lemma {:induction false} AsWrittenCollides(rel: string, base: string)
    requires '/' in rel
    ensures FlattenAsWritten(rel) != rel
    ensures DstNameAsWritten(rel, base) == DstNameAsWritten(FlattenAsWritten(rel), base)
  {
    FlattenIdempotent(rel);
    assert '/' !in FlattenAsWritten(rel);
  }

  /** The `__` separator is ambiguous as well: target `a` with file `b__c`
      and target `a__b` with file `c` both become `a__b__c`. */
  lemma AsWrittenSeparatorCollides()
    ensures DstNameAsWritten("a", "b__c") == DstNameAsWritten("a__b", "c")
  {
    assert FlattenAsWritten("a") == "a";
    assert FlattenAsWritten("a__b") == "a__b";
  }

  /** Percent-escapes the characters that carry structure in a destination
      name: the escape character itself, both separators and underscore. */
  function EscapeChar(c: char): (r: string)
    ensures |r| == 1 || |r| == 3
    ensures '_' !in r && '/' !in r
  {
    if c == '%' then "%25"
    else if c == '/' then "%2F"
    else if c == '\\' then "%5C"
    else if c == '_' then "%5F"
    else [c]
  }

  /** An encoding of a target into one name that never contains `_` or `/`. */
  function Escape(rel: string): (r: string)
    ensures '_' !in r && '/' !in r
    ensures r == [] <==> rel == []
  {
    if rel == [] then [] else EscapeChar(rel[0]) + Escape(rel[1..])
  }

  lemma EscapeCharPrefix(c1: char, c2: char, t1: string, t2: string)
    requires EscapeChar(c1) + t1 == EscapeChar(c2) + t2
    ensures c1 == c2 && t1 == t2
  {
    var e1, e2 := EscapeChar(c1), EscapeChar(c2);
    assert (e1 + t1)[0] == e1[0] && (e2 + t2)[0] == e2[0];
    if |e1| == 3 && |e2| == 3 {
      assert (e1 + t1)[1] == e1[1] && (e2 + t2)[1] == e2[1];
      assert (e1 + t1)[2] == e1[2] && (e2 + t2)[2] == e2[2];
      assert e1 == e2;
      assert t1 == (e1 + t1)[3..] && t2 == (e2 + t2)[3..];
    } else if |e1| == 1 && |e2| == 1 {
      assert t1 == (e1 + t1)[1..] && t2 == (e2 + t2)[1..];
    }
  }

  /** Different targets never share an encoding. */
  lemma {:induction false} EscapeInjective(a: string, b: string)
    requires Escape(a) == Escape(b)
    ensures a == b
  {
    if a != [] && b != [] {
      EscapeCharPrefix(a[0], b[0], Escape(a[1..]), Escape(b[1..]));
      EscapeInjective(a[1..], b[1..]);
      assert a == [a[0]] + a[1..] && b == [b[0]] + b[1..];
    }
  }

  /** The destination name of a moved file: the escaped target, `__`, and
      the file's own name. */
  function DstName(rel: string, base: string): (r: string)
    ensures |r| == |Escape(rel)| + 2 + |base|
    ensures IsName(base) ==> IsName(r)
    ensures r[|Escape(rel)|] == '_'
  {
    var r := Escape(rel) + "__" + base;
    assert r[|Escape(rel)|] == '_';
    r
  }

  /** Distinct (target, file name) pairs get distinct destination names. */
  lemma DstNameInjective(rel1: string, base1: string, rel2: string, base2: string)
    requires DstName(rel1, base1) == DstName(rel2, base2)
    ensures rel1 == rel2 && base1 == base2
  {
    var e1, e2 := Escape(rel1), Escape(rel2);
    var s := DstName(rel1, base1);
    assert s == e1 + "__" + base1 && s == e2 + "__" + base2;
    assert s[|e1|] == '_' && s[|e2|] == '_';
    assert |e1| == |e2|;
    assert e1 == s[..|e1|] == e2;
    EscapeInjective(rel1, rel2);
    assert base1 == s[|e1| + 2..] == base2;
  }

  /** What the housekeeper writes in front of every file of target `rel`. */
  function Tag(rel: string): (r: string)
    ensures |r| == |rel| + 2
    ensures forall i :: 0 <= i < |rel| ==> r[i] == FlattenChar(rel[i])
  {
    FlattenAsWritten(rel) + "__"
  }

  predicate IsPrefix(a: string, b: string)
  {
    |a| <= |b| && b[..|a|] == a
  }

  /** No target's tag starts another target's tag. Under this condition the
      housekeeper's names do not collide across targets, and within one
      target the file name is what follows the tag. */
  predicate TagsApart(targets: seq<string>)
  {
    forall r1, r2 :: r1 in targets && r2 in targets && r1 != r2 ==> !IsPrefix(Tag(r1), Tag(r2))
  }

  /** Two equal names begin with tags one of which starts the other. */
  lemma TagsPrefix(r1: string, b1: string, r2: string, b2: string)
    requires DstNameAsWritten(r1, b1) == DstNameAsWritten(r2, b2)
    ensures IsPrefix(Tag(r1), Tag(r2)) || IsPrefix(Tag(r2), Tag(r1))
  {
    var n := DstNameAsWritten(r1, b1);
    var t1, t2 := Tag(r1), Tag(r2);
    assert n == t1 + b1 && n == t2 + b2;
    if |t1| <= |t2| {
      assert n[..|t1|] == t1;
      assert t2[..|t1|] == n[..|t1|];
    } else {
      assert n[..|t2|] == t2;
      assert t1[..|t2|] == n[..|t2|];
    }
  }

  /** With tags apart, the housekeeper's name determines both the target
      and the file name. */
  lemma TagsApartInjective(targets: seq<string>, r1: string, b1: string, r2: string, b2: string)
    requires TagsApart(targets) && r1 in targets && r2 in targets
    requires DstNameAsWritten(r1, b1) == DstNameAsWritten(r2, b2)
    ensures r1 == r2 && b1 == b2
  {
    TagsPrefix(r1, b1, r2, b2);
    assert r1 == r2;
    var n := DstNameAsWritten(r1, b1);
    assert n == Tag(r1) + b1 && n == Tag(r2) + b2;
    assert b1 == n[|Tag(r1)|..];
    assert b2 == n[|Tag(r2)|..];
  }

  /** Two targets whose flattened forms differ at some position have tags
      apart. */
  lemma TwoTagsApart(r1: string, r2: string, k: nat)
    requires k < |r1| && k < |r2| && FlattenChar(r1[k]) != FlattenChar(r2[k])
    ensures TagsApart([r1, r2])
  {
    assert Tag(r1)[k] != Tag(r2)[k];
  }

  /** The default targets `data/logs` and `data/screens` have tags apart:
      `data_logs__` and `data_screens__` differ at their sixth character. */
  lemma DefaultTagsApart()
    ensures TagsApart(["data/logs", "data/screens"])
  {
    TwoTagsApart("data/logs", "data/screens", 5);
  }

  /** How cleanup names a parked file: as the housekeeper does, or with the
      corrected encoding of the target. */
  datatype Scheme = AsWritten | Escaped

  /** The name of a parked file under either scheme. Both put `_` in every
      name, so no parked file is ever called `manifest.json`. */
  function ParkedName(scheme: Scheme, rel: string, base: string): (r: string)
    ensures IsName(base) ==> IsName(r)
    ensures '_' in r
  {
    match scheme
    case AsWritten => DstNameAsWritten(rel, base)
    case Escaped => DstName(rel, base)
  }
}
