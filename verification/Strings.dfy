/** Joining, splitting, cutting and counting, as the standard string library does them. */
module Strings {
  import opened Results

  /** strings.Split(s, "~"). */
  function Split(s: string): (parts: seq<string>)
    ensures |parts| >= 1
  {
    if s == "" then [""]
    else
      var rest := Split(s[1..]);
      if s[0] == '~' then [""] + rest else [[s[0]] + rest[0]] + rest[1..]
  }

  /** strings.Join(parts, "~"). */
  function Join(parts: seq<string>): string {
    if parts == [] then ""
    else if |parts| == 1 then parts[0]
    else parts[0] + "~" + Join(parts[1..])
  }

  lemma {:induction false} SplitPlain(p: string)
    requires '~' !in p
    ensures Split(p) == [p]
    decreases |p|
  {
    if p != "" {
      SplitPlain(p[1..]);
      assert [p[0]] + p[1..] == p;
    }
  }

  lemma {:induction false} SplitFirst(p: string, rest: string)
    requires '~' !in p
    ensures Split(p + "~" + rest) == [p] + Split(rest)
    decreases |p|
  {
    var s := p + "~" + rest;
    if p == "" {
      assert s[1..] == rest;
    } else {
      assert s[1..] == p[1..] + "~" + rest;
      SplitFirst(p[1..], rest);
      assert [s[0]] + p[1..] == p;
    }
  }

  lemma {:induction false} SplitJoin(parts: seq<string>)
    requires parts != [] && forall i :: 0 <= i < |parts| ==> '~' !in parts[i]
    ensures Split(Join(parts)) == parts
    decreases |parts|
  {
    if |parts| == 1 {
      SplitPlain(parts[0]);
    } else {
      SplitJoin(parts[1..]);
      SplitFirst(parts[0], Join(parts[1..]));
      assert parts == [parts[0]] + parts[1..];
    }
  }

  lemma {:induction false} JoinAppend(parts: seq<string>, last: string)
    requires parts != []
    ensures Join(parts + [last]) == Join(parts) + "~" + last
    decreases |parts|
  {
    var all := parts + [last];
    if |parts| == 1 {
      assert all[1..] == [last];
    } else {
      assert all[1..] == parts[1..] + [last];
      JoinAppend(parts[1..], last);
      assert Join(all) == parts[0] + "~" + (Join(parts[1..]) + "~" + last);
    }
  }

  /** strings.SplitN(s, ".", 2): the text before and after the first dot. */
  function Cut(s: string): Option<(string, string)> {
    if s == "" then None
    else if s[0] == '.' then Some(("", s[1..]))
    else
      match Cut(s[1..])
      case None => None
      case Some((before, after)) => Some(([s[0]] + before, after))
  }

  lemma {:induction false} CutFirst(p: string, rest: string)
    requires '.' !in p
    ensures Cut(p + "." + rest) == Some((p, rest))
    decreases |p|
  {
    var s := p + "." + rest;
    if p == "" {
      assert s[1..] == rest;
    } else {
      assert s[1..] == p[1..] + "." + rest;
      CutFirst(p[1..], rest);
      assert [s[0]] + p[1..] == p;
    }
  }

  /** strings.SplitN(s, ".", 3) when it yields three parts. */
  function Split3(s: string): Option<(string, string, string)> {
    match Cut(s)
    case None => None
    case Some((a, rest)) =>
      match Cut(rest)
      case None => None
      case Some((b, c)) => Some((a, b, c))
  }

  lemma Split3Of(a: string, b: string, c: string)
    requires '.' !in a && '.' !in b
    ensures Split3(a + "." + b + "." + c) == Some((a, b, c))
  {
    assert a + "." + b + "." + c == a + "." + (b + "." + c);
    CutFirst(a, b + "." + c);
    CutFirst(b, c);
    hide Cut;
  }

  /** strings.Count(s, "."). */
  function Dots(s: string): nat {
    if s == "" then 0 else (if s[0] == '.' then 1 else 0) + Dots(s[1..])
  }

  lemma {:induction false} DotsConcat(a: string, b: string)
    ensures Dots(a + b) == Dots(a) + Dots(b)
    decreases |a|
  {
    if a == "" {
      assert a + b == b;
    } else {
      assert (a + b)[1..] == a[1..] + b;
      DotsConcat(a[1..], b);
    }
  }

  lemma {:induction false} NoDots(s: string)
    requires '.' !in s
    ensures Dots(s) == 0
    decreases |s|
  {
    if s != "" {
      NoDots(s[1..]);
    }
  }

  lemma DotsOfThree(a: string, b: string, c: string)
    requires '.' !in a && '.' !in b && '.' !in c
    ensures Dots(a + "." + b + "." + c) == 2
  {
    NoDots(a); NoDots(b); NoDots(c);
    assert Dots(".") == 1;
    DotsConcat(a, "."); DotsConcat(a + ".", b); DotsConcat(a + "." + b, "."); DotsConcat(a + "." + b + ".", c);
    hide Dots;
  }

  lemma JoinFirst(first: string, rest: seq<string>)
    requires rest != []
    ensures Join([first] + rest) == first + "~" + Join(rest)
  {
    assert ([first] + rest)[1..] == rest;
  }

  lemma JoinHead(c: char, parts: seq<string>)
    requires parts != []
    ensures Join([[c] + parts[0]] + parts[1..]) == [c] + Join(parts)
  {
    hide Join;
    var first, rest := [c] + parts[0], parts[1..];
    assert parts == [parts[0]] + rest;
    if rest == [] {
      assert [first] + rest == [first] && parts == [parts[0]];
      JoinOne(first);
      JoinOne(parts[0]);
    } else {
      JoinFirst(first, rest);
      JoinFirst(parts[0], rest);
      assert first + "~" + Join(rest) == [c] + (parts[0] + "~" + Join(rest));
    }
  }

  /** The parts hold no "~" and join to the text again: with SplitJoin, they are the only such. */
  lemma {:induction false} SplitIs(s: string)
    ensures Join(Split(s)) == s
    ensures forall i :: 0 <= i < |Split(s)| ==> '~' !in Split(s)[i]
    decreases |s|
  {
    hide Join;
    if s == "" {
      assert Join([""]) == "" by { JoinOne(""); }
    } else {
      SplitIs(s[1..]);
      var rest := Split(s[1..]);
      if s[0] == '~' {
        JoinFirst("", rest);
        assert s == "" + "~" + s[1..];
      } else {
        JoinHead(s[0], rest);
        assert s == [s[0]] + s[1..];
      }
    }
  }

  lemma JoinOne(p: string)
    ensures Join([p]) == p
  {
  }

  lemma {:induction false} CutIs(s: string)
    ensures Cut(s).None? <==> '.' !in s
    ensures Cut(s).Some? ==> var (a, b) := Cut(s).value; s == a + "." + b && '.' !in a
    decreases |s|
  {
    if s != "" && s[0] != '.' {
      CutIs(s[1..]);
      assert s == [s[0]] + s[1..];
    }
  }

  /** A text in three parts: the first two end at the first and second dot. */
  predicate ThreeParts(s: string, a: string, b: string, c: string) {
    s == a + "." + b + "." + c && '.' !in a && '.' !in b
  }

  lemma {:induction false} Split3Iff(s: string, a: string, b: string, c: string)
    ensures Split3(s) == Some((a, b, c)) <==> ThreeParts(s, a, b, c)
  {
    if ThreeParts(s, a, b, c) {
      Split3Of(a, b, c);
    }
    if Split3(s) == Some((a, b, c)) {
      CutIs(s);
      var rest := Cut(s).value.1;
      CutIs(rest);
      assert s == a + "." + (b + "." + c);
    }
  }
}
