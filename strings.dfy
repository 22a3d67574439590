/** The few Python `str` operations the modelled code relies on, over
    `string` (a sequence of characters). */
module Strings {

  predicate StartsWith(s: string, prefix: string)
  {
    prefix <= s
  }

  predicate EndsWith(s: string, suffix: string)
  {
    |suffix| <= |s| && s[|s| - |suffix|..] == suffix
  }

  /** `m` occurs in `s` starting at index `j`. */
  predicate OccursAt(s: string, m: string, j: int)
  {
    0 <= j && j + |m| <= |s| && s[j..j + |m|] == m
  }

  lemma AppendAssoc(a: string, b: string, c: string)
    ensures a + (b + c) == a + b + c
  {
  }

  /** `s[::-1]` */
  function Reverse(s: string): (r: string)
    ensures |r| == |s|
    ensures forall i :: 0 <= i < |s| ==> r[i] == s[|s| - 1 - i]
  {
    if s == [] then [] else Reverse(s[1..]) + [s[0]]
  }

  lemma ReverseReverse(s: string)
    ensures Reverse(Reverse(s)) == s
  {
    var r := Reverse(Reverse(s));
    assert forall i :: 0 <= i < |s| ==> r[i] == s[i];
  }

  lemma ReverseConcat(a: string, c: char, b: string)
    ensures Reverse(a + [c] + b) == Reverse(b) + [c] + Reverse(a)
  {
    var s := a + [c] + b;
    var r := Reverse(b) + [c] + Reverse(a);
    assert forall i :: 0 <= i < |s| ==> Reverse(s)[i] == r[i];
  }

  lemma ReverseMembers(s: string, c: char)
    ensures c in Reverse(s) <==> c in s
  {
    var r := Reverse(s);
    if c in s {
      var i :| 0 <= i < |s| && s[i] == c;
      assert r[|s| - 1 - i] == c;
    }
    if c in r {
      var i :| 0 <= i < |r| && r[i] == c;
      assert s[|s| - 1 - i] == c;
    }
  }

  /** The index of the first `c` in `s` (`s.index(c)`). */
  function IndexOf(s: string, c: char): (i: nat)
    requires c in s
    ensures i < |s| && s[i] == c && c !in s[..i]
  {
    if s[0] == c then 0
    else
      var i := IndexOf(s[1..], c);
      assert s[..i + 1] == [s[0]] + s[1..][..i];
      1 + i
  }

  /** The first occurrence of `c` in `a + [c] + b` is the one after `a` when `a` has none. */
  lemma IndexOfAfter(a: string, c: char, b: string)
    requires c !in a
    ensures c in a + [c] + b && IndexOf(a + [c] + b, c) == |a|
  {
    var s := a + [c] + b;
    assert s[|a|] == c;
  }

  /** `s.split(c, 1)`: the whole string, or the text around the first `c`. */
  function SplitOnce(s: string, c: char): (parts: seq<string>)
    ensures c !in s ==> parts == [s]
    ensures c in s ==> |parts| == 2 && s == parts[0] + [c] + parts[1] && c !in parts[0]
  {
    if c !in s then [s]
    else
      var i := IndexOf(s, c);
      assert s == s[..i] + [c] + s[i + 1..];
      [s[..i], s[i + 1..]]
  }

  /** `s.split(c)`: the pieces between the occurrences of `c`. */
  function Split(s: string, c: char): (parts: seq<string>)
    ensures |parts| >= 1
    ensures forall k :: 0 <= k < |parts| ==> c !in parts[k]
    decreases |s|
  {
    if c !in s then [s]
    else
      var i := IndexOf(s, c);
      [s[..i]] + Split(s[i + 1..], c)
  }

  /** `sep.join(parts)` */
  function Join(parts: seq<string>, sep: string): (joined: string)
  {
    if |parts| == 0 then ""
    else if |parts| == 1 then parts[0]
    else parts[0] + sep + Join(parts[1..], sep)
  }

  /** Splitting a join on a separator that no piece contains gives the pieces back. */
  lemma {:induction false} SplitJoin(parts: seq<string>, c: char)
    requires |parts| >= 1
    requires forall k :: 0 <= k < |parts| ==> c !in parts[k]
    ensures Split(Join(parts, [c]), c) == parts
  {
    if |parts| > 1 {
      var rest := Join(parts[1..], [c]);
      SplitFirst(parts[0], c, rest);
      SplitJoin(parts[1..], c);
      assert parts == [parts[0]] + parts[1..];
    }
  }

  /** Splitting at a first separator after `a` peels `a` off. */
  lemma SplitFirst(a: string, c: char, b: string)
    requires c !in a
    ensures Split(a + [c] + b, c) == [a] + Split(b, c)
  {
    var s := a + [c] + b;
    IndexOfAfter(a, c, b);
    assert s[..|a|] == a;
    assert s[|a| + 1..] == b;
  }

  /** `s.lstrip(c)`: `s` without its leading run of `c`. */
  function LStrip(s: string, c: char): (r: string)
    ensures |r| <= |s| && r == s[|s| - |r|..]
    ensures forall i :: 0 <= i < |s| - |r| ==> s[i] == c
    ensures r == [] || r[0] != c
  {
    if s != [] && s[0] == c then LStrip(s[1..], c) else s
  }

  /** `s.rstrip(c)`: `s` without its trailing run of `c`. */
  function RStrip(s: string, c: char): (r: string)
    ensures |r| <= |s| && r == s[..|r|]
    ensures forall i :: |r| <= i < |s| ==> s[i] == c
    ensures r == [] || r[|r| - 1] != c
  {
    if s != [] && s[|s| - 1] == c then RStrip(s[..|s| - 1], c) else s
  }

  /** One leading `c` in front of text that does not start with `c` is all `lstrip` removes. */
  lemma LStripOne(c: char, s: string)
    requires s == [] || s[0] != c
    ensures LStrip([c] + s, c) == s
  {
    assert ([c] + s)[1..] == s;
  }

  /** One trailing `c` after text that does not end with `c` is all `rstrip` removes. */
  lemma RStripOne(s: string, c: char)
    requires s == [] || s[|s| - 1] != c
    ensures RStrip(s + [c], c) == s
  {
    assert (s + [c])[..|s|] == s;
  }

  /** `s.split(m)[0]`: the text of `s` before the first occurrence of `m`, or all of `s`. */
  function SplitHead(s: string, m: string): (r: string)
    requires m != []
    ensures r <= s
    ensures forall j :: 0 <= j < |r| ==> !OccursAt(s, m, j)
    ensures |r| < |s| ==> OccursAt(s, m, |r|)
  {
    if m <= s then []
    else if s == [] then []
    else
      var r := SplitHead(s[1..], m);
      assert !OccursAt(s, m, 0);
      assert forall j :: 1 <= j <= |r| ==> (OccursAt(s, m, j) <==> OccursAt(s[1..], m, j - 1));
      [s[0]] + r
  }

  /** What follows the first occurrence of `m` never moves where `s.split(m)[0]` ends. */
  lemma {:induction false} SplitHeadIgnoresTail(s: string, m: string, t: string)
    requires m != []
    ensures SplitHead(s + m + t, m) == SplitHead(s + m, m)
  {
    assert (s + m + t)[..|m|] == (s + m)[..|m|];
    if !(m <= s + m) && s != [] {
      assert (s + m + t)[1..] == s[1..] + m + t;
      assert (s + m)[1..] == s[1..] + m;
      SplitHeadIgnoresTail(s[1..], m, t);
    }
  }

  /** When `m` starts with a character it has nowhere else, an occurrence of `m` placed
      after `p` cannot begin inside `p`; so if `p` has none, the head is exactly `p`. */
  lemma {:induction false} SplitHeadAtMarker(p: string, m: string, t: string)
    requires m != [] && m[0] !in m[1..]
    requires forall j :: !OccursAt(p, m, j)
    ensures SplitHead(p + m + t, m) == p
  {
    var s := p + m + t;
    if p == [] {
      assert s[..|m|] == m;
    } else {
      MarkerNotAtStart(p, m, t);
      assert s[1..] == p[1..] + m + t;
      forall j | OccursAt(p[1..], m, j) ensures OccursAt(p, m, j + 1) {
        assert p[j + 1..j + 1 + |m|] == p[1..][j..j + |m|];
      }
      SplitHeadAtMarker(p[1..], m, t);
    }
  }

  lemma MarkerNotAtStart(p: string, m: string, t: string)
    requires m != [] && m[0] !in m[1..]
    requires p != [] && !OccursAt(p, m, 0)
    ensures !(m <= p + m + t)
  {
    var s := p + m + t;
    if |p| >= |m| {
      assert s[..|m|] == p[0..|m|] != m;
    } else {
      assert m[|p|] == m[1..][|p| - 1] != m[0] == s[|p|];
    }
  }
}
