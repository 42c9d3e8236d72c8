/** The parts of Go's `strings` package that the modelled code calls. */
module Strings {
  /** `strings.IndexByte`, except that an absent byte yields the length. */
  function IndexByte(s: string, c: char): (i: nat)
    ensures i <= |s| && c !in s[..i]
    ensures i < |s| ==> s[i] == c
  {
    if s == "" then 0
    else if s[0] == c then 0
    else
      var rest := IndexByte(s[1..], c);
      assert s[..rest + 1] == [s[0]] + s[1..][..rest];
      rest + 1
  }

  /** `strings.Cut` on a one-byte separator. */
  function Cut(s: string, c: char): (string, string) {
    var i := IndexByte(s, c);
    if i < |s| then (s[..i], s[i + 1..]) else (s, "")
  }

  lemma {:induction false} IndexByteIs(s: string, c: char, i: nat)
    requires i < |s| && s[i] == c && c !in s[..i]
    ensures IndexByte(s, c) == i
  {
    if i > 0 {
      assert s[0] == s[..i][0];
      assert s[1..][..i - 1] == s[..i][1..];
      IndexByteIs(s[1..], c, i - 1);
    }
  }

  lemma {:induction false} IndexByteAbsent(s: string, c: char)
    requires c !in s
    ensures IndexByte(s, c) == |s|
  {
    if s != "" {
      IndexByteAbsent(s[1..], c);
    }
  }

  /** Cutting what was joined at a separator the first part does not hold gives the parts back. */
  lemma CutJoined(before: string, c: char, after: string)
    requires c !in before
    ensures Cut(before + [c] + after, c) == (before, after)
  {
    var s := before + [c] + after;
    assert s[..|before|] == before;
    IndexByteIs(s, c, |before|);
  }

  /** A string without the separator is its own first part. */
  lemma CutAbsent(s: string, c: char)
    requires c !in s
    ensures Cut(s, c) == (s, "")
  {
    IndexByteAbsent(s, c);
  }

  /** What `Cut` found apart joins back, and the first part never holds the separator. */
  lemma CutRejoins(s: string, c: char)
    ensures c !in Cut(s, c).0
    ensures c in s ==> s == Cut(s, c).0 + [c] + Cut(s, c).1
    ensures c !in s ==> s == Cut(s, c).0
  {
    var i := IndexByte(s, c);
    if i < |s| {
      assert s == s[..i] + [s[i]] + s[i + 1..];
    } else {
      assert s[..i] == s;
    }
  }

  /** `sub` stands in `s` at position `i`. */
  predicate At<T(==)>(s: seq<T>, sub: seq<T>, i: nat) {
    i + |sub| <= |s| && s[i..i + |sub|] == sub
  }

  /** `sub` occurs somewhere in `s`. */
  ghost predicate Occurs<T>(s: seq<T>, sub: seq<T>) {
    exists i: nat :: At(s, sub, i)
  }

  lemma AtRest<T>(s: seq<T>, sub: seq<T>, j: nat)
    requires s != [] && 0 < j
    ensures At(s, sub, j) <==> At(s[1..], sub, j - 1)
  {
    if j + |sub| <= |s| {
      assert s[j..j + |sub|] == s[1..][j - 1..j - 1 + |sub|];
    }
  }

  /** `strings.Index`: the first position of `sub`, or the length plus one when there is none. */
  function Index<T(==)>(s: seq<T>, sub: seq<T>): (i: nat)
    ensures i <= |s| + 1
    ensures i <= |s| ==> At(s, sub, i)
    ensures forall j: nat :: j < i ==> !At(s, sub, j)
  {
    if sub <= s then
      assert s[0..|sub|] == sub;
      0
    else if s == [] then
      1
    else
      var rest := Index(s[1..], sub);
      AtRest(s, sub, rest + 1);
      assert forall j: nat :: j < rest + 1 ==> !At(s, sub, j) by {
        forall j: nat | j < rest + 1
          ensures !At(s, sub, j)
        {
          if j > 0 {
            AtRest(s, sub, j);
          }
        }
      }
      rest + 1
  }

  lemma IndexIs<T>(s: seq<T>, sub: seq<T>, i: nat)
    requires At(s, sub, i) && forall j: nat :: j < i ==> !At(s, sub, j)
    ensures Index(s, sub) == i
  {
  }

  /** `strings.Contains`. */
  predicate Contains<T(==)>(s: seq<T>, sub: seq<T>)
    ensures Contains(s, sub) <==> Occurs(s, sub)
  {
    var i := Index(s, sub);
    assert i <= |s| ==> At(s, sub, i);
    i <= |s|
  }

  /** `strings.Split` with a separator that is not empty: cut at each occurrence, left to right, without overlap. */
  function Split(s: string, sep: string): (parts: seq<string>)
    requires sep != ""
    ensures |parts| >= 1
    decreases |s|
  {
    var i := Index(s, sep);
    if i <= |s| then [s[..i]] + Split(s[i + |sep|..], sep) else [s]
  }

  /** `strings.Join`. */
  function Join(parts: seq<string>, sep: string): string {
    if parts == [] then ""
    else if |parts| == 1 then parts[0]
    else parts[0] + sep + Join(parts[1..], sep)
  }

  /** Splitting loses nothing: the parts join back to the string, and none of them holds the separator. */
  lemma {:induction false} SplitJoins(s: string, sep: string)
    requires sep != ""
    ensures Join(Split(s, sep), sep) == s
    ensures NoneHolds(Split(s, sep), sep)
    decreases |s|
  {
    var i := Index(s, sep);
    if i <= |s| {
      var first, rest := s[..i], s[i + |sep|..];
      SplitJoins(rest, sep);
      JoinAfter(first, Split(rest, sep), sep);
      Rejoined(s, sep, i);
      NoneBefore(s, sep, i);
      NoneHoldsAfter(first, Split(rest, sep), sep);
    }
  }

  /** No part holds the separator. */
  ghost predicate NoneHolds(parts: seq<string>, sep: string) {
    forall p :: 0 <= p < |parts| ==> !Occurs(parts[p], sep)
  }

  lemma NoneHoldsAfter(first: string, parts: seq<string>, sep: string)
    requires !Occurs(first, sep) && NoneHolds(parts, sep)
    ensures NoneHolds([first] + parts, sep)
  {
  }

  lemma JoinAfter(first: string, parts: seq<string>, sep: string)
    requires parts != []
    ensures Join([first] + parts, sep) == first + sep + Join(parts, sep)
  {
    assert ([first] + parts)[1..] == parts;
  }

  lemma Rejoined(s: string, sep: string, i: nat)
    requires At(s, sep, i)
    ensures s[..i] + sep + s[i + |sep|..] == s
  {
  }

  lemma NoneBefore(s: string, sep: string, i: nat)
    requires sep != "" && i <= |s| && forall j: nat :: j < i ==> !At(s, sep, j)
    ensures !Occurs(s[..i], sep)
  {
    forall j: nat
      ensures !At(s[..i], sep, j)
    {
      if At(s[..i], sep, j) {
        assert s[j..j + |sep|] == s[..i][j..j + |sep|];
        assert At(s, sep, j);
      }
    }
  }
}
