/** A body as words and the whitespace between them, and what becomes of both, told in bytes. */
module Layouts {
  import opened Strings
  import opened Utf8
  import opened HttpError
  import opened LogSafety

  // ----- Whitespace and words -----

  /** The white space characters of Unicode, in UTF-8. */
  predicate IsSpaceChar(u: seq<byte>) {
    || (|u| == 1 && (0x09 <= u[0] <= 0x0D || u[0] == 0x20))
    || (|u| == 2 && u[0] == 0xC2 && (u[1] == 0x85 || u[1] == 0xA0))
    || (|u| == 3 && u[0] == 0xE1 && u[1] == 0x9A && u[2] == 0x80)
    || (|u| == 3 && u[0] == 0xE2 && u[1] == 0x80
        && (0x80 <= u[2] <= 0x8A || u[2] == 0xA8 || u[2] == 0xA9 || u[2] == 0xAF))
    || (|u| == 3 && u[0] == 0xE2 && u[1] == 0x81 && u[2] == 0x9F)
    || (|u| == 3 && u[0] == 0xE3 && u[1] == 0x80 && u[2] == 0x80)
  }

  lemma SpaceCharIff(u: seq<byte>)
    ensures IsSpaceChar(u) <==> IsSpace(u)
  {
  }

  /** So many white space characters. */
  ghost predicate IsBlank(cs: seq<seq<byte>>) {
    forall i :: 0 <= i < |cs| ==> IsSpaceChar(cs[i])
  }

  /** Some bytes, among which no white space character occurs. */
  ghost predicate IsWord(w: seq<byte>) {
    w != [] && forall u :: IsSpaceChar(u) ==> !Occurs(w, u)
  }

  /** A body in parts: whitespace, words with whitespace between them, and whitespace. */
  datatype Layout = Layout(
    lead: seq<seq<byte>>,
    words: seq<seq<byte>>,
    gaps: seq<seq<seq<byte>>>,
    trail: seq<seq<byte>>
  )

  ghost predicate IsLayout(l: Layout) {
    IsBlank(l.lead) && IsBlank(l.trail) && AreSeparated(l.words, l.gaps)
  }

  /** Between any two neighbouring words stands some whitespace. */
  ghost predicate AreSeparated(words: seq<seq<byte>>, gaps: seq<seq<seq<byte>>>) {
    && |gaps| == (if words == [] then 0 else |words| - 1)
    && (forall i :: 0 <= i < |words| ==> IsWord(words[i]))
    && (forall i :: 0 <= i < |gaps| ==> gaps[i] != [] && IsBlank(gaps[i]))
  }

  /** The words with the whitespace between them. */
  function Between(words: seq<seq<byte>>, gaps: seq<seq<seq<byte>>>): seq<byte>
    requires |gaps| == if words == [] then 0 else |words| - 1
  {
    if words == [] then []
    else if |words| == 1 then words[0]
    else words[0] + (Bytes(gaps[0]) + Between(words[1..], gaps[1..]))
  }

  function Text(l: Layout): seq<byte>
    requires |l.gaps| == if l.words == [] then 0 else |l.words| - 1
  {
    Bytes(l.lead) + (Between(l.words, l.gaps) + Bytes(l.trail))
  }

  /** The words on one line, one space byte between neighbours. */
  function OneLine(words: seq<seq<byte>>): seq<byte> {
    if words == [] then []
    else if |words| == 1 then words[0]
    else words[0] + [0x20] + OneLine(words[1..])
  }

  // ----- Runes of a layout -----

  /** A character that stands in a text is one of its runes. */
  lemma CharIsRune(s: seq<byte>, u: seq<byte>, i: nat) returns (k: nat)
    requires IsUtf8Char(u) && At(s, u, i)
    ensures k < |Runes(s)| && Runes(s)[k] == u
  {
    var before, after := s[..i], s[i + |u|..];
    assert s == before + (u + after);
    RunesJoined(before, u + after);
    CharFirst(u, after);
    k := |Runes(before)|;
  }

  /** A rune stands somewhere in its text. */
  lemma {:induction false} RuneStands(s: seq<byte>, k: nat)
    requires k < |Runes(s)|
    ensures Occurs(s, Runes(s)[k])
    decreases k
  {
    var n := RuneLen(s);
    if k == 0 {
      assert At(s, s[..n], 0);
    } else {
      assert Runes(s)[k] == Runes(s[n..])[k - 1];
      RuneStands(s[n..], k - 1);
      OccursAfter(s, n, Runes(s)[k]);
    }
  }

  lemma OccursAfter(s: seq<byte>, n: nat, u: seq<byte>)
    requires n <= |s| && Occurs(s[n..], u)
    ensures Occurs(s, u)
  {
    var i: nat :| At(s[n..], u, i);
    assert s[n..][i..i + |u|] == s[i + n..i + n + |u|];
    assert At(s, u, i + n);
  }

  /** None of the runes is whitespace. */
  ghost predicate AllVisible(us: seq<seq<byte>>) {
    forall k :: 0 <= k < |us| ==> !IsSpace(us[k])
  }

  /** A word is what reads as runes none of which is whitespace. */
  lemma WordIff(w: seq<byte>)
    ensures IsWord(w) <==> w != [] && AllVisible(Runes(w))
  {
    if IsWord(w) {
      WordVisible(w);
    }
    if AllVisible(Runes(w)) {
      forall u | IsSpaceChar(u)
        ensures !Occurs(w, u)
      {
        VisibleWithout(w, u);
      }
    }
  }

  lemma WordVisible(w: seq<byte>)
    requires IsWord(w)
    ensures AllVisible(Runes(w))
  {
    forall k | 0 <= k < |Runes(w)|
      ensures !IsSpace(Runes(w)[k])
    {
      RuneStands(w, k);
      SpaceCharIff(Runes(w)[k]);
    }
  }

  lemma VisibleWithout(w: seq<byte>, u: seq<byte>)
    requires AllVisible(Runes(w)) && IsSpaceChar(u)
    ensures !Occurs(w, u)
  {
    SpaceCharIff(u);
    if i: nat :| At(w, u, i) {
      var k := CharIsRune(w, u, i);
    }
  }

  lemma BytesMore(u: seq<byte>, cs: seq<seq<byte>>, t: seq<byte>)
    ensures Bytes([u] + cs) + t == u + (Bytes(cs) + t)
  {
    assert ([u] + cs)[1..] == cs;
  }

  lemma Associate<T>(a: seq<T>, b: seq<T>, c: seq<T>)
    ensures a + (b + c) == a + b + c
  {
  }

  lemma BlankMore(u: seq<byte>, cs: seq<seq<byte>>, t: seq<byte>)
    requires IsUtf8Char(u) && Runes(Bytes(cs) + t) == cs + Runes(t)
    ensures Runes(Bytes([u] + cs) + t) == [u] + cs + Runes(t)
  {
    BytesMore(u, cs, t);
    CharFirst(u, Bytes(cs) + t);
    Associate([u], cs, Runes(t));
  }

  /** Whitespace reads as its characters, whatever follows. */
  lemma {:induction false} BlankThen(cs: seq<seq<byte>>, t: seq<byte>)
    requires IsBlank(cs)
    ensures Runes(Bytes(cs) + t) == cs + Runes(t)
  {
    if cs == [] {
      assert Bytes(cs) + t == t;
    } else {
      SpaceCharIff(cs[0]);
      BlankThen(cs[1..], t);
      BlankMore(cs[0], cs[1..], t);
      assert cs == [cs[0]] + cs[1..];
    }
  }

  /** Whitespace starts with the start of a rune. */
  lemma BlankStarts(cs: seq<seq<byte>>, t: seq<byte>)
    requires IsBlank(cs) && cs != []
    ensures Bytes(cs) + t != [] && RuneStart((Bytes(cs) + t)[0])
  {
    SpaceCharIff(cs[0]);
    SpaceStarts(cs[0]);
    assert Bytes(cs)[0] == cs[0][0];
  }

  /** The words of runes that start with whitespace are those of the rest. */
  lemma {:induction false} WordsAfterBlank(cs: seq<seq<byte>>, us: seq<seq<byte>>)
    requires IsBlank(cs)
    ensures Words(cs + us) == Words(us)
  {
    if cs == [] {
      assert cs + us == us;
    } else {
      SpaceCharIff(cs[0]);
      WordsAfterBlank(cs[1..], us);
      assert (cs + us)[1..] == cs[1..] + us;
    }
  }

  lemma {:induction false} WordEnds(us: seq<seq<byte>>, rest: seq<seq<byte>>)
    requires AllVisible(us)
    requires rest == [] || IsSpace(rest[0])
    ensures WordLen(us + rest) == |us|
  {
    if us == [] {
      assert us + rest == rest;
    } else {
      WordEnds(us[1..], rest);
      assert (us + rest)[1..] == us[1..] + rest;
    }
  }

  lemma WordThen(us: seq<seq<byte>>, rest: seq<seq<byte>>)
    requires us != [] && AllVisible(us)
    requires rest == [] || IsSpace(rest[0])
    ensures Words(us + rest) == [us] + Words(rest)
  {
    WordEnds(us, rest);
    assert (us + rest)[..|us|] == us && (us + rest)[|us|..] == rest;
  }

  lemma RunesOfWord(w: seq<byte>)
    requires IsWord(w)
    ensures Runes(w) != [] && Bytes(Runes(w)) == w
    ensures AllVisible(Runes(w))
  {
    WordIff(w);
    RunesLoseNothing(w);
  }

  /** A word followed by whitespace and more text. */
  lemma WordGapRunes(w: seq<byte>, gap: seq<seq<byte>>, rest: seq<byte>)
    requires IsWord(w) && gap != [] && IsBlank(gap)
    ensures Runes(w + (Bytes(gap) + rest)) == Runes(w) + (gap + Runes(rest))
    ensures Words(Runes(w + (Bytes(gap) + rest))) == [Runes(w)] + Words(Runes(rest))
  {
    BlankStarts(gap, rest);
    RunesJoined(w, Bytes(gap) + rest);
    BlankThen(gap, rest);
    RunesOfWord(w);
    SpaceCharIff(gap[0]);
    WordThen(Runes(w), gap + Runes(rest));
    WordsAfterBlank(gap, Runes(rest));
  }

  function RunesOf(words: seq<seq<byte>>): seq<seq<seq<byte>>> {
    seq(|words|, i requires 0 <= i < |words| => Runes(words[i]))
  }

  lemma SeparatedRest(words: seq<seq<byte>>, gaps: seq<seq<seq<byte>>>)
    requires AreSeparated(words, gaps) && |words| > 1
    ensures AreSeparated(words[1..], gaps[1..]) && IsWord(words[0]) && gaps[0] != [] && IsBlank(gaps[0])
  {
  }

  /** The words of a layout are the words that are read, and whitespace stands at neither end. */
  lemma {:induction false} BetweenReads(words: seq<seq<byte>>, gaps: seq<seq<seq<byte>>>)
    requires AreSeparated(words, gaps)
    ensures Words(Runes(Between(words, gaps))) == RunesOf(words)
    ensures EndsVisible(Runes(Between(words, gaps)))
    ensures words != [] ==> Between(words, gaps) != []
    decreases |words|
  {
    if |words| == 1 {
      OneWordReads(words[0]);
      RunesOfFirst(words);
    } else if |words| > 1 {
      SeparatedRest(words, gaps);
      BetweenReads(words[1..], gaps[1..]);
      WordBefore(words[0], gaps[0], Between(words[1..], gaps[1..]), RunesOf(words[1..]));
      RunesOfFirst(words);
    }
  }

  lemma RunesOfFirst(words: seq<seq<byte>>)
    requires words != []
    ensures RunesOf(words) == [Runes(words[0])] + RunesOf(words[1..])
  {
  }

  ghost predicate EndsVisible(us: seq<seq<byte>>) {
    us != [] ==> !IsSpace(us[0]) && !IsSpace(us[|us| - 1])
  }

  lemma OneWordReads(w: seq<byte>)
    requires IsWord(w)
    ensures Words(Runes(w)) == [Runes(w)] && EndsVisible(Runes(w))
  {
    RunesOfWord(w);
    WordThen(Runes(w), []);
    assert Runes(w) + [] == Runes(w);
  }

  lemma WordBefore(w: seq<byte>, gap: seq<seq<byte>>, rest: seq<byte>, ws: seq<seq<seq<byte>>>)
    requires IsWord(w) && gap != [] && IsBlank(gap) && rest != []
    requires Words(Runes(rest)) == ws && EndsVisible(Runes(rest))
    ensures Words(Runes(w + (Bytes(gap) + rest))) == [Runes(w)] + ws
    ensures EndsVisible(Runes(w + (Bytes(gap) + rest)))
  {
    WordGapRunes(w, gap, rest);
    RunesOfWord(w);
    OuterRunes(Runes(w), gap, Runes(rest));
  }

  lemma OuterRunes(us: seq<seq<byte>>, gap: seq<seq<byte>>, vs: seq<seq<byte>>)
    requires us != [] && vs != []
    ensures (us + (gap + vs))[0] == us[0]
    ensures (us + (gap + vs))[|us + (gap + vs)| - 1] == vs[|vs| - 1]
  {
  }

  // ----- Trimming and collapsing -----

  lemma {:induction false} TrimLead(cs: seq<seq<byte>>, t: seq<byte>)
    requires IsBlank(cs)
    ensures TrimLeft(Bytes(cs) + t) == TrimLeft(t)
  {
    if cs == [] {
      assert Bytes(cs) + t == t;
    } else {
      BytesMore(cs[0], cs[1..], t);
      assert cs == [cs[0]] + cs[1..];
      SpaceFirst(Bytes(cs) + t, cs[0], Bytes(cs[1..]) + t);
      TrimLead(cs[1..], t);
    }
  }

  lemma SpaceFirst(s: seq<byte>, u: seq<byte>, t: seq<byte>)
    requires IsSpaceChar(u) && s == u + t
    ensures TrimLeft(s) == TrimLeft(t)
  {
    SpaceCharIff(u);
    CharFirst(u, t);
    assert Runes(s)[0] == s[..RuneLen(s)] == u;
    assert s[|u|..] == t;
  }

  lemma SpaceLast(s: seq<byte>, t: seq<byte>, u: seq<byte>)
    requires IsSpaceChar(u) && s == t + u
    ensures TrimRight(s) == TrimRight(t)
  {
    assert s[|s| - |u|..] == u && s[..|s| - |u|] == t;
    assert |u| > 1 ==> !IsSpace(s[|s| - 1..]);
    assert |u| > 2 ==> !IsSpace(s[|s| - 2..]);
    SpaceCharIff(u);
  }

  lemma {:induction false} TrimTrail(t: seq<byte>, cs: seq<seq<byte>>)
    requires IsBlank(cs)
    ensures TrimRight(t + Bytes(cs)) == TrimRight(t)
  {
    if cs == [] {
      assert t + Bytes(cs) == t;
    } else {
      var n := |cs| - 1;
      BytesAfter(t, cs);
      SpaceLast(t + Bytes(cs), t + Bytes(cs[..n]), cs[n]);
      TrimTrail(t, cs[..n]);
    }
  }

  lemma BytesAfter(t: seq<byte>, cs: seq<seq<byte>>)
    requires cs != []
    ensures t + Bytes(cs) == t + Bytes(cs[..|cs| - 1]) + cs[|cs| - 1]
  {
    BytesLast(cs);
  }

  lemma BytesLast(cs: seq<seq<byte>>)
    requires cs != []
    ensures Bytes(cs) == Bytes(cs[..|cs| - 1]) + cs[|cs| - 1]
  {
    var front, last := cs[..|cs| - 1], [cs[|cs| - 1]];
    assert cs == front + last;
    BytesJoined(front, last);
    assert last[1..] == [];
  }

  /** Text that neither starts nor ends with whitespace is what trimming leaves. */
  lemma TrimmedText(lead: seq<seq<byte>>, t: seq<byte>, trail: seq<seq<byte>>)
    requires IsBlank(lead) && IsBlank(trail)
    requires EndsVisible(Runes(t))
    ensures TrimSpace(Bytes(lead) + (t + Bytes(trail))) == t
  {
    TrimLead(lead, t + Bytes(trail));
    if t == [] {
      assert t + Bytes(trail) == Bytes(trail) + [];
      TrimLead(trail, []);
    } else {
      TextStarts(t, trail);
      TrimTrail(t, trail);
      if LastSpaceLen(t) > 0 {
        EndsInSpace(t);
        assert false;
      }
    }
  }

  lemma TextStarts(t: seq<byte>, trail: seq<seq<byte>>)
    requires t != [] && !IsSpace(Runes(t)[0]) && IsBlank(trail)
    ensures TrimLeft(t + Bytes(trail)) == t + Bytes(trail)
  {
    if trail != [] {
      BlankStarts(trail, []);
      assert Bytes(trail) + [] == Bytes(trail);
    }
    RuneLenStable(t, Bytes(trail));
    assert (t + Bytes(trail))[..RuneLen(t)] == t[..RuneLen(t)] == Runes(t)[0];
  }

  lemma {:induction false} JoinIsOneLine(words: seq<seq<byte>>)
    ensures JoinSpace(words) == OneLine(words)
  {
    if |words| > 1 {
      JoinIsOneLine(words[1..]);
    }
  }

  lemma FieldsOf(t: seq<byte>, words: seq<seq<byte>>)
    requires Words(Runes(t)) == RunesOf(words)
    ensures Fields(t) == words
  {
    forall i | 0 <= i < |words|
      ensures Bytes(RunesOf(words)[i]) == words[i]
    {
      RunesLoseNothing(words[i]);
    }
  }

  /** For every body, however it is laid out: trimming leaves what stands from the first word to the last, and
      collapsing puts one space byte in the place of each stretch of whitespace between words. */
  lemma LayoutCollapses(l: Layout)
    requires IsLayout(l)
    ensures TrimSpace(Text(l)) == Between(l.words, l.gaps)
    ensures Collapsed(Text(l)) == OneLine(l.words)
  {
    var t := Between(l.words, l.gaps);
    BetweenReads(l.words, l.gaps);
    TrimmedText(l.lead, t, l.trail);
    FieldsOf(t, l.words);
    JoinIsOneLine(l.words);
  }

  // ----- Every body has a layout -----

  lemma LeadMore(u: seq<byte>, l: Layout)
    requires IsSpaceChar(u) && IsLayout(l)
    ensures IsLayout(l.(lead := [u] + l.lead)) && Text(l.(lead := [u] + l.lead)) == u + Text(l)
  {
    var lead := [u] + l.lead;
    assert lead[1..] == l.lead;
    assert Bytes(lead) == u + Bytes(l.lead);
  }

  /** A word in front of a text that starts with whitespace or is empty. */
  lemma WordMore(w: seq<byte>, l: Layout) returns (l': Layout)
    requires IsWord(w) && IsLayout(l) && (l.words != [] ==> l.lead != [])
    ensures IsLayout(l') && Text(l') == w + Text(l)
  {
    if l.words == [] {
      l' := Layout([], [w], [], l.lead + l.trail);
      BytesJoined(l.lead, l.trail);
      NoneBetween(Bytes(l.lead), Bytes(l.trail));
      NoLead(w + Bytes(l.lead + l.trail));
    } else {
      l' := Layout([], [w] + l.words, [l.lead] + l.gaps, l.trail);
      SeparatedMore(w, l.lead, l.words, l.gaps);
      Regroup(w, Bytes(l.lead), Between(l.words, l.gaps), Bytes(l.trail));
    }
  }

  lemma SeparatedMore(w: seq<byte>, gap: seq<seq<byte>>, words: seq<seq<byte>>, gaps: seq<seq<seq<byte>>>)
    requires IsWord(w) && gap != [] && IsBlank(gap) && AreSeparated(words, gaps) && words != []
    ensures AreSeparated([w] + words, [gap] + gaps)
    ensures Between([w] + words, [gap] + gaps) == w + (Bytes(gap) + Between(words, gaps))
  {
    assert ([w] + words)[1..] == words && ([gap] + gaps)[1..] == gaps;
  }

  lemma NoneBetween(a: seq<byte>, b: seq<byte>)
    ensures a + ([] + b) == a + b
  {
    assert [] + b == b;
  }

  lemma NoLead(s: seq<byte>)
    ensures Bytes([]) + s == s
  {
  }

  lemma Regroup(w: seq<byte>, a: seq<byte>, b: seq<byte>, c: seq<byte>)
    ensures Bytes([]) + ((w + (a + b)) + c) == w + (a + (b + c))
  {
  }

  lemma {:induction false} SomeLayout(body: seq<byte>) returns (l: Layout)
    ensures IsLayout(l) && Text(l) == body
    ensures body != [] && IsSpace(body[..RuneLen(body)]) ==> l.lead != []
    decreases |body|
  {
    if body == [] {
      l := Layout([], [], [], []);
    } else if IsSpace(body[..RuneLen(body)]) {
      var u := body[..RuneLen(body)];
      l := SomeLayout(body[|u|..]);
      SpaceCharIff(u);
      LeadMore(u, l);
      l := l.(lead := [u] + l.lead);
      assert body == u + body[|u|..];
    } else {
      var w, rest := FirstWordOf(body);
      l := SomeLayout(rest);
      if l.words != [] && l.lead == [] {
        assert rest == [];
        assert Text(l) == [];
        BetweenReads(l.words, l.gaps);
        assert false;
      }
      l := WordMore(w, l);
    }
  }

  lemma FirstWordOf(body: seq<byte>) returns (w: seq<byte>, rest: seq<byte>)
    requires body != [] && !IsSpace(body[..RuneLen(body)])
    ensures body == w + rest && IsWord(w)
    ensures rest != [] ==> IsSpace(rest[..RuneLen(rest)])
  {
    var us := Runes(body);
    var n := WordLen(us);
    w, rest := Bytes(us[..n]), Bytes(us[n..]);
    RunesLoseNothing(body);
    assert us == us[..n] + us[n..];
    BytesJoined(us[..n], us[n..]);
    SuffixReadsBack(body, n);
    RunReadsBack(us, n);
    assert us[0] == body[..RuneLen(body)];
    WordIff(w);
    if rest != [] {
      assert Runes(rest)[0] == rest[..RuneLen(rest)];
    }
  }

  /** So the collapsed text is told by the bytes of the body alone. */
  lemma CollapsedIff(body: seq<byte>, line: seq<byte>)
    ensures Collapsed(body) == line
       <==> exists l :: IsLayout(l) && Text(l) == body && OneLine(l.words) == line
  {
    var l := SomeLayout(body);
    LayoutCollapses(l);
    forall l' | IsLayout(l') && Text(l') == body
      ensures OneLine(l'.words) == Collapsed(body)
    {
      LayoutCollapses(l');
    }
  }
}
