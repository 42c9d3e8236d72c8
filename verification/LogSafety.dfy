/** What the body snippet promises of a log line. */
module LogSafety {
  import opened Decimal
  import opened Strings
  import opened Utf8
  import opened HttpError

  // ----- Collapsing whitespace -----

  /** The runes that are not whitespace, in order. */
  function NonSpace(us: seq<seq<byte>>): seq<seq<byte>> {
    if us == [] then []
    else (if IsSpace(us[0]) then [] else [us[0]]) + NonSpace(us[1..])
  }

  /** The words as runes, with a single space between neighbours. */
  function Joined(ws: seq<seq<seq<byte>>>): seq<seq<byte>> {
    if ws == [] then []
    else if |ws| == 1 then ws[0]
    else ws[0] + [SP] + Joined(ws[1..])
  }

  lemma {:induction false} NonSpaceJoined(us: seq<seq<byte>>, vs: seq<seq<byte>>)
    ensures NonSpace(us + vs) == NonSpace(us) + NonSpace(vs)
  {
    if us == [] {
      assert us + vs == vs;
    } else {
      var rest := us[1..] + vs;
      assert us + vs == [us[0]] + rest;
      NonSpaceFirst(us[0], rest);
      NonSpaceJoined(us[1..], vs);
    }
  }

  lemma NonSpaceFirst(u: seq<byte>, rest: seq<seq<byte>>)
    ensures NonSpace([u] + rest) == (if IsSpace(u) then [] else [u]) + NonSpace(rest)
  {
    assert ([u] + rest)[1..] == rest;
  }

  lemma SpaceStarts(u: seq<byte>)
    requires IsSpace(u)
    ensures u != [] && RuneStart(u[0])
  {
  }

  /** Words keep every rune that is not whitespace. */
  lemma {:induction false} WordsKeep(us: seq<seq<byte>>)
    ensures NonSpace(Joined(Words(us))) == NonSpace(us)
    decreases |us|
  {
    if us != [] {
      if IsSpace(us[0]) {
        WordsKeep(us[1..]);
      } else {
        var n := WordLen(us);
        WordsKeep(us[n..]);
        assert us == us[..n] + us[n..];
        NonSpaceJoined(us[..n], us[n..]);
        FirstWord(us[..n], Words(us[n..]));
      }
    }
  }

  lemma SpaceIsSpace()
    ensures IsSpace(SP) && NonSpace([SP]) == []
  {
    assert IsUtf8Char(SP) && RuneValue(SP) == 0x20;
    assert [SP][1..] == [];
  }

  lemma FirstWord(w: seq<seq<byte>>, ws: seq<seq<seq<byte>>>)
    ensures NonSpace(Joined([w] + ws)) == NonSpace(w) + NonSpace(Joined(ws))
  {
    if ws == [] {
      assert Joined([w]) == w && NonSpace(w) + [] == NonSpace(w);
      assert [w] + ws == [w];
    } else {
      assert ([w] + ws)[1..] == ws;
      SpaceIsSpace();
      NonSpaceJoined(w, [SP]);
      NonSpaceJoined(w + [SP], Joined(ws));
    }
  }

  /** The rune sequences that decoding can yield. */
  ghost predicate ReadsBack(us: seq<seq<byte>>) {
    Runes(Bytes(us)) == us
  }

  lemma {:induction false} SuffixReadsBack(s: seq<byte>, n: nat)
    requires n <= |Runes(s)|
    ensures ReadsBack(Runes(s)[n..])
  {
    RunesLoseNothing(s);
    if n == 0 {
      assert Runes(s)[0..] == Runes(s);
    } else {
      SuffixReadsBack(s[RuneLen(s)..], n - 1);
      assert Runes(s)[n..] == Runes(s[RuneLen(s)..])[n - 1..];
    }
  }

  /** A run of runes before a space or the end reads back by itself. */
  lemma RunReadsBack(us: seq<seq<byte>>, n: nat)
    requires n <= |us| && ReadsBack(us) && ReadsBack(us[n..])
    requires n < |us| ==> IsSpace(us[n])
    ensures ReadsBack(us[..n])
  {
    var w, rest := us[..n], us[n..];
    assert us == w + rest;
    BytesJoined(w, rest);
    if rest != [] {
      SpaceStarts(rest[0]);
      assert Bytes(rest)[0] == rest[0][0];
    }
    RunesJoined(Bytes(w), Bytes(rest));
    assert Runes(Bytes(w)) + rest == w + rest;
    assert |Runes(Bytes(w))| == |w|;
    assert Runes(Bytes(w)) == (w + rest)[..|w|];
  }

  lemma {:induction false} WordsReadBack(s: seq<byte>)
    ensures forall i :: 0 <= i < |Words(Runes(s))| ==> ReadsBack(Words(Runes(s))[i])
    decreases |s|
  {
    var us := Runes(s);
    RunesLoseNothing(s);
    if us != [] {
      if IsSpace(us[0]) {
        WordsReadBack(s[RuneLen(s)..]);
      } else {
        var n := WordLen(us);
        SuffixReadsBack(s, n);
        RunReadsBack(us, n);
        RestShorter(us, n);
        WordsReadBack(Bytes(us[n..]));
        assert Words(us) == [us[..n]] + Words(us[n..]);
      }
    }
  }

  lemma RestShorter(us: seq<seq<byte>>, n: nat)
    requires 0 < n <= |us| && us[0] != []
    ensures |Bytes(us[n..])| < |Bytes(us)|
  {
    assert us == us[..n] + us[n..];
    BytesJoined(us[..n], us[n..]);
    assert |Bytes(us[..n])| >= |us[0]| by {
      assert us[..n][0] == us[0];
    }
  }

  /** Joining words makes a string that reads as the words with single spaces between them. */
  lemma {:induction false} JoinedReadsBack(ws: seq<seq<seq<byte>>>)
    requires forall i :: 0 <= i < |ws| ==> ReadsBack(ws[i])
    ensures Runes(JoinSpace(seq(|ws|, i requires 0 <= i < |ws| => Bytes(ws[i])))) == Joined(ws)
  {
    var fields := seq(|ws|, i requires 0 <= i < |ws| => Bytes(ws[i]));
    if |ws| > 1 {
      var rest := seq(|ws| - 1, i requires 0 <= i < |ws| - 1 => Bytes(ws[1..][i]));
      JoinedReadsBack(ws[1..]);
      assert fields[1..] == rest;
      SpaceThen(fields[0], JoinSpace(rest));
    }
  }

  lemma SpaceThen(w: seq<byte>, rest: seq<byte>)
    ensures Runes(w + SP + rest) == Runes(w) + [SP] + Runes(rest)
  {
    assert w + SP + rest == w + (SP + rest);
    RunesJoined(w, SP + rest);
    CharFirst(SP, rest);
  }

  /** The runes of the collapsed text are the words of the trimmed body, one space apart. */
  lemma CollapsedRunes(body: seq<byte>)
    ensures Runes(Collapsed(body)) == Joined(Words(Runes(TrimSpace(body))))
  {
    WordsReadBack(TrimSpace(body));
    JoinedReadsBack(Words(Runes(TrimSpace(body))));
  }

  lemma {:induction false} TrimLeftKeeps(s: seq<byte>)
    ensures NonSpace(Runes(TrimLeft(s))) == NonSpace(Runes(s))
  {
    if s != [] && IsSpace(s[..RuneLen(s)]) {
      TrimLeftKeeps(s[RuneLen(s)..]);
    }
  }

  /** What is trimmed off the end is one rune. */
  lemma LastSpaceRune(s: seq<byte>) returns (t: seq<byte>, u: seq<byte>)
    requires LastSpaceLen(s) > 0
    ensures t == s[..|s| - LastSpaceLen(s)] && s == t + u && IsSpace(u)
    ensures Runes(s) == Runes(t) + [u]
  {
    t, u := s[..|s| - LastSpaceLen(s)], s[|s| - LastSpaceLen(s)..];
    SpaceStarts(u);
    RunesJoined(t, u);
    CharFirst(u, []);
    assert u + [] == u;
  }

  lemma {:induction false} TrimRightKeeps(s: seq<byte>)
    ensures NonSpace(Runes(TrimRight(s))) == NonSpace(Runes(s))
  {
    if LastSpaceLen(s) > 0 {
      var t, u := LastSpaceRune(s);
      TrimRightKeeps(t);
      NonSpaceJoined(Runes(t), [u]);
      assert NonSpace([u]) == [];
    }
  }

  /** For every body, valid or not, the collapsed text holds the body's runes that are not whitespace, in order. */
  lemma CollapseKeeps(body: seq<byte>)
    ensures NonSpace(Runes(Collapsed(body))) == NonSpace(Runes(body))
  {
    CollapsedRunes(body);
    WordsKeep(Runes(TrimSpace(body)));
    TrimRightKeeps(TrimLeft(body));
    TrimLeftKeeps(body);
  }

  // ----- One line, single spaces -----

  /** Whitespace occurs only as a single U+0020 between other runes. */
  ghost predicate Tidy(us: seq<seq<byte>>) {
    && (forall i :: 0 <= i < |us| && IsSpace(us[i]) ==> us[i] == SP)
    && (forall i :: 0 <= i < |us| - 1 ==> !IsSpace(us[i]) || !IsSpace(us[i + 1]))
    && (us != [] ==> !IsSpace(us[0]) && !IsSpace(us[|us| - 1]))
  }

  ghost predicate AreWords(ws: seq<seq<seq<byte>>>) {
    forall i :: 0 <= i < |ws| ==> ws[i] != [] && forall k :: 0 <= k < |ws[i]| ==> !IsSpace(ws[i][k])
  }

  lemma {:induction false} WordsAreWords(us: seq<seq<byte>>)
    ensures AreWords(Words(us))
    decreases |us|
  {
    if us != [] {
      if IsSpace(us[0]) {
        WordsAreWords(us[1..]);
      } else {
        WordsAreWords(us[WordLen(us)..]);
      }
    }
  }

  lemma {:induction false} JoinedTidy(ws: seq<seq<seq<byte>>>)
    requires AreWords(ws)
    ensures Tidy(Joined(ws)) && (ws != [] ==> Joined(ws) != [])
  {
    if |ws| > 1 {
      JoinedTidy(ws[1..]);
      TidyAppend(ws[0], Joined(ws[1..]));
    }
  }

  lemma TidyAppend(w: seq<seq<byte>>, rest: seq<seq<byte>>)
    requires w != [] && (forall k :: 0 <= k < |w| ==> !IsSpace(w[k]))
    requires Tidy(rest) && rest != []
    ensures Tidy(w + [SP] + rest)
  {
    var us := w + [SP] + rest;
    forall i | 0 <= i < |us|
      ensures us[i] == if i < |w| then w[i] else if i == |w| then SP else rest[i - |w| - 1]
    {
    }
  }

  /** Visible ASCII text reads one byte at a time, and none of it is whitespace. */
  lemma {:induction false} PlainRunes(s: seq<byte>)
    requires forall i :: 0 <= i < |s| ==> 0x20 < s[i] < 0x7F
    ensures |Runes(s)| == |s| && forall i :: 0 <= i < |s| ==> !IsSpace(Runes(s)[i])
  {
    if s != [] {
      PlainRunes(s[1..]);
      CharFirst([s[0]], s[1..]);
      assert s == [s[0]] + s[1..];
      assert RuneValue([s[0]]) == s[0];
    }
  }

  lemma MarkerPlain()
    ensures |MARKER| == 14 && forall i :: 0 <= i < |MARKER| ==> 0x20 < MARKER[i] < 0x7F
  {
    var text := "...(truncated)";
    assert forall i :: 0 <= i < |text| ==> ' ' < text[i] <= 'z';
  }

  /** A text cut at a rune start keeps its first runes. */
  lemma CutRunes(s: seq<byte>, cut: nat)
    requires cut < |s| && (cut == 0 || RuneStart(s[cut]))
    ensures Runes(s[..cut]) <= Runes(s)
    ensures Runes(s[..cut] + MARKER) == Runes(s[..cut]) + Runes(MARKER)
  {
    if cut > 0 {
      assert s == s[..cut] + s[cut..];
      RunesJoined(s[..cut], s[cut..]);
    }
    assert RuneStart(MARKER[0]);
    RunesJoined(s[..cut], MARKER);
  }

  lemma CollapsedTidy(body: seq<byte>)
    ensures Tidy(Runes(Collapsed(body)))
  {
    CollapsedRunes(body);
    WordsAreWords(Runes(TrimSpace(body)));
    JoinedTidy(Words(Runes(TrimSpace(body))));
  }

  /** For every body that is not HTML, valid or not, the summary is one line: no whitespace but single
      spaces, none at either end. */
  lemma SnippetTidy(body: seq<byte>)
    requires !IsHtml(body)
    ensures Tidy(Runes(Snippet(body)))
  {
    var s := Collapsed(body);
    CollapsedTidy(body);
    if |s| > MAX_ERROR_BODY_LEN {
      var cut := CutPoint(s, MAX_ERROR_BODY_LEN);
      CutRunes(s, cut);
      MarkerPlain();
      PlainRunes(MARKER);
      TidyMarked(Runes(s), Runes(s[..cut]), Runes(MARKER));
    }
  }

  lemma TidyMarked(us: seq<seq<byte>>, kept: seq<seq<byte>>, marker: seq<seq<byte>>)
    requires Tidy(us) && kept <= us
    requires marker != [] && forall i :: 0 <= i < |marker| ==> !IsSpace(marker[i])
    ensures Tidy(kept + marker)
  {
    var vs := kept + marker;
    assert forall i :: 0 <= i < |kept| ==> vs[i] == us[i];
    assert forall i :: |kept| <= i < |vs| ==> vs[i] == marker[i - |kept|];
  }

  /** What follows a word and a space in tidy text is tidy and not empty. */
  lemma TidyRest(us: seq<seq<byte>>, n: nat)
    requires Tidy(us) && n < |us| && IsSpace(us[n])
    ensures us[n] == SP && us[n + 1..] != [] && Tidy(us[n + 1..]) && !IsSpace(us[n + 1])
    ensures us == us[..n] + [SP] + us[n + 1..]
  {
    var rest := us[n + 1..];
    assert !IsSpace(us[|us| - 1]);
    forall i | 0 <= i < |rest|
      ensures rest[i] == us[i + n + 1]
    {
    }
  }

  lemma WordsThen(us: seq<seq<byte>>)
    requires us != [] && !IsSpace(us[0]) && WordLen(us) < |us|
    ensures Words(us) == [us[..WordLen(us)]] + Words(us[WordLen(us) + 1..])
  {
    var tail := us[WordLen(us)..];
    assert tail[1..] == us[WordLen(us) + 1..];
  }

  lemma JoinedThen(w: seq<seq<byte>>, ws: seq<seq<seq<byte>>>)
    requires ws != []
    ensures Joined([w] + ws) == w + [SP] + Joined(ws)
  {
    assert ([w] + ws)[1..] == ws;
  }

  /** Splitting tidy text into words and joining them changes nothing. */
  lemma {:induction false} TidyRejoins(us: seq<seq<byte>>)
    requires Tidy(us)
    ensures Joined(Words(us)) == us && (us != [] ==> Words(us) != [])
    decreases |us|
  {
    var n := WordLen(us);
    if n < |us| {
      var rest := us[n + 1..];
      TidyRest(us, n);
      TidyRejoins(rest);
      WordsThen(us);
      JoinedThen(us[..n], Words(rest));
    } else if us != [] {
      assert us[..n] == us && us[n..] == [];
    }
  }

  lemma TidyTrimmed(s: seq<byte>)
    requires Tidy(Runes(s))
    ensures TrimSpace(s) == s
  {
    if s != [] {
      assert Runes(s)[0] == s[..RuneLen(s)];
    }
    if LastSpaceLen(s) > 0 {
      EndsInSpace(s);
      assert false;
    }
  }

  lemma EndsInSpace(s: seq<byte>)
    requires LastSpaceLen(s) > 0
    ensures Runes(s) != [] && IsSpace(Runes(s)[|Runes(s)| - 1])
  {
    var t, u := LastSpaceRune(s);
  }

  /** A body comes through collapsing as it is exactly when it is tidy. */
  lemma CollapseUnchangedIff(body: seq<byte>)
    ensures Collapsed(body) == body <==> Tidy(Runes(body))
  {
    CollapsedTidy(body);
    if Tidy(Runes(body)) {
      TidyTrimmed(body);
      TidyRejoins(Runes(body));
      CollapsedRunes(body);
      RunesLoseNothing(Collapsed(body));
      RunesLoseNothing(body);
    }
  }

  /** So collapsing once is enough. */
  lemma CollapseIdempotent(body: seq<byte>)
    ensures Collapsed(Collapsed(body)) == Collapsed(body)
  {
    CollapsedTidy(body);
    CollapseUnchangedIff(Collapsed(body));
  }

  /** A body within the cap that is not HTML is its own summary exactly when it is tidy. */
  lemma SnippetUnchangedIff(body: seq<byte>)
    requires |body| <= MAX_ERROR_BODY_LEN && !IsHtml(body)
    ensures Snippet(body) == body <==> Tidy(Runes(body))
  {
    SnippetTidy(body);
    CollapseUnchangedIff(body);
  }

  // ----- The end of a truncated line -----

  /** The marker stands right after a space exactly when the text is cut right after one. */
  lemma MarkerAfterSpaceIff(body: seq<byte>)
    requires !IsHtml(body) && |Collapsed(body)| > MAX_ERROR_BODY_LEN
    ensures var s, cut := Collapsed(body), CutPoint(Collapsed(body), MAX_ERROR_BODY_LEN);
            (exists kept :: Snippet(body) == kept + SP + MARKER) <==> cut > 0 && s[cut - 1] == 0x20
  {
    SpaceBefore(Collapsed(body)[..CutPoint(Collapsed(body), MAX_ERROR_BODY_LEN)], MARKER);
  }

  lemma SpaceBefore(text: seq<byte>, end: seq<byte>)
    ensures (exists kept :: text + end == kept + SP + end) <==> text != [] && text[|text| - 1] == 0x20
  {
    if kept :| text + end == kept + SP + end {
      SameEnds(text, kept + SP, end);
    }
    if text != [] && text[|text| - 1] == 0x20 {
      assert text == text[..|text| - 1] + SP;
    }
  }

  lemma SameEnds(s: seq<byte>, t: seq<byte>, end: seq<byte>)
    requires s + end == t + end
    ensures s == t
  {
    assert |s| == |t|;
    assert s == (s + end)[..|s|] && t == (t + end)[..|t|];
  }

  /** So many letters `a`. */
  function As(n: nat): seq<byte> {
    seq(n, _ => 0x61)
  }

  /** Tidy text without angle brackets that is cut after its one space. */
  const SPACED: seq<byte> := As(255) + SP + As(1)

  lemma SpacedTidy()
    ensures Tidy(Runes(SPACED))
  {
    PlainRunes(As(255));
    PlainRunes(As(1));
    SpaceThen(As(255), As(1));
    TidyAppend(Runes(As(255)), Runes(As(1)));
  }

  /** Every mark starts with an angle bracket. */
  lemma MarkedHasBracket(lower: seq<byte>)
    requires Marked(lower)
    ensures exists i :: 0 <= i < |lower| && lower[i] == 0x3C
  {
    assert DOCTYPE[0] == 0x3C && HTML[0] == 0x3C;
    assert forall t :: 0 <= t < |HTML_OPEN_TAGS| ==> HTML_OPEN_TAGS[t][0] == 0x3C;
    if DOCTYPE <= lower || HTML <= lower {
      assert lower[0] == 0x3C;
    } else {
      var t, i: nat :| 0 <= t < |HTML_OPEN_TAGS| && At(lower, HTML_OPEN_TAGS[t], i)
                       && i + |HTML_OPEN_TAGS[t]| <= PROBE_LEN;
      assert lower[i] == lower[i..i + |HTML_OPEN_TAGS[t]|][0];
    }
  }

  lemma SpacedNoHtml()
    ensures !IsHtml(SPACED)
  {
    IsHtmlIff(SPACED);
    SpacedTidy();
    TidyTrimmed(SPACED);
    if Marked(Lower(SPACED)) {
      MarkedHasBracket(Lower(SPACED));
      assert false;
    }
  }

  /** The summary of this body is not the one-line text with spaces between words alone. */
  lemma MarkerAfterSpace()
    ensures exists kept :: Snippet(SPACED) == kept + SP + MARKER
  {
    SpacedTidy();
    SpacedNoHtml();
    CollapseUnchangedIff(SPACED);
    MarkerAfterSpaceIff(SPACED);
  }

  // ----- Length -----

  /** Every summary fits the cap and the marker, for every body a Go slice can hold. */
  lemma SnippetBounded(body: seq<byte>)
    requires |body| <= MAX_INT
    ensures |Snippet(body)| <= MAX_ERROR_BODY_LEN + |MARKER| == 270
  {
    IntLength(|body|);
  }

  // ----- Truncation -----

  lemma {:induction false} JoinedValid(ws: seq<seq<seq<byte>>>)
    requires forall i, k :: 0 <= i < |ws| && 0 <= k < |ws[i]| ==> IsUtf8Char(ws[i][k])
    ensures forall k :: 0 <= k < |Joined(ws)| ==> IsUtf8Char(Joined(ws)[k])
  {
    if |ws| > 1 {
      JoinedValid(ws[1..]);
      forall k | 0 <= k < |Joined(ws)|
        ensures IsUtf8Char(Joined(ws)[k])
      {
        var n := |ws[0]|;
        assert Joined(ws)[k] == if k < n then ws[0][k] else if k == n then SP else Joined(ws[1..])[k - n - 1];
      }
    }
  }

  lemma {:induction false} WordsValid(us: seq<seq<byte>>)
    requires forall i :: 0 <= i < |us| ==> IsUtf8Char(us[i])
    ensures forall i, k :: 0 <= i < |Words(us)| && 0 <= k < |Words(us)[i]| ==> IsUtf8Char(Words(us)[i][k])
    decreases |us|
  {
    if us != [] {
      if IsSpace(us[0]) {
        WordsValid(us[1..]);
      } else {
        WordsValid(us[WordLen(us)..]);
      }
    }
  }

  lemma {:induction false} TrimLeftValid(s: seq<byte>)
    requires IsValid(s)
    ensures IsValid(TrimLeft(s))
  {
    if s != [] && IsSpace(s[..RuneLen(s)]) {
      assert Runes(s)[1..] == Runes(s[RuneLen(s)..]);
      TrimLeftValid(s[RuneLen(s)..]);
    }
  }

  lemma {:induction false} TrimRightValid(s: seq<byte>)
    requires IsValid(s)
    ensures IsValid(TrimRight(s))
  {
    var n := LastSpaceLen(s);
    if n > 0 {
      SpaceStarts(s[|s| - n..]);
      ValidPrefixIff(s, |s| - n);
      TrimRightValid(s[..|s| - n]);
    }
  }

  lemma CollapsedValid(body: seq<byte>)
    requires IsValid(body)
    ensures IsValid(Collapsed(body))
  {
    TrimLeftValid(body);
    TrimRightValid(TrimLeft(body));
    CollapsedRunes(body);
    WordsValid(Runes(TrimSpace(body)));
    JoinedValid(Words(Runes(TrimSpace(body))));
  }

  /** No character has more than three continuation bytes in a row. */
  lemma {:induction false} FourthIsStart(s: seq<byte>, c: nat)
    requires IsValid(s) && c + 3 < |s|
    ensures exists k :: c <= k <= c + 3 && RuneStart(s[k])
    decreases |s|
  {
    var n := RuneLen(s);
    assert Runes(s)[0] == s[..n] && Runes(s)[1..] == Runes(s[n..]);
    assert forall i :: 0 <= i < |Runes(s[n..])| ==> Runes(s[n..])[i] == Runes(s)[i + 1];
    if c == 0 {
      assert RuneStart(s[0]);
    } else if n <= c {
      FourthIsStart(s[n..], c - n);
      var k :| c - n <= k <= c - n + 3 && RuneStart(s[n..][k]);
      assert RuneStart(s[k + n]);
    } else {
      assert IsUtf8Char(s[n..][..RuneLen(s[n..])]) by {
        assert Runes(s[n..])[0] == s[n..][..RuneLen(s[n..])];
      }
      assert RuneStart(s[n]);
    }
  }

  /** Of a valid body over the cap the summary keeps the longest valid prefix of the collapsed text that fits
      the cap, and that prefix falls short of the cap by three bytes at most. */
  lemma TruncationMaximal(body: seq<byte>)
    requires IsValid(body) && !IsHtml(body) && |Collapsed(body)| > MAX_ERROR_BODY_LEN
    ensures exists cut ::
              && MAX_ERROR_BODY_LEN - 3 <= cut <= MAX_ERROR_BODY_LEN
              && Snippet(body) == Collapsed(body)[..cut] + MARKER
              && IsValid(Collapsed(body)[..cut])
              && forall c :: 0 <= c <= MAX_ERROR_BODY_LEN && IsValid(Collapsed(body)[..c]) ==> c <= cut
  {
    var s := Collapsed(body);
    var cut := CutPoint(s, MAX_ERROR_BODY_LEN);
    CollapsedValid(body);
    FourthIsStart(s, MAX_ERROR_BODY_LEN - 3);
    ValidPrefixIff(s, cut);
    forall c | 0 <= c <= MAX_ERROR_BODY_LEN && IsValid(s[..c])
      ensures c <= cut
    {
      ValidPrefixIff(s, c);
    }
  }

  // ----- HTML -----

  /** A document opening starts the text, or a tag ends within its first bytes. */
  ghost predicate Marked(lower: seq<byte>) {
    || DOCTYPE <= lower || HTML <= lower
    || exists t, i: nat ::
         0 <= t < |HTML_OPEN_TAGS| && At(lower, HTML_OPEN_TAGS[t], i) && i + |HTML_OPEN_TAGS[t]| <= PROBE_LEN
  }

  lemma ProbeOccurs(s: seq<byte>, tag: seq<byte>)
    ensures Occurs(Lower(Probe(s)), tag) <==> exists i: nat :: At(Lower(s), tag, i) && i + |tag| <= PROBE_LEN
  {
    var l, p := Lower(s), Lower(Probe(s));
    forall i: nat
      ensures At(p, tag, i) <==> At(l, tag, i) && i + |tag| <= PROBE_LEN
    {
      if i + |tag| <= |p| {
        assert p[i..i + |tag|] == l[i..i + |tag|];
      }
    }
    assert (exists i: nat :: At(l, tag, i) && i + |tag| <= PROBE_LEN) ==> exists i: nat :: At(p, tag, i);
  }

  /** A body is taken for HTML exactly when the whole trimmed body, in lower case, is so marked. */
  lemma IsHtmlIff(body: seq<byte>)
    ensures IsHtml(body) <==> Marked(Lower(TrimSpace(body)))
  {
    var s := TrimSpace(body);
    var l, p := Lower(s), Lower(Probe(s));
    assert p <= l && (|p| == |l| || |p| == PROBE_LEN);
    assert DOCTYPE <= p <==> DOCTYPE <= l;
    assert HTML <= p <==> HTML <= l;
    forall t | 0 <= t < |HTML_OPEN_TAGS|
      ensures Contains(p, HTML_OPEN_TAGS[t])
         <==> exists i: nat :: At(l, HTML_OPEN_TAGS[t], i) && i + |HTML_OPEN_TAGS[t]| <= PROBE_LEN
    {
      ProbeOccurs(s, HTML_OPEN_TAGS[t]);
    }
  }

  lemma HtmlLengthShows(m: nat, n: nat)
    requires Omitted(m) == Omitted(n)
    ensures m == n
  {
    var s, t := Itoa(m), Itoa(n);
    assert |s| == |t|;
    forall i | 0 <= i < |s|
      ensures s[i] == t[i]
    {
      ItoaAlphabet(m, s[i]);
      ItoaAlphabet(n, t[i]);
      assert Omitted(m)[24 + i] == Omitted(n)[24 + i];
    }
    assert s == t;
    ItoaInjective(m, n);
  }

  /** Of an HTML body the length shows and nothing else: two such bodies have the same summary exactly when
      they are equally long. */
  lemma HtmlHidden(body: seq<byte>, body': seq<byte>)
    requires IsHtml(body) && IsHtml(body')
    ensures Snippet(body) == Snippet(body') <==> |body| == |body'|
  {
    if Snippet(body) == Snippet(body') {
      HtmlLengthShows(|body|, |body'|);
    }
  }

  // ----- The start of the line -----

  /** The trimmed body does not start with whitespace. */
  lemma {:induction false} TrimLeftStarts(s: seq<byte>)
    ensures Runes(TrimLeft(s)) == [] || !IsSpace(Runes(TrimLeft(s))[0])
  {
    if s != [] && IsSpace(s[..RuneLen(s)]) {
      TrimLeftStarts(s[RuneLen(s)..]);
    }
  }

  lemma {:induction false} TrimRightPrefix(s: seq<byte>)
    ensures Runes(TrimRight(s)) <= Runes(s)
  {
    if LastSpaceLen(s) > 0 {
      var t, u := LastSpaceRune(s);
      TrimRightPrefix(t);
    }
  }

  /** The trimmed body and the collapsed text start with the same word, and a space or the end follows it. */
  lemma SameFirstWord(body: seq<byte>) returns (w: seq<byte>)
    requires TrimSpace(body) != []
    ensures w <= TrimSpace(body) && w <= Collapsed(body)
    ensures |w| < |Collapsed(body)| ==> Collapsed(body)[|w|] == 0x20
  {
    var us := Runes(TrimSpace(body));
    TrimLeftStarts(body);
    TrimRightPrefix(TrimLeft(body));
    RunesLoseNothing(TrimSpace(body));
    w := Bytes(us[..WordLen(us)]);
    FirstRunes(us, WordLen(us));
    JoinSpaceFirst(Fields(TrimSpace(body)));
    assert Words(us)[0] == us[..WordLen(us)];
  }

  lemma FirstRunes(us: seq<seq<byte>>, n: nat)
    requires n <= |us|
    ensures Bytes(us[..n]) <= Bytes(us)
  {
    assert us == us[..n] + us[n..];
    BytesJoined(us[..n], us[n..]);
  }

  lemma JoinSpaceFirst(fields: seq<seq<byte>>)
    requires fields != []
    ensures fields[0] <= JoinSpace(fields)
    ensures |fields[0]| < |JoinSpace(fields)| ==> JoinSpace(fields)[|fields[0]|] == 0x20
  {
  }

  /** A mark ends before the first byte it does not hold. */
  lemma MarkStops(mark: seq<byte>, line: seq<byte>, at: nat)
    requires mark <= Lower(line) && at < |line|
    requires !(0x41 <= line[at] <= 0x5A) && forall i :: 0 <= i < |mark| ==> mark[i] != line[at]
    ensures |mark| <= at
  {
    assert forall i :: 0 <= i < |mark| ==> mark[i] == Lower(line)[i];
    assert Lower(line)[at] == line[at];
  }

  /** A mark that starts the capped text starts the first word. */
  lemma MarkInWord(s: seq<byte>, w: seq<byte>, mark: seq<byte>)
    requires w <= s && (|w| < |s| ==> s[|w|] == 0x20)
    requires forall i :: 0 <= i < |mark| ==> mark[i] != 0x20 && mark[i] != MARKER[0]
    requires mark <= Lower(Capped(s))
    ensures |mark| <= |w| && forall i :: 0 <= i < |mark| ==> mark[i] == Lower(s)[i]
  {
    var line := Capped(s);
    assert forall i :: 0 <= i < |mark| ==> mark[i] == Lower(line)[i];
    if |s| > MAX_ERROR_BODY_LEN {
      var cut := CutPoint(s, MAX_ERROR_BODY_LEN);
      assert line[cut] == MARKER[0] == '.' as int;
      MarkStops(mark, line, cut);
    }
    if |w| < |s| && |w| < |mark| {
      assert line[|w|] == 0x20;
      MarkStops(mark, line, |w|);
    }
  }

  /** A mark without spaces that starts the summary in either letter case starts the trimmed body, too. */
  lemma MarkStarts(body: seq<byte>, mark: seq<byte>)
    requires TrimSpace(body) != [] && 0 < |mark| <= PROBE_LEN
    requires forall i :: 0 <= i < |mark| ==> mark[i] != 0x20 && mark[i] != MARKER[0]
    requires mark <= Lower(Capped(Collapsed(body)))
    ensures mark <= Lower(Probe(TrimSpace(body)))
  {
    var w := SameFirstWord(body);
    var s, trimmed := Collapsed(body), TrimSpace(body);
    MarkInWord(s, w, mark);
    SamePrefix(trimmed, s, w, mark);
  }

  lemma SamePrefix(trimmed: seq<byte>, s: seq<byte>, w: seq<byte>, mark: seq<byte>)
    requires w <= trimmed && w <= s && |mark| <= |w| && |mark| <= PROBE_LEN
    requires forall i :: 0 <= i < |mark| ==> mark[i] == Lower(s)[i]
    ensures mark <= Lower(Probe(trimmed))
  {
    assert forall i :: 0 <= i < |w| ==> trimmed[i] == w[i] == s[i];
  }

  /** Whatever the body, no summary starts like an HTML document. */
  lemma NeverStartsHtml(body: seq<byte>)
    ensures !(DOCTYPE <= Lower(Snippet(body))) && !(HTML <= Lower(Snippet(body)))
  {
    if IsHtml(body) {
      assert Lower(Snippet(body))[0] == '[' as int;
      assert DOCTYPE[0] == '<' as int && HTML[0] == '<' as int;
    } else if TrimSpace(body) == [] {
      assert Runes(TrimSpace(body)) == [];
      assert Snippet(body) == [];
    } else {
      MarksPlain();
      if DOCTYPE <= Lower(Snippet(body)) {
        MarkStarts(body, DOCTYPE);
        assert false;
      }
      if HTML <= Lower(Snippet(body)) {
        MarkStarts(body, HTML);
        assert false;
      }
    }
  }

  lemma MarksPlain()
    ensures forall i :: 0 <= i < |DOCTYPE| ==> DOCTYPE[i] != 0x20 && DOCTYPE[i] != MARKER[0]
    ensures forall i :: 0 <= i < |HTML| ==> HTML[i] != 0x20 && HTML[i] != MARKER[0]
  {
    assert MARKER[0] == '.' as int;
    var doctype, html := "<!doctype", "<html";
    assert forall i :: 0 <= i < |doctype| ==> doctype[i] != ' ' && doctype[i] != '.';
    assert forall i :: 0 <= i < |html| ==> html[i] != ' ' && html[i] != '.';
  }

  lemma VisibleFirst(us: seq<seq<byte>>)
    requires us != [] && !IsSpace(us[0])
    ensures NonSpace(us) != []
  {
  }

  /** A body with anything left after trimming has something visible. */
  lemma TrimmedVisible(body: seq<byte>)
    requires TrimSpace(body) != []
    ensures NonSpace(Runes(body)) != []
  {
    TrimLeftStarts(body);
    TrimRightPrefix(TrimLeft(body));
    VisibleFirst(Runes(TrimSpace(body)));
    TrimRightKeeps(TrimLeft(body));
    TrimLeftKeeps(body);
  }

  lemma CollapsedEmptyIff(body: seq<byte>)
    ensures Collapsed(body) == [] <==> NonSpace(Runes(body)) == []
  {
    CollapseKeeps(body);
    CollapsedTidy(body);
    if Collapsed(body) != [] {
      VisibleFirst(Runes(Collapsed(body)));
    }
  }

  /** The summary is empty exactly when the body is nothing but whitespace. */
  lemma EmptyIff(body: seq<byte>)
    ensures Snippet(body) == [] <==> NonSpace(Runes(body)) == []
  {
    if IsHtml(body) {
      TrimmedVisible(body);
    } else {
      CollapsedEmptyIff(body);
    }
  }

}
