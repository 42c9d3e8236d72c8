/** The summary of a body spelled out: its texts, marks and limits, and the bytes that stand in the line. */
module Summaries {
  import opened Decimal
  import opened Strings
  import opened Utf8
  import opened HttpError
  import opened LogSafety
  import opened Layouts

  // ----- HTML -----

  /** The text stands at this position, its letters in either case. */
  predicate Reads(s: seq<byte>, i: nat, text: string) {
    i + |text| <= |s| && forall k :: 0 <= k < |text| ==> IsLetterOf(s[i + k], text[k])
  }

  predicate IsLetterOf(b: byte, c: char) {
    b as int == c as int || ('a' <= c <= 'z' && b as int == c as int - 32)
  }

  /** The text starts as an HTML document does, or opens its head or body within the first 512 bytes. */
  ghost predicate LooksLikeHtml(s: seq<byte>) {
    || Reads(s, 0, "<!doctype") || Reads(s, 0, "<html")
    || exists i: nat :: i + 6 <= 512 && OpensTag(s, i)
  }

  predicate OpensTag(s: seq<byte>, i: nat) {
    Reads(s, i, "<head>") || Reads(s, i, "<head ") || Reads(s, i, "<body>") || Reads(s, i, "<body ")
  }

  /** ASCII text without upper-case letters. */
  predicate IsLow(text: string) {
    forall k :: 0 <= k < |text| ==> text[k] < 128 as char && !('A' <= text[k] <= 'Z')
  }

  lemma LowerReads(s: seq<byte>, i: nat, text: string)
    requires IsLow(text)
    ensures At(Lower(s), Ascii(text), i) <==> Reads(s, i, text)
  {
    var l, a := Lower(s), Ascii(text);
    if i + |text| <= |s| {
      forall k | 0 <= k < |text|
        ensures l[i + k] == a[k] <==> IsLetterOf(s[i + k], text[k])
      {
      }
      var here := l[i..i + |a|];
      assert forall k :: 0 <= k < |text| ==> here[k] == l[i + k];
    }
  }

  lemma LowerStarts(s: seq<byte>, text: string)
    requires IsLow(text)
    ensures Ascii(text) <= Lower(s) <==> Reads(s, 0, text)
  {
    LowerReads(s, 0, text);
    assert At(Lower(s), Ascii(text), 0) <==> Ascii(text) <= Lower(s);
  }

  lemma TagReads(s: seq<byte>, i: nat)
    ensures (exists t :: 0 <= t < |HTML_OPEN_TAGS| && At(Lower(s), HTML_OPEN_TAGS[t], i)) <==> OpensTag(s, i)
  {
    LowerReads(s, i, "<head>");
    LowerReads(s, i, "<head ");
    LowerReads(s, i, "<body>");
    LowerReads(s, i, "<body ");
    assert HTML_OPEN_TAGS[0] == Ascii("<head>") && HTML_OPEN_TAGS[1] == Ascii("<head ");
    assert HTML_OPEN_TAGS[2] == Ascii("<body>") && HTML_OPEN_TAGS[3] == Ascii("<body ");
  }

  lemma MarkedIff(s: seq<byte>)
    ensures Marked(Lower(s)) <==> LooksLikeHtml(s)
  {
    LowerStarts(s, "<!doctype");
    LowerStarts(s, "<html");
    assert forall t :: 0 <= t < |HTML_OPEN_TAGS| ==> |HTML_OPEN_TAGS[t]| == 6;
    if i: nat :| i + 6 <= 512 && OpensTag(s, i) {
      TagReads(s, i);
    }
    if t, i: nat :|
      0 <= t < |HTML_OPEN_TAGS| && At(Lower(s), HTML_OPEN_TAGS[t], i) && i + |HTML_OPEN_TAGS[t]| <= PROBE_LEN
    {
      TagReads(s, i);
      assert i + 6 <= 512 && OpensTag(s, i);
    }
  }

  /** A body is taken for HTML exactly when what trimming leaves of it looks like it. */
  lemma HtmlIff(body: seq<byte>)
    ensures IsHtml(body) <==> LooksLikeHtml(TrimSpace(body))
  {
    IsHtmlIff(body);
    MarkedIff(TrimSpace(body));
  }

  // ----- The bytes of the line -----

  lemma NoBreak(s: seq<byte>, u: seq<byte>)
    requires Tidy(Runes(s)) && IsSpaceChar(u) && u != [0x20]
    ensures !Occurs(s, u)
  {
    SpaceCharIff(u);
    forall i: nat
      ensures !At(s, u, i)
    {
      if At(s, u, i) {
        var k := CharIsRune(s, u, i);
      }
    }
  }

  lemma NoDoubleSpace(s: seq<byte>)
    requires Tidy(Runes(s))
    ensures !Occurs(s, [0x20, 0x20])
  {
    forall i: nat
      ensures !At(s, [0x20, 0x20], i)
    {
      if At(s, [0x20, 0x20], i) {
        TwoSpaces(s, i);
        assert false;
      }
    }
  }

  lemma TwoSpaces(s: seq<byte>, i: nat)
    requires At(s, [0x20, 0x20], i)
    ensures !Tidy(Runes(s))
  {
    var before, after := s[..i], s[i + 2..];
    SpaceIsSpace();
    assert s[i] == 0x20 && s[i + 1] == 0x20;
    assert s == before + (SP + (SP + after));
    RunesJoined(before, SP + (SP + after));
    CharFirst(SP, SP + after);
    CharFirst(SP, after);
    var n := |Runes(before)|;
    assert Runes(s)[n] == SP && Runes(s)[n + 1] == SP;
  }

  lemma NoOuterSpace(s: seq<byte>)
    requires Tidy(Runes(s)) && s != []
    ensures s[0] != 0x20 && s[|s| - 1] != 0x20
  {
    SpaceIsSpace();
    if s[0] == 0x20 {
      SpaceAtStart(s);
    }
    if s[|s| - 1] == 0x20 {
      SpaceAtEnd(s);
    }
  }

  lemma SpaceAtStart(s: seq<byte>)
    requires s != [] && s[0] == 0x20
    ensures Runes(s) != [] && Runes(s)[0] == SP
  {
    SpaceIsSpace();
    assert s == SP + s[1..];
    CharFirst(SP, s[1..]);
  }

  lemma SpaceAtEnd(s: seq<byte>)
    requires s != [] && s[|s| - 1] == 0x20
    ensures Runes(s) != [] && Runes(s)[|Runes(s)| - 1] == SP
  {
    var t := s[..|s| - 1];
    SpaceIsSpace();
    assert s == t + SP && SP + [] == SP;
    RunesJoined(t, SP);
    CharFirst(SP, []);
  }

  lemma ByteOccurs(s: seq<byte>, i: nat)
    requires i < |s|
    ensures Occurs(s, [s[i]])
  {
    assert At(s, [s[i]], i);
  }

  lemma NoControl(s: seq<byte>, b: byte)
    requires Tidy(Runes(s)) && 0x09 <= b <= 0x0D
    ensures !Occurs(s, [b])
  {
    NoBreak(s, [b]);
  }

  /** No control byte that breaks or indents a line, no encoded space but 0x20, no two of these in a row, and none
      at either end. */
  ghost predicate IsOneLine(s: seq<byte>) {
    && (forall i :: 0 <= i < |s| ==> !(0x09 <= s[i] <= 0x0D))
    && (forall u :: IsSpaceChar(u) && u != [0x20] ==> !Occurs(s, u))
    && !Occurs(s, [0x20, 0x20])
    && (s != [] ==> s[0] != 0x20 && s[|s| - 1] != 0x20)
  }

  lemma TidyIsOneLine(s: seq<byte>)
    requires Tidy(Runes(s))
    ensures IsOneLine(s)
  {
    forall u | IsSpaceChar(u) && u != [0x20]
      ensures !Occurs(s, u)
    {
      NoBreak(s, u);
    }
    forall i | 0 <= i < |s|
      ensures !(0x09 <= s[i] <= 0x0D)
    {
      ByteOccurs(s, i);
      if 0x09 <= s[i] <= 0x0D {
        NoControl(s, s[i]);
      }
    }
    NoDoubleSpace(s);
    if s != [] {
      NoOuterSpace(s);
    }
  }

  /** For every body that is not HTML, valid or not, the summary is one line of bytes. */
  lemma SummaryIsOneLine(body: seq<byte>)
    requires !LooksLikeHtml(TrimSpace(body))
    ensures IsOneLine(Snippet(body))
  {
    HtmlIff(body);
    SnippetTidy(body);
    TidyIsOneLine(Snippet(body));
  }

  // ----- The whole summary -----

  /** The bytes are those of the text. */
  predicate IsAscii(s: seq<byte>, text: string) {
    |s| == |text| && forall k :: 0 <= k < |text| ==> s[k] as int == text[k] as int
  }

  /** The line is cut at the last position within 256 bytes that is no continuation byte, and marked. */
  ghost predicate IsTruncated(summary: seq<byte>, line: seq<byte>, cut: nat) {
    && cut <= 256 < |line| && cut <= |summary|
    && (cut == 0 || !(0x80 <= line[cut] <= 0xBF))
    && (forall c :: cut < c <= 256 ==> 0x80 <= line[c] <= 0xBF)
    && summary[..cut] == line[..cut] && IsAscii(summary[cut..], "...(truncated)")
  }

  lemma OmittedReads(size: nat)
    ensures IsAscii(Omitted(size), "[html response omitted, " + Itoa(size) + " bytes]")
  {
    var text := "[html response omitted, " + Itoa(size) + " bytes]";
    forall k | 0 <= k < |text|
      ensures text[k] < 128 as char
    {
      if 24 <= k < 24 + |Itoa(size)| {
        ItoaAlphabet(size, Itoa(size)[k - 24]);
        assert text[k] == Itoa(size)[k - 24];
      } else {
        TextPlain();
        assert text[k] == if k < 24 then "[html response omitted, "[k] else " bytes]"[k - 24 - |Itoa(size)|];
      }
    }
  }

  lemma TextPlain()
    ensures forall k :: 0 <= k < 24 ==> "[html response omitted, "[k] < 128 as char
    ensures forall k :: 0 <= k < 7 ==> " bytes]"[k] < 128 as char
    ensures |"[html response omitted, "| == 24 && |" bytes]"| == 7
  {
  }

  lemma CappedReads(line: seq<byte>)
    requires |line| > 256
    ensures exists cut: nat :: IsTruncated(Capped(line), line, cut)
  {
    var cut := CutPoint(line, 256);
    var summary := Capped(line);
    assert summary[cut..] == MARKER && summary[..cut] == line[..cut];
    assert IsAscii(MARKER, "...(truncated)");
    assert IsTruncated(summary, line, cut);
  }

  /** The summary of every body, from its words and the whitespace around them: the length alone if it looks like
      HTML from its first word to its last, else its words on one line, cut and marked over 256 bytes. */
  lemma SummaryIs(l: Layout)
    requires IsLayout(l)
    ensures var summary, line := Snippet(Text(l)), OneLine(l.words);
            if LooksLikeHtml(Between(l.words, l.gaps)) then
              IsAscii(summary, "[html response omitted, " + Itoa(|Text(l)|) + " bytes]")
            else if |line| <= 256 then summary == line
            else exists cut: nat :: IsTruncated(summary, line, cut)
  {
    var body, line := Text(l), OneLine(l.words);
    LayoutCollapses(l);
    HtmlIff(body);
    OmittedReads(|body|);
    if |line| > 256 {
      CappedReads(line);
    }
    assert !IsHtml(body) ==> Snippet(body) == Capped(line);
  }
}
