/** The log-safe, one-line summary of a response body. */
module HttpError {
  import opened Decimal
  import opened Strings
  import opened Utf8

  const MAX_ERROR_BODY_LEN := 256
  const PROBE_LEN := 512

  const SP: seq<byte> := [0x20]

  /** The bytes of an ASCII string. */
  function Ascii(s: string): (b: seq<byte>)
    ensures |b| == |s|
  {
    seq(|s|, i requires 0 <= i < |s| => if s[i] < 128 as char then s[i] as int else 0x3F)
  }

  const MARKER: seq<byte> := Ascii("...(truncated)")
  const DOCTYPE: seq<byte> := Ascii("<!doctype")
  const HTML: seq<byte> := Ascii("<html")
  const HTML_OPEN_TAGS: seq<seq<byte>> := [Ascii("<head>"), Ascii("<head "), Ascii("<body>"), Ascii("<body ")]

  // ----- Library calls -----

  function TrimLeft(s: seq<byte>): seq<byte> {
    if s != [] && IsSpace(s[..RuneLen(s)]) then TrimLeft(s[RuneLen(s)..]) else s
  }

  /** The size of the whitespace character that ends the string, 0 if there is none. */
  function LastSpaceLen(s: seq<byte>): (n: nat)
    ensures n <= |s| && (n > 0 ==> IsSpace(s[|s| - n..]))
  {
    if |s| >= 1 && IsSpace(s[|s| - 1..]) then 1
    else if |s| >= 2 && IsSpace(s[|s| - 2..]) then 2
    else if |s| >= 3 && IsSpace(s[|s| - 3..]) then 3
    else 0
  }

  function TrimRight(s: seq<byte>): seq<byte> {
    if LastSpaceLen(s) > 0 then TrimRight(s[..|s| - LastSpaceLen(s)]) else s
  }

  /** `strings.TrimSpace`. */
  function TrimSpace(s: seq<byte>): seq<byte> {
    TrimRight(TrimLeft(s))
  }

  /** `strings.ToLower` as far as the HTML marks can tell: no other rune becomes one of their letters. */
  function Lower(s: seq<byte>): seq<byte> {
    seq(|s|, i requires 0 <= i < |s| => if 0x41 <= s[i] <= 0x5A then s[i] + 0x20 else s[i])
  }

  /** The number of runes before the first space. */
  function WordLen(us: seq<seq<byte>>): (n: nat)
    ensures n <= |us| && forall i :: 0 <= i < n ==> !IsSpace(us[i])
    ensures n < |us| ==> IsSpace(us[n])
  {
    if us == [] || IsSpace(us[0]) then 0 else 1 + WordLen(us[1..])
  }

  /** The maximal runs of runes that are not spaces. */
  function Words(us: seq<seq<byte>>): (ws: seq<seq<seq<byte>>>)
    ensures forall w :: w in ws ==> w != []
  {
    if us == [] then []
    else if IsSpace(us[0]) then Words(us[1..])
    else [us[..WordLen(us)]] + Words(us[WordLen(us)..])
  }

  /** `strings.Fields`. */
  function Fields(s: seq<byte>): seq<seq<byte>> {
    var ws := Words(Runes(s));
    seq(|ws|, i requires 0 <= i < |ws| => Bytes(ws[i]))
  }

  /** `strings.Join` with a single space. */
  function JoinSpace(fields: seq<seq<byte>>): seq<byte> {
    if fields == [] then []
    else if |fields| == 1 then fields[0]
    else fields[0] + SP + JoinSpace(fields[1..])
  }

  // ----- The snippet -----

  function Probe(trimmed: seq<byte>): seq<byte> {
    if |trimmed| > PROBE_LEN then trimmed[..PROBE_LEN] else trimmed
  }

  predicate LooksHtml(lower: seq<byte>) {
    DOCTYPE <= lower || HTML <= lower || exists i :: 0 <= i < |HTML_OPEN_TAGS| && Contains(lower, HTML_OPEN_TAGS[i])
  }

  predicate IsHtml(body: seq<byte>) {
    TrimSpace(body) != [] && LooksHtml(Lower(Probe(TrimSpace(body))))
  }

  function Omitted(size: nat): seq<byte> {
    Ascii("[html response omitted, " + Itoa(size) + " bytes]")
  }

  function Collapsed(body: seq<byte>): seq<byte> {
    JoinSpace(Fields(TrimSpace(body)))
  }

  /** The last position up to this one at which a rune starts, 0 if there is none. */
  function CutPoint(s: seq<byte>, from: nat): (cut: nat)
    requires from < |s|
    ensures cut <= from && (cut == 0 || RuneStart(s[cut]))
    ensures forall c :: cut < c <= from ==> IsTail(s[c])
  {
    if from == 0 || RuneStart(s[from]) then from else CutPoint(s, from - 1)
  }

  function Capped(s: seq<byte>): seq<byte> {
    if |s| > MAX_ERROR_BODY_LEN then s[..CutPoint(s, MAX_ERROR_BODY_LEN)] + MARKER else s
  }

  function Snippet(body: seq<byte>): seq<byte> {
    if IsHtml(body) then Omitted(|body|) else Capped(Collapsed(body))
  }

  method ContainsAny(s: seq<byte>, subs: seq<seq<byte>>) returns (found: bool)
    ensures found <==> exists i :: 0 <= i < |subs| && Occurs(s, subs[i])
  {
    for n := 0 to |subs|
      invariant forall i :: 0 <= i < n ==> !Occurs(s, subs[i])
    {
      if Contains(s, subs[n]) {
        return true;
      }
    }
    found := false;
  }

  method ErrorBodySnippet(body: seq<byte>) returns (snippet: seq<byte>)
    ensures snippet == Snippet(body)
  {
    var trimmed := TrimSpace(body);
    if trimmed == [] {
      assert Runes(trimmed) == [] && Fields(trimmed) == [];
      return [];
    }
    var probe := trimmed;
    if |probe| > 512 {
      probe := probe[..512];
    }
    var lower := Lower(probe);
    var tagged := ContainsAny(lower, HTML_OPEN_TAGS);
    if DOCTYPE <= lower || HTML <= lower || tagged {
      return Omitted(|body|);
    }
    snippet := JoinSpace(Fields(trimmed));
    if |snippet| > MAX_ERROR_BODY_LEN {
      var cut := MAX_ERROR_BODY_LEN;
      while cut > 0 && !RuneStart(snippet[cut])
        invariant 0 <= cut <= MAX_ERROR_BODY_LEN
        invariant CutPoint(snippet, cut) == CutPoint(snippet, MAX_ERROR_BODY_LEN)
      {
        cut := cut - 1;
      }
      snippet := snippet[..cut] + MARKER;
    }
  }
}
