/** UTF-8 as Go decodes it: a string is read rune by rune, and a byte that starts no well-formed
    sequence counts as a rune of its own. */
module Utf8 {
  type byte = b: int | 0 <= b < 256

  predicate IsTail(b: byte) {
    0x80 <= b <= 0xBF
  }

  /** `utf8.RuneStart`. */
  predicate RuneStart(b: byte) {
    !IsTail(b)
  }

  /** The production UTF8-char of section 4 of RFC 3629. */
  predicate IsUtf8Char(s: seq<byte>) {
    || (|s| == 1 && s[0] <= 0x7F)
    || (|s| == 2 && 0xC2 <= s[0] <= 0xDF && IsTail(s[1]))
    || (|s| == 3 && IsTail(s[2])
        && (|| (s[0] == 0xE0 && 0xA0 <= s[1] <= 0xBF)
            || (0xE1 <= s[0] <= 0xEC && IsTail(s[1]))
            || (s[0] == 0xED && 0x80 <= s[1] <= 0x9F)
            || (0xEE <= s[0] <= 0xEF && IsTail(s[1]))))
    || (|s| == 4 && IsTail(s[2]) && IsTail(s[3])
        && (|| (s[0] == 0xF0 && 0x90 <= s[1] <= 0xBF)
            || (0xF1 <= s[0] <= 0xF3 && IsTail(s[1]))
            || (s[0] == 0xF4 && 0x80 <= s[1] <= 0x8F)))
  }

  /** The code point that a character encodes. */
  function RuneValue(u: seq<byte>): int
    requires IsUtf8Char(u)
  {
    if |u| == 1 then u[0]
    else if |u| == 2 then (u[0] as int - 0xC0) * 0x40 + Tail(u[1])
    else if |u| == 3 then (u[0] as int - 0xE0) * 0x1000 + Tail(u[1]) * 0x40 + Tail(u[2])
    else (u[0] as int - 0xF0) * 0x4_0000 + Tail(u[1]) * 0x1000 + Tail(u[2]) * 0x40 + Tail(u[3])
  }

  function Tail(b: byte): int {
    b as int - 0x80
  }

  /** The Unicode scalar values. */
  predicate IsScalar(v: int) {
    0 <= v <= 0x10FFFF && !(0xD800 <= v <= 0xDFFF)
  }

  /** The encoding that section 3 of RFC 3629 defines: the bits of the value, six to a continuation byte. */
  function Encoded(v: int): (u: seq<byte>)
    requires IsScalar(v)
  {
    if v < 0x80 then [v]
    else if v < 0x800 then [0xC0 + v / 0x40, 0x80 + v % 0x40]
    else if v < 0x1_0000 then [0xE0 + v / 0x1000, 0x80 + v / 0x40 % 0x40, 0x80 + v % 0x40]
    else [0xF0 + v / 0x4_0000, 0x80 + v / 0x1000 % 0x40, 0x80 + v / 0x40 % 0x40, 0x80 + v % 0x40]
  }

  /** Dividing by base 64 digits one after the other. */
  lemma SplitDigits(a: int, b: int)
    requires 0 <= b < 0x40
    ensures (a * 0x40 + b) / 0x40 == a && (a * 0x40 + b) % 0x40 == b
  {
  }

  lemma ThreeEncode(u: seq<byte>)
    requires IsUtf8Char(u) && |u| == 3
    ensures IsScalar(RuneValue(u)) && Encoded(RuneValue(u)) == u
  {
    var high := (u[0] as int - 0xE0) * 0x40 + Tail(u[1]);
    var v := high * 0x40 + Tail(u[2]);
    SplitDigits(high, Tail(u[2]));
    SplitDigits(u[0] as int - 0xE0, Tail(u[1]));
    assert RuneValue(u) == v && 0x800 <= v < 0x1_0000;
    assert v / 0x1000 == v / 0x40 / 0x40;
  }

  lemma FourEncode(u: seq<byte>)
    requires IsUtf8Char(u) && |u| == 4
    ensures IsScalar(RuneValue(u)) && Encoded(RuneValue(u)) == u
  {
    var top := (u[0] as int - 0xF0) * 0x40 + Tail(u[1]);
    var high := top * 0x40 + Tail(u[2]);
    var v := high * 0x40 + Tail(u[3]);
    SplitDigits(high, Tail(u[3]));
    SplitDigits(top, Tail(u[2]));
    SplitDigits(u[0] as int - 0xF0, Tail(u[1]));
    assert RuneValue(u) == v && 0x1_0000 <= v <= 0x10FFFF;
    assert v / 0x1000 == v / 0x40 / 0x40 && v / 0x4_0000 == v / 0x1000 / 0x40;
  }

  lemma CharEncodes(u: seq<byte>)
    requires IsUtf8Char(u)
    ensures IsScalar(RuneValue(u)) && Encoded(RuneValue(u)) == u
  {
    if |u| == 2 {
      SplitDigits(u[0] as int - 0xC0, Tail(u[1]));
    } else if |u| == 3 {
      ThreeEncode(u);
    } else if |u| == 4 {
      FourEncode(u);
    }
  }

  /** The characters of the grammar are the encodings of the scalar values, and of nothing else. */
  lemma CharIff(u: seq<byte>)
    ensures IsUtf8Char(u) <==> exists v :: IsScalar(v) && u == Encoded(v)
  {
    if IsUtf8Char(u) {
      CharEncodes(u);
    }
    if v :| IsScalar(v) && u == Encoded(v) {
      EncodedIsChar(v);
    }
  }

  lemma EncodedIsChar(v: int)
    requires IsScalar(v)
    ensures IsUtf8Char(Encoded(v)) && RuneValue(Encoded(v)) == v
  {
    assert v == v / 0x40 * 0x40 + v % 0x40;
    assert v / 0x40 == v / 0x1000 * 0x40 + v / 0x40 % 0x40;
    assert v / 0x1000 == v / 0x4_0000 * 0x40 + v / 0x1000 % 0x40;
  }

  /** `unicode.IsSpace`. */
  predicate IsSpaceValue(v: int) {
    || 0x09 <= v <= 0x0D || v == 0x20 || v == 0x85 || v == 0xA0 || v == 0x1680
    || 0x2000 <= v <= 0x200A || v == 0x2028 || v == 0x2029 || v == 0x202F || v == 0x205F || v == 0x3000
  }

  predicate IsSpace(u: seq<byte>) {
    IsUtf8Char(u) && IsSpaceValue(RuneValue(u))
  }

  /** The size that `utf8.DecodeRune` reports. */
  function RuneLen(s: seq<byte>): (n: nat)
    requires s != []
    ensures 1 <= n <= |s|
  {
    if |s| >= 2 && IsUtf8Char(s[..2]) then 2
    else if |s| >= 3 && IsUtf8Char(s[..3]) then 3
    else if |s| >= 4 && IsUtf8Char(s[..4]) then 4
    else 1
  }

  /** The string cut into runes, as `range` visits it. */
  function Runes(s: seq<byte>): seq<seq<byte>> {
    if s == [] then [] else [s[..RuneLen(s)]] + Runes(s[RuneLen(s)..])
  }

  /** The runes put back together. */
  function Bytes(us: seq<seq<byte>>): seq<byte> {
    if us == [] then [] else us[0] + Bytes(us[1..])
  }

  /** `utf8.Valid`: no byte stands alone. */
  predicate IsValid(s: seq<byte>) {
    forall i :: 0 <= i < |Runes(s)| ==> IsUtf8Char(Runes(s)[i])
  }

  lemma {:induction false} RunesLoseNothing(s: seq<byte>)
    ensures Bytes(Runes(s)) == s
  {
    if s != [] {
      RunesLoseNothing(s[RuneLen(s)..]);
      assert Runes(s)[1..] == Runes(s[RuneLen(s)..]);
      assert s == s[..RuneLen(s)] + s[RuneLen(s)..];
    }
  }

  lemma {:induction false} BytesJoined(us: seq<seq<byte>>, vs: seq<seq<byte>>)
    ensures Bytes(us + vs) == Bytes(us) + Bytes(vs)
  {
    if us == [] {
      assert us + vs == vs;
    } else {
      var rest := us[1..] + vs;
      assert us + vs == [us[0]] + rest;
      assert ([us[0]] + rest)[1..] == rest;
      BytesJoined(us[1..], vs);
    }
  }

  /** Nothing that follows on a rune boundary changes how a rune is read. */
  lemma RuneLenStable(s: seq<byte>, t: seq<byte>)
    requires s != [] && (t == [] || RuneStart(t[0]))
    ensures RuneLen(s + t) == RuneLen(s)
  {
    if t == [] {
      assert s + t == s;
    } else {
      var st := s + t;
      assert forall k :: 2 <= k <= 4 && k <= |s| ==> st[..k] == s[..k];
      assert forall k :: 2 <= k <= 4 && |s| < k <= |st| ==> st[..k][|s|] == t[0];
    }
  }

  /** A string splits into runes at every rune start. */
  lemma {:induction false} RunesJoined(s: seq<byte>, t: seq<byte>)
    requires t == [] || RuneStart(t[0])
    ensures Runes(s + t) == Runes(s) + Runes(t)
    decreases |s|
  {
    if s == [] {
      assert s + t == t;
    } else {
      RuneLenStable(s, t);
      SplitFirst(s + t, s[..RuneLen(s)], s[RuneLen(s)..] + t);
      RunesJoined(s[RuneLen(s)..], t);
    }
  }

  lemma SplitFirst(s: seq<byte>, first: seq<byte>, rest: seq<byte>)
    requires s == first + rest && s != [] && |first| == RuneLen(s)
    ensures Runes(s) == [first] + Runes(rest)
  {
    assert s[..|first|] == first && s[|first|..] == rest;
  }

  /** A character is read as itself, whatever follows. */
  lemma CharFirst(u: seq<byte>, t: seq<byte>)
    requires IsUtf8Char(u)
    ensures Runes(u + t) == [u] + Runes(t)
  {
    var s := u + t;
    assert s[..|u|] == u && s[|u|..] == t;
    assert |u| > 2 ==> !IsUtf8Char(s[..2]);
    assert |u| > 3 ==> !IsUtf8Char(s[..3]);
    assert |u| == 1 ==> RuneLen(s) == 1;
  }

  lemma {:induction false} CharsReadBack(cs: seq<seq<byte>>)
    requires forall i :: 0 <= i < |cs| ==> IsUtf8Char(cs[i])
    ensures Runes(Bytes(cs)) == cs
  {
    if cs != [] {
      CharsReadBack(cs[1..]);
      CharFirst(cs[0], Bytes(cs[1..]));
    }
  }

  /** A string is valid exactly when it is a sequence of the characters of RFC 3629. */
  lemma ValidIff(s: seq<byte>)
    ensures IsValid(s) <==> exists cs :: (forall i :: 0 <= i < |cs| ==> IsUtf8Char(cs[i])) && Bytes(cs) == s
  {
    RunesLoseNothing(s);
    if cs :| (forall i :: 0 <= i < |cs| ==> IsUtf8Char(cs[i])) && Bytes(cs) == s {
      CharsReadBack(cs);
    }
  }

  /** In a valid string the prefixes that are valid are those that end at a rune start or at the end. */
  lemma {:induction false} ValidPrefixIff(s: seq<byte>, c: nat)
    requires IsValid(s) && c <= |s|
    ensures IsValid(s[..c]) <==> c == |s| || RuneStart(s[c])
    decreases c
  {
    assert s == s[..c] + s[c..];
    if c == |s| {
      assert s[..c] == s;
    } else if RuneStart(s[c]) {
      RunesJoined(s[..c], s[c..]);
      assert forall i :: 0 <= i < |Runes(s[..c])| ==> Runes(s)[i] == Runes(s[..c])[i];
    } else {
      InsideRune(s, c);
    }
  }

  lemma {:induction false} InsideRune(s: seq<byte>, c: nat)
    requires IsValid(s) && c < |s| && IsTail(s[c])
    ensures !IsValid(s[..c])
    decreases c
  {
    var n := RuneLen(s);
    ValidRest(s);
    if n <= c {
      InsideRune(s[n..], c - n);
      assert s[n..][..c - n] == s[n..c];
      assert s[..c] == s[..n] + s[n..c];
      CharThen(s[..n], s[n..c]);
    } else {
      CutRuneInvalid(s[..n], c);
      assert s[..n][..c] == s[..c];
    }
  }

  /** A valid string starts with a character, and the rest is valid. */
  lemma ValidRest(s: seq<byte>)
    requires IsValid(s) && s != []
    ensures IsUtf8Char(s[..RuneLen(s)]) && IsValid(s[RuneLen(s)..])
  {
    var rest := Runes(s[RuneLen(s)..]);
    assert Runes(s) == [s[..RuneLen(s)]] + rest;
    assert forall i :: 0 <= i < |rest| ==> rest[i] == Runes(s)[i + 1];
    assert Runes(s)[0] == s[..RuneLen(s)];
  }

  lemma CharThen(u: seq<byte>, t: seq<byte>)
    requires IsUtf8Char(u)
    ensures IsValid(u + t) <==> IsValid(t)
  {
    CharFirst(u, t);
    assert forall i :: 0 <= i < |Runes(t)| ==> Runes(u + t)[i + 1] == Runes(t)[i];
    assert forall i :: 0 <= i < |Runes(u + t)| ==> Runes(u + t)[i] == if i == 0 then u else Runes(t)[i - 1];
  }

  /** A character that is cut short is not valid. */
  lemma CutRuneInvalid(u: seq<byte>, c: nat)
    requires IsUtf8Char(u) && 0 < c < |u|
    ensures !IsValid(u[..c])
  {
    var s := u[..c];
    assert s[0] == u[0] && !IsUtf8Char(s[..1]);
    assert RuneLen(s) == 1;
    assert Runes(s)[0] == s[..1];
  }
}
