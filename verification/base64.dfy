/** The Base64 encoding of section 4 of RFC 4648: every three bytes become
    four characters of a 64-character alphabet, and a final group of one or
    two bytes is completed with `=` padding. */
module Base64 {

  import opened Wrappers

  type byte = x: int | 0 <= x < 256

  /** The value of one encoding character. */
  type sextet = x: int | 0 <= x < 64

  const Pad: char := '='

  /** The value a character of the alphabet (Table 1 of RFC 4648:
      `A`-`Z`, `a`-`z`, `0`-`9`, `+`, `/`) stands for, or nothing for a
      character outside it, the pad included. */
  function ValueOf(c: char): Option<sextet>
  {
    if 'A' <= c <= 'Z' then Some(c as int - 'A' as int)
    else if 'a' <= c <= 'z' then Some(c as int - 'a' as int + 26)
    else if '0' <= c <= '9' then Some(c as int - '0' as int + 52)
    else if c == '+' then Some(62)
    else if c == '/' then Some(63)
    else None
  }

  /** The 64 characters of the alphabet; the pad is not one of them. */
  predicate InAlphabet(c: char)
  {
    'A' <= c <= 'Z' || 'a' <= c <= 'z' || '0' <= c <= '9' || c == '+' || c == '/'
  }

  /** The character encoding a value; reading it back gives the value. */
  function CharOf(v: sextet): (c: char)
    ensures ValueOf(c) == Some(v)
    ensures InAlphabet(c)
  {
    if v < 26 then ('A' as int + v) as char
    else if v < 52 then ('a' as int + v - 26) as char
    else if v < 62 then ('0' as int + v - 52) as char
    else if v == 62 then '+'
    else '/'
  }

  /** Three bytes, 24 bits, as four 6-bit characters, most significant bits
      first. */
  function EncodeGroup(a: byte, b: byte, c: byte): (g: string)
    ensures |g| == 4 && forall i :: 0 <= i < 4 ==> InAlphabet(g[i])
  {
    [CharOf(a / 4), CharOf((a % 4) * 16 + b / 16), CharOf((b % 16) * 4 + c / 64), CharOf(c % 64)]
  }

  /** A final group of one byte: two characters and two pads. */
  function EncodeOne(a: byte): (g: string)
    ensures |g| == 4 && InAlphabet(g[0]) && InAlphabet(g[1]) && g[2] == Pad && g[3] == Pad
  {
    [CharOf(a / 4), CharOf((a % 4) * 16), Pad, Pad]
  }

  /** A final group of two bytes: three characters and one pad. */
  function EncodeTwo(a: byte, b: byte): (g: string)
    ensures |g| == 4 && InAlphabet(g[0]) && InAlphabet(g[1]) && InAlphabet(g[2]) && g[3] == Pad
  {
    [CharOf(a / 4), CharOf((a % 4) * 16 + b / 16), CharOf((b % 16) * 4), Pad]
  }

  /** `base64.b64encode`: four characters for every started group of
      three bytes, padded only in the last group. */
  function Encode(s: seq<byte>): (r: string)
    ensures |r| == 4 * ((|s| + 2) / 3)
    ensures forall i :: 0 <= i < |r| ==> InAlphabet(r[i]) || r[i] == Pad
    ensures forall i :: 0 <= i < |r| - 4 ==> InAlphabet(r[i])
    decreases |s|
  {
    if |s| == 0 then ""
    else if |s| == 1 then EncodeOne(s[0])
    else if |s| == 2 then EncodeTwo(s[0], s[1])
    else
      var g := EncodeGroup(s[0], s[1], s[2]);
      var rest := Encode(s[3..]);
      GroupThenText(g, rest);
      GroupCount(|s| - 3);
      g + rest
  }

  /** The bits a pad leaves unused are zero (section 3.5 of RFC 4648):
      after a final single byte (`tail == 1`) the character before the two
      pads carries four zero bits, after a final pair of bytes (`tail == 2`)
      the character before the pad carries two. */
  predicate ZeroPadBits(r: string, tail: int)
  {
    && (tail == 1 ==> |r| >= 3 && ValueOf(r[|r| - 3]).Some? && ValueOf(r[|r| - 3]).value % 16 == 0)
    && (tail == 2 ==> |r| >= 2 && ValueOf(r[|r| - 2]).Some? && ValueOf(r[|r| - 2]).value % 4 == 0)
  }

  /** The encoder leaves the unused bits of a padded final group zero, so
      its text is the canonical one. */
  lemma {:induction false} EncodePadBits(s: seq<byte>)
    ensures ZeroPadBits(Encode(s), |s| % 3)
    decreases |s|
  {
    if |s| == 0 {
    } else if |s| == 1 {
      EncodeShort(s);
      OnePadBits(s[0]);
    } else if |s| == 2 {
      EncodeShort(s);
      TwoPadBits(s[0], s[1]);
    } else {
      EncodeSplit(s);
      EncodePadBits(s[3..]);
      TailAfterGroup(|s| - 3);
      PadBitsThroughGroup(EncodeGroup(s[0], s[1], s[2]), Encode(s[3..]), |s| % 3);
    }
  }

  lemma TailAfterGroup(m: nat)
    ensures (m + 3) % 3 == m % 3
  {
  }

  lemma OnePadBits(a: byte)
    ensures ZeroPadBits(EncodeOne(a), 1)
  {
    assert ValueOf(EncodeOne(a)[1]) == Some((a % 4) * 16);
  }

  lemma TwoPadBits(a: byte, b: byte)
    ensures ZeroPadBits(EncodeTwo(a, b), 2)
  {
    assert ValueOf(EncodeTwo(a, b)[2]) == Some((b % 16) * 4);
  }

  lemma PadBitsThroughGroup(g: string, rest: string, tail: int)
    requires |g| == 4 && ZeroPadBits(rest, tail)
    ensures ZeroPadBits(g + rest, tail)
  {
    if tail == 1 {
      assert (g + rest)[|g + rest| - 3] == rest[|rest| - 3];
    } else if tail == 2 {
      assert (g + rest)[|g + rest| - 2] == rest[|rest| - 2];
    }
  }

  /** The encoding test vectors of section 10 of RFC 4648 for the empty
      input, `f`, `fo` and `foo`: one and two bytes are padded, three are
      not. */
  lemma Rfc4648Vectors()
    ensures Encode([]) == ""
    ensures Encode([102]) == "Zg=="
    ensures Encode([102, 111]) == "Zm8="
    ensures Encode([102, 111, 111]) == "Zm9v"
  {
  }

  lemma GroupCount(m: nat)
    ensures (m + 3 + 2) / 3 == (m + 2) / 3 + 1
  {
  }

  /** A group of four alphabet characters in front of an encoding keeps
      pads out of all but the last group. */
  lemma GroupThenText(g: string, rest: string)
    requires |g| == 4 && forall i :: 0 <= i < 4 ==> InAlphabet(g[i])
    requires forall i :: 0 <= i < |rest| ==> InAlphabet(rest[i]) || rest[i] == Pad
    requires forall i :: 0 <= i < |rest| - 4 ==> InAlphabet(rest[i])
    ensures forall i :: 0 <= i < |g + rest| ==> InAlphabet((g + rest)[i]) || (g + rest)[i] == Pad
    ensures forall i :: 0 <= i < |g + rest| - 4 ==> InAlphabet((g + rest)[i])
  {
  }

  /** Four values back to the three bytes they carry. */
  function DecodeValues(v0: sextet, v1: sextet, v2: sextet, v3: sextet): (r: seq<byte>)
    ensures |r| == 3
  {
    [v0 * 4 + v1 / 16, (v1 % 16) * 16 + v2 / 4, (v2 % 4) * 64 + v3]
  }

  /** One group of four characters. Pads are accepted only in the last
      group; the low bits a pad leaves unused are ignored. */
  function DecodeGroup(g: string, last: bool): (r: Option<seq<byte>>)
    requires |g| == 4
    ensures r.Some? ==> 1 <= |r.value| <= 3
    ensures r.Some? && |r.value| < 3 ==> last
  {
    var v0, v1, v2, v3 := ValueOf(g[0]), ValueOf(g[1]), ValueOf(g[2]), ValueOf(g[3]);
    if v0.None? || v1.None? then None
    else if v2.Some? && v3.Some? then Some(DecodeValues(v0.value, v1.value, v2.value, v3.value))
    else if last && v2.Some? && g[3] == Pad then Some(DecodeValues(v0.value, v1.value, v2.value, 0)[..2])
    else if last && g[2] == Pad && g[3] == Pad then Some(DecodeValues(v0.value, v1.value, 0, 0)[..1])
    else None
  }

  /** `base64.b64decode`, strictly: the text is a sequence of complete
      groups, only alphabet characters and final padding are accepted, and
      anything else is a decoding error. A decoded text is whole groups of
      four characters, each giving three bytes except a padded last one,
      which gives one or two. */
  function Decode(t: string): (r: Option<seq<byte>>)
    ensures r.Some? ==> |t| % 4 == 0
    ensures r.Some? ==> 3 * (|t| / 4) - 2 <= |r.value| <= 3 * (|t| / 4)
    decreases |t|
  {
    if |t| == 0 then Some([])
    else if |t| < 4 then None
    else
      QuarterStep(|t| - 4);
      match DecodeGroup(t[..4], |t| == 4)
      case None => None
      case Some(head) =>
        if |t| == 4 then Some(head)
        else
          match Decode(t[4..])
          case None => None
          case Some(tail) => Some(head + tail)
  }

  lemma QuarterStep(m: nat)
    ensures (m + 4) % 4 == m % 4 && (m + 4) / 4 == m / 4 + 1
  {
  }

  lemma SplitHigh(a: int, b: int)
    requires 0 <= a < 4 && 0 <= b < 16
    ensures (a * 16 + b) / 16 == a && (a * 16 + b) % 16 == b
  {
  }

  lemma SplitLow(a: int, b: int)
    requires 0 <= a < 16 && 0 <= b < 4
    ensures (a * 4 + b) / 4 == a && (a * 4 + b) % 4 == b
  {
  }

  /** The bit arithmetic of a full group: the values `EncodeGroup` picks
      reassemble into the three bytes. */
  lemma GroupArith(a: byte, b: byte, c: byte)
    ensures DecodeValues(a / 4, (a % 4) * 16 + b / 16, (b % 16) * 4 + c / 64, c % 64) == [a, b, c]
  {
    SplitHigh(a % 4, b / 16);
    SplitLow(b % 16, c / 64);
  }

  lemma OneArith(a: byte)
    ensures DecodeValues(a / 4, (a % 4) * 16, 0, 0)[..1] == [a]
  {
    SplitHigh(a % 4, 0);
  }

  lemma TwoArith(a: byte, b: byte)
    ensures DecodeValues(a / 4, (a % 4) * 16 + b / 16, (b % 16) * 4, 0)[..2] == [a, b]
  {
    SplitHigh(a % 4, b / 16);
    SplitLow(b % 16, 0);
  }

  lemma GroupRoundTrip(a: byte, b: byte, c: byte, last: bool)
    ensures DecodeGroup(EncodeGroup(a, b, c), last) == Some([a, b, c])
  {
    var g := EncodeGroup(a, b, c);
    var v0, v1, v2, v3 := a / 4, (a % 4) * 16 + b / 16, (b % 16) * 4 + c / 64, c % 64;
    assert ValueOf(g[0]) == Some(v0) && ValueOf(g[1]) == Some(v1)
        && ValueOf(g[2]) == Some(v2) && ValueOf(g[3]) == Some(v3);
    GroupArith(a, b, c);
  }

  lemma OneGroup(a: byte)
    ensures DecodeGroup(EncodeOne(a), true) == Some([a])
  {
    var g := EncodeOne(a);
    var v0, v1 := a / 4, (a % 4) * 16;
    assert ValueOf(g[0]) == Some(v0) && ValueOf(g[1]) == Some(v1);
    assert g[2] == Pad && g[3] == Pad && ValueOf(Pad) == None;
    OneArith(a);
  }

  lemma TwoGroup(a: byte, b: byte)
    ensures DecodeGroup(EncodeTwo(a, b), true) == Some([a, b])
  {
    var g := EncodeTwo(a, b);
    var v0, v1, v2 := a / 4, (a % 4) * 16 + b / 16, (b % 16) * 4;
    assert ValueOf(g[0]) == Some(v0) && ValueOf(g[1]) == Some(v1) && ValueOf(g[2]) == Some(v2);
    assert g[3] == Pad && ValueOf(Pad) == None;
    TwoArith(a, b);
  }

  lemma OneRoundTrip(a: byte)
    ensures Decode(EncodeOne(a)) == Some([a])
  {
    var g := EncodeOne(a);
    OneGroup(a);
    assert g[..4] == g;
  }

  lemma TwoRoundTrip(a: byte, b: byte)
    ensures Decode(EncodeTwo(a, b)) == Some([a, b])
  {
    var g := EncodeTwo(a, b);
    TwoGroup(a, b);
    assert g[..4] == g;
  }

  lemma ShortRoundTrip(s: seq<byte>)
    requires 1 <= |s| <= 2
    ensures Decode(Encode(s)) == Some(s)
  {
    EncodeShort(s);
    ShortElements(s);
    if |s| == 1 {
      OneRoundTrip(s[0]);
    } else {
      TwoRoundTrip(s[0], s[1]);
    }
  }

  lemma ShortElements(s: seq<byte>)
    requires 1 <= |s| <= 2
    ensures |s| == 1 ==> s == [s[0]]
    ensures |s| == 2 ==> s == [s[0], s[1]]
  {
  }

  lemma EncodeShort(s: seq<byte>)
    requires 1 <= |s| <= 2
    ensures |s| == 1 ==> Encode(s) == EncodeOne(s[0])
    ensures |s| == 2 ==> Encode(s) == EncodeTwo(s[0], s[1])
  {
  }

  /** Decoding an encoding gives back the bytes, for every byte sequence. */
  lemma {:induction false} DecodeEncode(s: seq<byte>)
    ensures Decode(Encode(s)) == Some(s)
    decreases |s|
  {
    if |s| == 0 {
      assert Encode(s) == "";
    } else if |s| <= 2 {
      ShortRoundTrip(s);
    } else {
      var g := EncodeGroup(s[0], s[1], s[2]);
      var rest := Encode(s[3..]);
      EncodeSplit(s);
      DecodeEncode(s[3..]);
      GroupRoundTrip(s[0], s[1], s[2], rest == "");
      DecodeGroupThenRest(g, rest, [s[0], s[1], s[2]], s[3..]);
      HeadThenTail(s);
    }
  }

  lemma HeadThenTail(s: seq<byte>)
    requires |s| >= 3
    ensures [s[0], s[1], s[2]] + s[3..] == s
  {
  }

  lemma EncodeSplit(s: seq<byte>)
    requires |s| >= 3
    ensures Encode(s) == EncodeGroup(s[0], s[1], s[2]) + Encode(s[3..])
  {
  }

  /** A text decodes group by group. */
  lemma DecodeGroupThenRest(g: string, rest: string, head: seq<byte>, tail: seq<byte>)
    requires |g| == 4 && DecodeGroup(g, rest == "") == Some(head)
    requires Decode(rest) == Some(tail)
    ensures Decode(g + rest) == Some(head + tail)
  {
    var t := g + rest;
    assert t[..4] == g && t[4..] == rest;
    if rest == "" {
      assert tail == [] && head + tail == head;
    }
  }

  /** Encoding is injective: different byte sequences never share an
      encoding. */
  lemma EncodeInjective(s1: seq<byte>, s2: seq<byte>)
    requires Encode(s1) == Encode(s2)
    ensures s1 == s2
  {
    DecodeEncode(s1);
    DecodeEncode(s2);
  }
}
