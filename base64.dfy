/**
 * Base64 as defined in section 4 of RFC 4648: the 64-letter alphabet of
 * Table 1, the encoding of each 3-byte group into four letters, and `=`
 * padding for a final group of one or two bytes. No line breaks are ever
 * inserted. Both source files reach this encoding through the browser's
 * `btoa` applied to a "binary string" (one character per byte); `Btoa` and
 * `BinaryString` model those two steps.
 */
module Base64 {
  import opened Wrappers

  /** One octet of a font file. */
  newtype byte = x: int | 0 <= x < 256

  const Pad: char := '='

  /** The letters of Table 1 of RFC 4648. */
  predicate IsAlphabetChar(c: char) {
    ('A' <= c <= 'Z') || ('a' <= c <= 'z') || ('0' <= c <= '9') || c == '+' || c == '/'
  }

  /** Table 1: the letter that encodes the 6-bit value `v`. */
  function CharOf(v: int): (c: char)
    requires 0 <= v < 64
    ensures IsAlphabetChar(c)
  {
    if v < 26 then ('A' as int + v) as char
    else if v < 52 then ('a' as int + (v - 26)) as char
    else if v < 62 then ('0' as int + (v - 52)) as char
    else if v == 62 then '+'
    else '/'
  }

  /** Table 1 read backwards: the 6-bit value a letter encodes. */
  function ValueOf(c: char): (v: int)
    requires IsAlphabetChar(c)
    ensures 0 <= v < 64
  {
    if 'A' <= c <= 'Z' then c as int - 'A' as int
    else if 'a' <= c <= 'z' then c as int - 'a' as int + 26
    else if '0' <= c <= '9' then c as int - '0' as int + 52
    else if c == '+' then 62
    else 63
  }

  lemma ValueOfCharOf(v: int)
    requires 0 <= v < 64
    ensures ValueOf(CharOf(v)) == v
  {
  }

  lemma CharOfValueOf(c: char)
    requires IsAlphabetChar(c)
    ensures CharOf(ValueOf(c)) == c
  {
  }

  /** Number of `=` letters that end the encoding of `n` bytes. */
  function PadLength(n: nat): nat {
    (3 - n % 3) % 3
  }

  /** The four letters that encode one full 3-byte group. */
  function EncodeGroup(b0: byte, b1: byte, b2: byte): string {
    [CharOf(b0 as int / 4), CharOf(b0 as int % 4 * 16 + b1 as int / 16),
     CharOf(b1 as int % 16 * 4 + b2 as int / 64), CharOf(b2 as int % 64)]
  }

  /** A final group of one byte: two letters and two `=`. */
  function EncodeOne(b0: byte): string {
    [CharOf(b0 as int / 4), CharOf(b0 as int % 4 * 16), Pad, Pad]
  }

  /** A final group of two bytes: three letters and one `=`. */
  function EncodeTwo(b0: byte, b1: byte): string {
    [CharOf(b0 as int / 4), CharOf(b0 as int % 4 * 16 + b1 as int / 16), CharOf(b1 as int % 16 * 4), Pad]
  }

  /** The three bytes that four letters encode. */
  function DecodeGroup(c0: char, c1: char, c2: char, c3: char): seq<byte>
    requires IsAlphabetChar(c0) && IsAlphabetChar(c1) && IsAlphabetChar(c2) && IsAlphabetChar(c3)
  {
    var v0, v1, v2, v3 := ValueOf(c0), ValueOf(c1), ValueOf(c2), ValueOf(c3);
    [(v0 * 4 + v1 / 16) as byte, (v1 % 16 * 16 + v2 / 4) as byte, (v2 % 4 * 64 + v3) as byte]
  }

  /**
   * The encoding of `b`: four letters per 3-byte group, and a final group of
   * one or two bytes padded with `=` to four letters.
   */
  function Encode(b: seq<byte>): string
    decreases |b|
  {
    if |b| == 0 then ""
    else if |b| == 1 then EncodeOne(b[0])
    else if |b| == 2 then EncodeTwo(b[0], b[1])
    else
      EncodeGroup(b[0], b[1], b[2]) + Encode(b[3..])
  }

  /** The final quantum of an encoding: four letters, of which the last one or two may be `=`. */
  function DecodeFinal(c0: char, c1: char, c2: char, c3: char): Option<seq<byte>> {
    if !IsAlphabetChar(c0) || !IsAlphabetChar(c1) then None
    else
      var v0, v1 := ValueOf(c0), ValueOf(c1);
      if c2 == Pad && c3 == Pad then
        if v1 % 16 == 0 then Some([(v0 * 4 + v1 / 16) as byte]) else None
      else if !IsAlphabetChar(c2) then None
      else
        var v2 := ValueOf(c2);
        if c3 == Pad then
          if v2 % 4 == 0 then Some([(v0 * 4 + v1 / 16) as byte, (v1 % 16 * 16 + v2 / 4) as byte])
          else None
        else if !IsAlphabetChar(c3) then None
        else Some(DecodeGroup(c0, c1, c2, c3))
  }

  /**
   * The strict decoder of RFC 4648: the length is a multiple of four, only
   * the final quantum may carry `=`, and the bits that padding discards are
   * zero (section 3.5). None for any other text.
   */
  function Decode(s: string): Option<seq<byte>>
    decreases |s|
  {
    if |s| == 0 then Some([])
    else if |s| < 4 then None
    else if |s| == 4 then DecodeFinal(s[0], s[1], s[2], s[3])
    else if !(IsAlphabetChar(s[0]) && IsAlphabetChar(s[1]) && IsAlphabetChar(s[2]) && IsAlphabetChar(s[3])) then None
    else
      match Decode(s[4..])
      case None => None
      case Some(rest) => Some(DecodeGroup(s[0], s[1], s[2], s[3]) + rest)
  }

  /** Bit arithmetic of a group: three octets regrouped into four sextets and back. */
  lemma SextetsOfOctets(x0: int, x1: int, x2: int)
    requires 0 <= x0 < 256 && 0 <= x1 < 256 && 0 <= x2 < 256
    ensures var v0, v1, v2, v3 := x0 / 4, x0 % 4 * 16 + x1 / 16, x1 % 16 * 4 + x2 / 64, x2 % 64;
      v0 * 4 + v1 / 16 == x0 && v1 % 16 * 16 + v2 / 4 == x1 && v2 % 4 * 64 + v3 == x2
  {
  }

  /** Bit arithmetic of a group: four sextets regrouped into three octets and back. */
  lemma OctetsOfSextets(v0: int, v1: int, v2: int, v3: int)
    requires 0 <= v0 < 64 && 0 <= v1 < 64 && 0 <= v2 < 64 && 0 <= v3 < 64
    ensures var x0, x1, x2 := v0 * 4 + v1 / 16, v1 % 16 * 16 + v2 / 4, v2 % 4 * 64 + v3;
      x0 / 4 == v0 && x0 % 4 * 16 + x1 / 16 == v1 && x1 % 16 * 4 + x2 / 64 == v2 && x2 % 64 == v3
  {
  }

  lemma GroupRoundTrip(b0: byte, b1: byte, b2: byte)
    ensures var g := EncodeGroup(b0, b1, b2);
      DecodeGroup(g[0], g[1], g[2], g[3]) == [b0, b1, b2]
  {
    var x0, x1, x2 := b0 as int, b1 as int, b2 as int;
    var v0, v1, v2, v3 := x0 / 4, x0 % 4 * 16 + x1 / 16, x1 % 16 * 4 + x2 / 64, x2 % 64;
    ValueOfCharOf(v0);
    ValueOfCharOf(v1);
    ValueOfCharOf(v2);
    ValueOfCharOf(v3);
    SextetsOfOctets(x0, x1, x2);
  }

  lemma GroupPrefixRoundTrip(b: seq<byte>)
    requires |b| >= 3
    ensures var g := EncodeGroup(b[0], b[1], b[2]);
      DecodeGroup(g[0], g[1], g[2], g[3]) == b[..3]
  {
    GroupRoundTrip(b[0], b[1], b[2]);
    PrefixThree(b);
  }

  lemma PrefixThree(b: seq<byte>)
    requires |b| >= 3
    ensures b[..3] == [b[0], b[1], b[2]]
  {
  }

  lemma UngroupRoundTrip(c0: char, c1: char, c2: char, c3: char)
    requires IsAlphabetChar(c0) && IsAlphabetChar(c1) && IsAlphabetChar(c2) && IsAlphabetChar(c3)
    ensures var b := DecodeGroup(c0, c1, c2, c3);
      EncodeGroup(b[0], b[1], b[2]) == [c0, c1, c2, c3]
  {
    var v0, v1, v2, v3 := ValueOf(c0), ValueOf(c1), ValueOf(c2), ValueOf(c3);
    var b := DecodeGroup(c0, c1, c2, c3);
    RegroupSextets(v0, v1, v2, v3, b[0] as int, b[1] as int, b[2] as int);
    CharOfValueOf(c0);
    CharOfValueOf(c1);
    CharOfValueOf(c2);
    CharOfValueOf(c3);
  }

  /** The sextets recovered from the three octets that four sextets decode to. */
  lemma RegroupSextets(v0: int, v1: int, v2: int, v3: int, x0: int, x1: int, x2: int)
    requires 0 <= v0 < 64 && 0 <= v1 < 64 && 0 <= v2 < 64 && 0 <= v3 < 64
    requires x0 == v0 * 4 + v1 / 16 && x1 == v1 % 16 * 16 + v2 / 4 && x2 == v2 % 4 * 64 + v3
    ensures x0 / 4 == v0 && x0 % 4 * 16 + x1 / 16 == v1 && x1 % 16 * 4 + x2 / 64 == v2 && x2 % 64 == v3
  {
    OctetsOfSextets(v0, v1, v2, v3);
  }

  lemma OneRoundTrip(b0: byte)
    ensures var s := EncodeOne(b0); DecodeFinal(s[0], s[1], s[2], s[3]) == Some([b0])
  {
    var x0 := b0 as int;
    ValueOfCharOf(x0 / 4);
    ValueOfCharOf(x0 % 4 * 16);
    SextetsOfOctets(x0, 0, 0);
  }

  lemma TwoRoundTrip(b0: byte, b1: byte)
    ensures var s := EncodeTwo(b0, b1); DecodeFinal(s[0], s[1], s[2], s[3]) == Some([b0, b1])
  {
    var x0, x1 := b0 as int, b1 as int;
    ValueOfCharOf(x0 / 4);
    ValueOfCharOf(x0 % 4 * 16 + x1 / 16);
    ValueOfCharOf(x1 % 16 * 4);
    SextetsOfOctets(x0, x1, 0);
  }

  lemma UnOneRoundTrip(c0: char, c1: char)
    requires IsAlphabetChar(c0) && IsAlphabetChar(c1) && ValueOf(c1) % 16 == 0
    ensures EncodeOne((ValueOf(c0) * 4 + ValueOf(c1) / 16) as byte) == [c0, c1, Pad, Pad]
  {
    CharOfValueOf(c0);
    CharOfValueOf(c1);
    OctetsOfSextets(ValueOf(c0), ValueOf(c1), 0, 0);
  }

  lemma UnTwoRoundTrip(c0: char, c1: char, c2: char)
    requires IsAlphabetChar(c0) && IsAlphabetChar(c1) && IsAlphabetChar(c2) && ValueOf(c2) % 4 == 0
    ensures var v0, v1, v2 := ValueOf(c0), ValueOf(c1), ValueOf(c2);
      EncodeTwo((v0 * 4 + v1 / 16) as byte, (v1 % 16 * 16 + v2 / 4) as byte) == [c0, c1, c2, Pad]
  {
    var v0, v1, v2 := ValueOf(c0), ValueOf(c1), ValueOf(c2);
    var x0, x1 := v0 * 4 + v1 / 16, v1 % 16 * 16 + v2 / 4;
    RegroupTwoSextets(v0, v1, v2, x0, x1);
    EncodeTwoOf(x0 as byte, x1 as byte, v0, v1, v2);
    CharOfValueOf(c0);
    CharOfValueOf(c1);
    CharOfValueOf(c2);
  }

  /** The letters of a two-byte final group, given the three sextets of its bits. */
  lemma EncodeTwoOf(b0: byte, b1: byte, v0: int, v1: int, v2: int)
    requires 0 <= v0 < 64 && 0 <= v1 < 64 && 0 <= v2 < 64
    requires b0 as int / 4 == v0 && b0 as int % 4 * 16 + b1 as int / 16 == v1 && b1 as int % 16 * 4 == v2
    ensures EncodeTwo(b0, b1) == [CharOf(v0), CharOf(v1), CharOf(v2), Pad]
  {
  }

  /** The sextets recovered from the two octets that three sextets, the last with two zero bits, decode to. */
  lemma RegroupTwoSextets(v0: int, v1: int, v2: int, x0: int, x1: int)
    requires 0 <= v0 < 64 && 0 <= v1 < 64 && 0 <= v2 < 64 && v2 % 4 == 0
    requires x0 == v0 * 4 + v1 / 16 && x1 == v1 % 16 * 16 + v2 / 4
    ensures 0 <= x0 < 256 && 0 <= x1 < 256
    ensures x0 / 4 == v0 && x0 % 4 * 16 + x1 / 16 == v1 && x1 % 16 * 4 == v2
  {
    OctetsOfSextets(v0, v1, v2, 0);
  }

  lemma DecodeEncodeOne(b: seq<byte>)
    requires |b| == 1
    ensures Decode(Encode(b)) == Some(b)
  {
    OneRoundTrip(b[0]);
    assert Encode(b) == EncodeOne(b[0]);
    assert b == [b[0]];
  }

  lemma DecodeEncodeTwo(b: seq<byte>)
    requires |b| == 2
    ensures Decode(Encode(b)) == Some(b)
  {
    TwoRoundTrip(b[0], b[1]);
    assert Encode(b) == EncodeTwo(b[0], b[1]);
    assert b == [b[0], b[1]];
  }

  /** Four letters of the alphabet form a final quantum without padding. */
  lemma DecodeFinalGroup(c0: char, c1: char, c2: char, c3: char)
    requires IsAlphabetChar(c0) && IsAlphabetChar(c1) && IsAlphabetChar(c2) && IsAlphabetChar(c3)
    ensures DecodeFinal(c0, c1, c2, c3) == Some(DecodeGroup(c0, c1, c2, c3))
  {
  }

  /** Encoding three or more bytes starts with the letters of the first three. */
  lemma EncodeStepShape(b: seq<byte>)
    requires |b| >= 3
    ensures Encode(b) == EncodeGroup(b[0], b[1], b[2]) + Encode(b[3..])
  {
  }

  /** Three bytes encode as one group of four letters. */
  lemma EncodeThree(b: seq<byte>)
    requires |b| == 3
    ensures Encode(b) == EncodeGroup(b[0], b[1], b[2])
  {
    EncodeStepShape(b);
    assert Encode(b[3..]) == "";
  }

  lemma DecodeEncodeThree(b: seq<byte>)
    requires |b| == 3
    ensures Decode(Encode(b)) == Some(b)
  {
    var g := EncodeGroup(b[0], b[1], b[2]);
    EncodeStepShape(b);
    assert Encode(b[3..]) == "";
    assert Encode(b) == g;
    DecodeFinalGroup(g[0], g[1], g[2], g[3]);
    GroupPrefixRoundTrip(b);
    assert b[..3] == b;
  }

  /** Decoding a full group of letters followed by a decodable non-empty text. */
  lemma DecodeGroupThen(g: string, t: string)
    requires |g| == 4 && IsAlphabetChar(g[0]) && IsAlphabetChar(g[1]) && IsAlphabetChar(g[2]) && IsAlphabetChar(g[3])
    requires |t| > 0 && Decode(t).Some?
    ensures Decode(g + t) == Some(DecodeGroup(g[0], g[1], g[2], g[3]) + Decode(t).value)
  {
    var s := g + t;
    assert s[4..] == t;
    assert s[0] == g[0] && s[1] == g[1] && s[2] == g[2] && s[3] == g[3];
  }

  lemma DecodeEncodeStep(b: seq<byte>)
    requires |b| > 3 && Decode(Encode(b[3..])) == Some(b[3..])
    ensures Decode(Encode(b)) == Some(b)
  {
    var g, t := EncodeGroup(b[0], b[1], b[2]), Encode(b[3..]);
    EncodeStepShape(b);
    EncodeLength(b[3..]);
    DecodeGroupThen(g, t);
    GroupPrefixRoundTrip(b);
    SplitBytes(b);
  }

  lemma SplitBytes(b: seq<byte>)
    requires |b| >= 3
    ensures b[..3] + b[3..] == b
  {
  }

  /** Decoding an encoding gives back the bytes. */
  lemma {:induction false} DecodeEncode(b: seq<byte>)
    ensures Decode(Encode(b)) == Some(b)
    decreases |b|
  {
    if |b| == 1 {
      DecodeEncodeOne(b);
    } else if |b| == 2 {
      DecodeEncodeTwo(b);
    } else if |b| == 3 {
      DecodeEncodeThree(b);
    } else if |b| > 3 {
      DecodeEncode(b[3..]);
      DecodeEncodeStep(b);
    }
  }

  lemma EncodeDecodeOne(c0: char, c1: char, c2: char, c3: char, b: seq<byte>)
    requires c2 == Pad && c3 == Pad && DecodeFinal(c0, c1, c2, c3) == Some(b)
    ensures Encode(b) == [c0, c1, c2, c3]
  {
    UnOneRoundTrip(c0, c1);
  }

  lemma EncodeDecodeTwo(c0: char, c1: char, c2: char, c3: char, b: seq<byte>)
    requires c2 != Pad && c3 == Pad && DecodeFinal(c0, c1, c2, c3) == Some(b)
    ensures Encode(b) == [c0, c1, c2, c3]
  {
    DecodeFinalTwo(c0, c1, c2, c3, b);
    UnTwoRoundTrip(c0, c1, c2);
    EncodePair(b);
  }

  lemma EncodePair(b: seq<byte>)
    requires |b| == 2
    ensures Encode(b) == EncodeTwo(b[0], b[1])
  {
  }

  /** A final quantum with one `=` decodes to the two bytes its three letters carry. */
  lemma DecodeFinalTwo(c0: char, c1: char, c2: char, c3: char, b: seq<byte>)
    requires c2 != Pad && c3 == Pad && DecodeFinal(c0, c1, c2, c3) == Some(b)
    ensures IsAlphabetChar(c0) && IsAlphabetChar(c1) && IsAlphabetChar(c2) && ValueOf(c2) % 4 == 0
    ensures var v0, v1, v2 := ValueOf(c0), ValueOf(c1), ValueOf(c2);
      b == [(v0 * 4 + v1 / 16) as byte, (v1 % 16 * 16 + v2 / 4) as byte]
  {
  }

  lemma EncodeDecodeThree(c0: char, c1: char, c2: char, c3: char, b: seq<byte>)
    requires c3 != Pad && DecodeFinal(c0, c1, c2, c3) == Some(b)
    ensures Encode(b) == [c0, c1, c2, c3]
  {
    UngroupRoundTrip(c0, c1, c2, c3);
    assert Encode(b) == EncodeGroup(b[0], b[1], b[2]) + Encode([]);
  }

  /** A decodable text longer than one quantum: a full group of letters, then a decodable rest. */
  lemma DecodeStepShape(s: string)
    requires |s| > 4 && Decode(s).Some?
    ensures IsAlphabetChar(s[0]) && IsAlphabetChar(s[1]) && IsAlphabetChar(s[2]) && IsAlphabetChar(s[3])
    ensures Decode(s[4..]).Some?
    ensures Decode(s).value == DecodeGroup(s[0], s[1], s[2], s[3]) + Decode(s[4..]).value
  {
  }

  /** Encoding the bytes of a group of letters followed by more bytes gives the letters followed by their encoding. */
  lemma EncodeGroupThen(c0: char, c1: char, c2: char, c3: char, rest: seq<byte>)
    requires IsAlphabetChar(c0) && IsAlphabetChar(c1) && IsAlphabetChar(c2) && IsAlphabetChar(c3)
    ensures Encode(DecodeGroup(c0, c1, c2, c3) + rest) == [c0, c1, c2, c3] + Encode(rest)
  {
    var g := DecodeGroup(c0, c1, c2, c3);
    var b := g + rest;
    assert b[0] == g[0] && b[1] == g[1] && b[2] == g[2] && b[3..] == rest;
    UngroupRoundTrip(c0, c1, c2, c3);
    assert Encode(b) == EncodeGroup(b[0], b[1], b[2]) + Encode(b[3..]);
  }

  lemma EncodeDecodeStep(s: string, b: seq<byte>)
    requires |s| > 4 && Decode(s) == Some(b)
    requires Encode(Decode(s[4..]).value) == s[4..]
    ensures Encode(b) == s
  {
    var t := s[4..];
    var rest := Decode(t).value;
    DecodeStepShape(s);
    assert b == DecodeGroup(s[0], s[1], s[2], s[3]) + rest;
    EncodeGroupThen(s[0], s[1], s[2], s[3], rest);
    QuantumSplit(s);
  }

  lemma QuantumSplit(s: string)
    requires |s| >= 4
    ensures s == [s[0], s[1], s[2], s[3]] + s[4..]
  {
  }

  /** A text the decoder accepts is the encoding of what it decodes to: the encoding is canonical. */
  lemma {:induction false} EncodeDecode(s: string, b: seq<byte>)
    requires Decode(s) == Some(b)
    ensures Encode(b) == s
    decreases |s|
  {
    if |s| == 4 {
      assert s == [s[0], s[1], s[2], s[3]];
      if s[2] == Pad && s[3] == Pad {
        EncodeDecodeOne(s[0], s[1], s[2], s[3], b);
      } else if s[3] == Pad {
        EncodeDecodeTwo(s[0], s[1], s[2], s[3], b);
      } else {
        EncodeDecodeThree(s[0], s[1], s[2], s[3], b);
      }
    } else if |s| > 4 {
      EncodeDecode(s[4..], Decode(s[4..]).value);
      EncodeDecodeStep(s, b);
    }
  }

  /** The encoding of `n` bytes has 4 * ceil(n / 3) letters. */
  lemma {:induction false} EncodeLength(b: seq<byte>)
    ensures |Encode(b)| == 4 * ((|b| + 2) / 3)
    decreases |b|
  {
    var n := |b|;
    if n > 3 {
      var g, t := EncodeGroup(b[0], b[1], b[2]), Encode(b[3..]);
      EncodeLength(b[3..]);
      assert Encode(b) == g + t;
      assert |g| == 4 && |t| == 4 * ((n - 1) / 3);
      assert (n + 2) / 3 == (n - 1) / 3 + 1;
    }
  }

  /** Where the encoding of `n` bytes has letters of the alphabet and where it has padding. */
  predicate LettersThenPad(r: string, n: nat) {
    forall i | 0 <= i < |r| :: if i < |r| - PadLength(n) then IsAlphabetChar(r[i]) else r[i] == Pad
  }

  lemma OneLetters(b0: byte)
    ensures LettersThenPad(EncodeOne(b0), 1)
  {
    var r := EncodeOne(b0);
    assert PadLength(1) == 2 && |r| == 4;
    assert IsAlphabetChar(r[0]) && IsAlphabetChar(r[1]) && r[2] == Pad && r[3] == Pad;
  }

  lemma TwoLetters(b0: byte, b1: byte)
    ensures LettersThenPad(EncodeTwo(b0, b1), 2)
  {
    var r := EncodeTwo(b0, b1);
    assert PadLength(2) == 1 && |r| == 4;
    assert IsAlphabetChar(r[0]) && IsAlphabetChar(r[1]) && IsAlphabetChar(r[2]) && r[3] == Pad;
  }

  lemma GroupLetters(b0: byte, b1: byte, b2: byte)
    ensures LettersThenPad(EncodeGroup(b0, b1, b2), 3)
  {
    var r := EncodeGroup(b0, b1, b2);
    assert PadLength(3) == 0 && |r| == 4;
    assert IsAlphabetChar(r[0]) && IsAlphabetChar(r[1]) && IsAlphabetChar(r[2]) && IsAlphabetChar(r[3]);
  }

  lemma FinalLetters(b: seq<byte>)
    requires 0 < |b| <= 3
    ensures LettersThenPad(Encode(b), |b|)
  {
    if |b| == 1 {
      assert Encode(b) == EncodeOne(b[0]);
      OneLetters(b[0]);
    } else if |b| == 2 {
      assert Encode(b) == EncodeTwo(b[0], b[1]);
      TwoLetters(b[0], b[1]);
    } else {
      assert Encode(b) == EncodeGroup(b[0], b[1], b[2]) + Encode([]);
      assert Encode(b) == EncodeGroup(b[0], b[1], b[2]);
      GroupLetters(b[0], b[1], b[2]);
    }
  }

  lemma LettersStep(g: string, t: string, n: nat)
    requires n > 3 && |g| == 4 && |t| >= 4 && PadLength(n) <= 2
    requires forall i | 0 <= i < 4 :: IsAlphabetChar(g[i])
    requires LettersThenPad(t, n - 3)
    ensures LettersThenPad(g + t, n)
  {
    var r := g + t;
    assert PadLength(n) == PadLength(n - 3);
    forall i | 0 <= i < |r|
      ensures if i < |r| - PadLength(n) then IsAlphabetChar(r[i]) else r[i] == Pad
    {
      if i >= 4 {
        assert r[i] == t[i - 4];
      } else {
        assert r[i] == g[i];
      }
    }
  }

  /** The encoding uses only letters of the alphabet, followed by exactly `PadLength(|b|)` padding letters. */
  lemma {:induction false} EncodeLetters(b: seq<byte>)
    ensures var r := Encode(b);
      forall i | 0 <= i < |r| :: if i < |r| - PadLength(|b|) then IsAlphabetChar(r[i]) else r[i] == Pad
    decreases |b|
  {
    var n := |b|;
    if 0 < n <= 3 {
      FinalLetters(b);
    } else if n > 3 {
      var g, t := EncodeGroup(b[0], b[1], b[2]), Encode(b[3..]);
      EncodeLetters(b[3..]);
      EncodeLength(b[3..]);
      assert Encode(b) == g + t;
      assert LettersThenPad(t, n - 3);
      LettersStep(g, t, n);
      assert LettersThenPad(Encode(b), n);
    }
  }

  /** Each letter of an encoding is an alphabet letter or `=`. */
  lemma LetterAt(b: seq<byte>, i: int)
    requires 0 <= i < |Encode(b)|
    ensures IsAlphabetChar(Encode(b)[i]) || Encode(b)[i] == Pad
  {
    EncodeLetters(b);
  }

  /** Two byte strings with the same encoding are equal. */
  lemma EncodeInjective(a: seq<byte>, b: seq<byte>)
    requires Encode(a) == Encode(b)
    ensures a == b
  {
    DecodeEncode(a);
    DecodeEncode(b);
  }

  /** `String.fromCharCode` applied to each byte: the "binary string" of the bytes. */
  function BinaryString(b: seq<byte>): (s: string)
  {
    seq(|b|, i requires 0 <= i < |b| => (b[i] as int) as char)
  }

  /**
   * The browser's `btoa`: every character must have a code below 256 (it is
   * taken as one byte), otherwise it throws, modelled as None.
   */
  function Btoa(s: string): Option<string> {
    if forall i | 0 <= i < |s| :: s[i] as int < 256 then
      Some(Encode(seq(|s|, i requires 0 <= i < |s| => s[i] as int as byte)))
    else None
  }

  /** `btoa` never throws on a binary string, and encodes exactly its bytes. */
  lemma BtoaBinaryString(b: seq<byte>)
    ensures Btoa(BinaryString(b)) == Some(Encode(b))
  {
    var s := BinaryString(b);
    assert seq(|s|, i requires 0 <= i < |s| => s[i] as int as byte) == b;
  }

  /**
   * `arrayBufferToBase64`, written out identically in the converter page and
   * in the plugin: the binary string of the bytes, built one character at a
   * time, passed through `btoa`.
   */
  method ArrayBufferToBase64(bytes: seq<byte>) returns (base64: string)
    ensures base64 == Encode(bytes)
  {
    var binary := "";
    var i := 0;
    while i < |bytes|
      invariant 0 <= i <= |bytes|
      invariant binary == BinaryString(bytes[..i])
    {
      binary := binary + [(bytes[i] as int) as char];
      i := i + 1;
    }
    assert bytes[..i] == bytes;
    BtoaBinaryString(bytes);
    var encoded := Btoa(binary);
    base64 := encoded.value;
  }
}
