/** The base64 encoding of section 4 of RFC 4648 (the standard alphabet, with
    '=' padding), which `b64encode` applies to the UUID text in `gen_token`.
    The decoder is not used by the system; it is the partner that shows the
    encoding loses nothing. */
module Base64 {
  import opened Wrappers

  type Byte = b: int | 0 <= b < 256

  /** The value of an index into the base64 alphabet. */
  type Sextet = i: int | 0 <= i < 64

  /** Table 1 of RFC 4648: A-Z, a-z, 0-9, '+', '/'. */
  function CharOf(i: Sextet): (c: char)
    ensures IsAlphabetChar(c)
  {
    if i < 26 then ('A' as int + i) as char
    else if i < 52 then ('a' as int + (i - 26)) as char
    else if i < 62 then ('0' as int + (i - 52)) as char
    else if i == 62 then '+'
    else '/'
  }

  predicate IsAlphabetChar(c: char) {
    ('A' <= c <= 'Z') || ('a' <= c <= 'z') || ('0' <= c <= '9') || c == '+' || c == '/'
  }

  /** The inverse of CharOf, defined on the 64 alphabet characters. */
  function IndexOf(c: char): (i: Sextet)
    requires IsAlphabetChar(c)
    ensures CharOf(i) == c
  {
    if 'A' <= c <= 'Z' then c as int - 'A' as int
    else if 'a' <= c <= 'z' then c as int - 'a' as int + 26
    else if '0' <= c <= '9' then c as int - '0' as int + 52
    else if c == '+' then 62
    else 63
  }

  lemma IndexOfCharOf(i: Sextet)
    ensures IndexOf(CharOf(i)) == i
  {
  }

  /** Three bytes (24 bits) become four 6-bit groups, most significant first. */
  function EncodeTriple(b0: Byte, b1: Byte, b2: Byte): string {
    [CharOf(b0 / 4), CharOf((b0 % 4) * 16 + b1 / 16), CharOf((b1 % 16) * 4 + b2 / 64), CharOf(b2 % 64)]
  }

  /** A final group of two bytes: the 16 bits are padded with two zero bits, then one '='. */
  function EncodePair(b0: Byte, b1: Byte): string {
    [CharOf(b0 / 4), CharOf((b0 % 4) * 16 + b1 / 16), CharOf((b1 % 16) * 4), '=']
  }

  /** A final single byte: padded with four zero bits, then "==". */
  function EncodeSingle(b0: Byte): string {
    [CharOf(b0 / 4), CharOf((b0 % 4) * 16), '=', '=']
  }

  function Encode(b: seq<Byte>): (r: string)
    ensures |r| == 0 <==> |b| == 0
    ensures |b| > 0 ==> |r| >= 4 && r[..4] == (if |b| == 1 then EncodeSingle(b[0])
                                              else if |b| == 2 then EncodePair(b[0], b[1])
                                              else EncodeTriple(b[0], b[1], b[2]))
    decreases |b|
  {
    if |b| == 0 then []
    else if |b| == 1 then EncodeSingle(b[0])
    else if |b| == 2 then EncodePair(b[0], b[1])
    else EncodeTriple(b[0], b[1], b[2]) + Encode(b[3..])
  }

  /** Four output characters for every started group of three input bytes. */
  lemma {:induction false} EncodeLength(b: seq<Byte>)
    ensures |Encode(b)| == 4 * ((|b| + 2) / 3)
    decreases |b|
  {
    if |b| >= 3 {
      EncodeLength(b[3..]);
    }
  }

  /** Every output character is from the alphabet or is the pad '=', and when
      the input length is a multiple of three there is no padding at all. */
  lemma {:induction false} EncodeAlphabet(b: seq<Byte>)
    ensures forall i :: 0 <= i < |Encode(b)| ==> IsAlphabetChar(Encode(b)[i]) || Encode(b)[i] == '='
    ensures |b| % 3 == 0 ==> forall i :: 0 <= i < |Encode(b)| ==> IsAlphabetChar(Encode(b)[i])
    decreases |b|
  {
    if |b| >= 3 {
      EncodeAlphabet(b[3..]);
      var head := EncodeTriple(b[0], b[1], b[2]);
      assert Encode(b) == head + Encode(b[3..]);
      assert forall i :: 0 <= i < 4 ==> IsAlphabetChar(head[i]);
    }
  }

  /** Input made of whole 3-byte groups: 4 alphabet characters per group, no padding. */
  lemma EncodeWholeGroups(b: seq<Byte>)
    requires |b| % 3 == 0
    ensures |Encode(b)| == 4 * (|b| / 3)
    ensures forall i :: 0 <= i < |Encode(b)| ==> IsAlphabetChar(Encode(b)[i])
  {
    EncodeLength(b);
    EncodeAlphabet(b);
    var n := |b|;
    assert (n + 2) / 3 == n / 3;
  }

  function DecodeQuad(c0: char, c1: char, c2: char, c3: char): Option<seq<Byte>> {
    if IsAlphabetChar(c0) && IsAlphabetChar(c1) && IsAlphabetChar(c2) && IsAlphabetChar(c3) then
      var i0, i1, i2, i3 := IndexOf(c0), IndexOf(c1), IndexOf(c2), IndexOf(c3);
      Some([i0 * 4 + i1 / 16, (i1 % 16) * 16 + i2 / 4, (i2 % 4) * 64 + i3])
    else
      None
  }

  /** A final group with padding: "xy==" holds one byte, "xyz=" holds two. */
  function DecodeFinal(c0: char, c1: char, c2: char, c3: char): Option<seq<Byte>> {
    if !(IsAlphabetChar(c0) && IsAlphabetChar(c1)) || c3 != '=' then None
    else if c2 == '=' then
      Some([IndexOf(c0) * 4 + IndexOf(c1) / 16])
    else if IsAlphabetChar(c2) then
      var i1, i2 := IndexOf(c1), IndexOf(c2);
      Some([IndexOf(c0) * 4 + i1 / 16, (i1 % 16) * 16 + i2 / 4])
    else None
  }

  /** Decoding of padded base64 text; None for text that is not such an encoding. */
  function Decode(s: string): Option<seq<Byte>>
    decreases |s|
  {
    if |s| == 0 then Some([])
    else if |s| < 4 then None
    else if |s| == 4 && s[3] == '=' then DecodeFinal(s[0], s[1], s[2], s[3])
    else
      match DecodeQuad(s[0], s[1], s[2], s[3])
      case None => None
      case Some(head) =>
        match Decode(s[4..])
        case None => None
        case Some(tail) => Some(head + tail)
  }

  lemma TripleRoundTrip(b0: Byte, b1: Byte, b2: Byte)
    ensures var e := EncodeTriple(b0, b1, b2); DecodeQuad(e[0], e[1], e[2], e[3]) == Some([b0, b1, b2])
  {
    var i0, i1, i2, i3 := b0 / 4, (b0 % 4) * 16 + b1 / 16, (b1 % 16) * 4 + b2 / 64, b2 % 64;
    IndexOfCharOf(i0);
    IndexOfCharOf(i1);
    IndexOfCharOf(i2);
    IndexOfCharOf(i3);
    assert i1 / 16 == b0 % 4 && i1 % 16 == b1 / 16;
    assert i2 / 4 == b1 % 16 && i2 % 4 == b2 / 64;
  }

  lemma PairRoundTrip(b0: Byte, b1: Byte)
    ensures var e := EncodePair(b0, b1); DecodeFinal(e[0], e[1], e[2], e[3]) == Some([b0, b1])
  {
    var i0, i1, i2 := b0 / 4, (b0 % 4) * 16 + b1 / 16, (b1 % 16) * 4;
    IndexOfCharOf(i0);
    IndexOfCharOf(i1);
    IndexOfCharOf(i2);
    assert i1 / 16 == b0 % 4 && i1 % 16 == b1 / 16;
    assert i2 / 4 == b1 % 16;
  }

  lemma SingleRoundTrip(b0: Byte)
    ensures var e := EncodeSingle(b0); DecodeFinal(e[0], e[1], e[2], e[3]) == Some([b0])
  {
    IndexOfCharOf(b0 / 4);
    IndexOfCharOf((b0 % 4) * 16);
  }

  /** A full group in front of decodable text decodes to its three bytes in front. */
  lemma DecodeCons(q: string, rest: string, head: seq<Byte>, tail: seq<Byte>)
    requires |q| == 4 && IsAlphabetChar(q[3])
    requires DecodeQuad(q[0], q[1], q[2], q[3]) == Some(head)
    requires Decode(rest) == Some(tail)
    ensures Decode(q + rest) == Some(head + tail)
  {
    var s := q + rest;
    assert s[..4] == q && s[4..] == rest;
    assert s[3] != '=';
  }

  lemma DecodeEncodeSingle(b: seq<Byte>)
    requires |b| == 1
    ensures Decode(Encode(b)) == Some(b)
  {
    SingleRoundTrip(b[0]);
    var e := EncodeSingle(b[0]);
    assert Encode(b) == e;
    assert [b[0]] == b;
  }

  lemma DecodeEncodePair(b: seq<Byte>)
    requires |b| == 2
    ensures Decode(Encode(b)) == Some(b)
  {
    PairRoundTrip(b[0], b[1]);
    var e := EncodePair(b[0], b[1]);
    assert Encode(b) == e;
    assert [b[0], b[1]] == b;
  }

  lemma DecodeEncodeGroup(b: seq<Byte>)
    requires |b| >= 3
    requires Decode(Encode(b[3..])) == Some(b[3..])
    ensures Decode(Encode(b)) == Some(b)
  {
    var head := EncodeTriple(b[0], b[1], b[2]);
    var rest := Encode(b[3..]);
    EncodeStep(b);
    TripleRoundTrip(b[0], b[1], b[2]);
    DecodeCons(head, rest, [b[0], b[1], b[2]], b[3..]);
    GroupSplit(b);
  }

  lemma EncodeStep(b: seq<Byte>)
    requires |b| >= 3
    ensures Encode(b) == EncodeTriple(b[0], b[1], b[2]) + Encode(b[3..])
  {
  }

  lemma GroupSplit(b: seq<Byte>)
    requires |b| >= 3
    ensures [b[0], b[1], b[2]] + b[3..] == b
  {
  }

  /** Decoding inverts encoding on every byte string. */
  lemma {:induction false} DecodeEncode(b: seq<Byte>)
    ensures Decode(Encode(b)) == Some(b)
    decreases |b|
  {
    if |b| == 1 {
      DecodeEncodeSingle(b);
    } else if |b| == 2 {
      DecodeEncodePair(b);
    } else if |b| >= 3 {
      DecodeEncode(b[3..]);
      DecodeEncodeGroup(b);
    }
  }

  /** Hence the encoding is injective. */
  lemma EncodeInjective(a: seq<Byte>, b: seq<Byte>)
    requires Encode(a) == Encode(b)
    ensures a == b
  {
    DecodeEncode(a);
    DecodeEncode(b);
  }
}
