/** The canonical text form of a UUID (section 3 of RFC 4122), as Python's
    `str(uuid4())` writes it: 32 lower-case hexadecimal digits of the 128-bit
    value, most significant first, grouped 8-4-4-4-12 by hyphens. The random
    value itself is an input of the model. */
module UuidText {
  import Base64

  function Pow16(w: nat): (p: nat)
    ensures p > 0
  {
    if w == 0 then 1 else 16 * Pow16(w - 1)
  }

  /** A 128-bit UUID value. */
  type Uuid = u: nat | u < Pow16(32)

  lemma {:induction false} Pow16Add(a: nat, b: nat)
    ensures Pow16(a + b) == Pow16(a) * Pow16(b)
    decreases a
  {
    if a > 0 {
      Pow16Add(a - 1, b);
    }
  }

  /** 32 hexadecimal digits are 128 bits. */
  lemma UuidWidth()
    ensures Pow16(32) == 0x1_0000_0000_0000_0000_0000_0000_0000_0000
  {
    assert Pow16(4) == 0x1_0000;
    Pow16Add(4, 4);
    Pow16Add(8, 8);
    Pow16Add(16, 16);
  }

  type Nibble = d: int | 0 <= d < 16

  function HexDigit(d: Nibble): (c: char)
    ensures IsHexDigit(c)
  {
    if d < 10 then ('0' as int + d) as char else ('a' as int + (d - 10)) as char
  }

  predicate IsHexDigit(c: char) {
    ('0' <= c <= '9') || ('a' <= c <= 'f')
  }

  /** The digit's value; the inverse of HexDigit. */
  function HexDigitValue(c: char): (d: Nibble)
    requires IsHexDigit(c)
    ensures HexDigit(d) == c
  {
    if '0' <= c <= '9' then c as int - '0' as int else c as int - 'a' as int + 10
  }

  /** The low `w` hexadecimal digits of n, zero-padded, most significant first. */
  function Hex(n: nat, w: nat): (r: string)
    ensures |r| == w
    ensures forall i :: 0 <= i < w ==> IsHexDigit(r[i])
    decreases w
  {
    if w == 0 then [] else Hex(n / 16, w - 1) + [HexDigit(n % 16)]
  }

  /** Two numbers below 16^w with the same `w` digits are equal. */
  lemma {:induction false} HexInjective(a: nat, b: nat, w: nat)
    requires a < Pow16(w) && b < Pow16(w)
    requires Hex(a, w) == Hex(b, w)
    ensures a == b
    decreases w
  {
    if w > 0 {
      var ha, hb := Hex(a / 16, w - 1), Hex(b / 16, w - 1);
      assert Hex(a, w)[..w - 1] == ha && Hex(b, w)[..w - 1] == hb;
      assert HexDigit(a % 16) == Hex(a, w)[w - 1] == HexDigit(b % 16);
      assert a % 16 == HexDigitValue(HexDigit(a % 16));
      assert b % 16 == HexDigitValue(HexDigit(b % 16));
      HexInjective(a / 16, b / 16, w - 1);
    }
  }

  /** Where the i-th of the 32 digits sits in the hyphenated text. */
  function DigitPos(i: nat): nat {
    if i < 8 then i else if i < 12 then i + 1 else if i < 16 then i + 2 else if i < 20 then i + 3 else i + 4
  }

  /** `str(uuid)`: the 8-4-4-4-12 hyphenated form. */
  function Text(u: Uuid): (r: string)
    ensures |r| == 36
    ensures forall i :: 0 <= i < 36 ==> if i in {8, 13, 18, 23} then r[i] == '-' else IsHexDigit(r[i])
  {
    var h := Hex(u, 32);
    h[..8] + "-" + h[8..12] + "-" + h[12..16] + "-" + h[16..20] + "-" + h[20..]
  }

  /** Every digit of the value appears in the text, at its position. */
  lemma TextDigitAt(u: Uuid, i: nat)
    requires i < 32
    ensures DigitPos(i) < 36 && Text(u)[DigitPos(i)] == Hex(u, 32)[i]
  {
  }

  /** Distinct UUIDs have distinct texts. */
  lemma TextInjective(u: Uuid, v: Uuid)
    requires Text(u) == Text(v)
    ensures u == v
  {
    forall i | 0 <= i < 32
      ensures Hex(u, 32)[i] == Hex(v, 32)[i]
    {
      TextDigitAt(u, i);
      TextDigitAt(v, i);
    }
    HexInjective(u, v, 32);
  }

  /** `bytes(s, 'utf8')` for text made of ASCII characters: by RFC 3629 each
      such character is the single byte of its code point. */
  function AsciiBytes(s: string): (b: seq<Base64.Byte>)
    requires forall i :: 0 <= i < |s| ==> s[i] as int < 128
    ensures |b| == |s|
    ensures forall i :: 0 <= i < |s| ==> b[i] == s[i] as int
  {
    seq(|s|, i requires 0 <= i < |s| => s[i] as int)
  }

  lemma AsciiBytesInjective(s: string, t: string)
    requires forall i :: 0 <= i < |s| ==> s[i] as int < 128
    requires forall i :: 0 <= i < |t| ==> t[i] as int < 128
    requires AsciiBytes(s) == AsciiBytes(t)
    ensures s == t
  {
    assert forall i :: 0 <= i < |s| ==> s[i] as int == AsciiBytes(s)[i] == t[i] as int;
  }

  /** The UTF-8 bytes of the UUID text: 36 of them. */
  function TextBytes(u: Uuid): (b: seq<Base64.Byte>)
    ensures |b| == 36
  {
    var t := Text(u);
    assert forall i :: 0 <= i < 36 ==> t[i] as int < 128;
    AsciiBytes(t)
  }

  lemma TextBytesInjective(u: Uuid, v: Uuid)
    requires TextBytes(u) == TextBytes(v)
    ensures u == v
  {
    var s, t := Text(u), Text(v);
    assert forall i :: 0 <= i < 36 ==> s[i] as int < 128 && t[i] as int < 128;
    AsciiBytesInjective(s, t);
    TextInjective(u, v);
  }
}
