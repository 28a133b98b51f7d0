/** `gen_token` (app/rest/tools.py): a token is the concatenation, in loop
    order, of the base64 encodings of the UTF-8 text of fresh UUIDs. The
    UUIDs are inputs of the model; their number is the `complexity`. */
module Tokens {
  import Base64
  import opened UuidText

  /** `b64encode(bytes(str(u), 'utf8')).decode('utf8')` for one UUID: its 36
      bytes are twelve full groups, so 48 alphabet characters and no '='. */
  function Chunk(u: Uuid): (c: string)
    ensures |c| == 48
    ensures forall i :: 0 <= i < 48 ==> Base64.IsAlphabetChar(c[i])
  {
    Base64.EncodeWholeGroups(TextBytes(u));
    Base64.Encode(TextBytes(u))
  }

  lemma ChunkInjective(u: Uuid, v: Uuid)
    requires Chunk(u) == Chunk(v)
    ensures u == v
  {
    Base64.EncodeInjective(TextBytes(u), TextBytes(v));
    TextBytesInjective(u, v);
  }

  /** The chunks appended by the loop, one per draw, in draw order. */
  function Chunks(uuids: seq<Uuid>): (cs: seq<string>)
    ensures |cs| == |uuids|
    ensures forall k :: 0 <= k < |uuids| ==> cs[k] == Chunk(uuids[k])
  {
    seq(|uuids|, k requires 0 <= k < |uuids| => Chunk(uuids[k]))
  }

  /** The strings appended one after the other, from left to right. */
  function Concat(cs: seq<string>): string
    decreases |cs|
  {
    if cs == [] then "" else Concat(cs[..|cs| - 1]) + cs[|cs| - 1]
  }

  /** The token built from the given draws: 48 characters per draw, so the
      empty string when there are none. */
  function TokenOf(uuids: seq<Uuid>): (t: string)
    ensures |t| == 48 * |uuids|
  {
    ChunksLength(uuids);
    ConcatLength(Chunks(uuids));
    Concat(Chunks(uuids))
  }

  /** Every string is as long as one chunk. */
  ghost predicate ChunkSized(cs: seq<string>) {
    forall k :: 0 <= k < |cs| ==> |cs[k]| == 48
  }

  /** Slicing a concatenation inside its first or its second part. */
  lemma SliceOfConcat(a: string, b: string, i: nat, j: nat)
    requires i <= j
    ensures j <= |a| ==> (a + b)[i..j] == a[i..j]
    ensures i == |a| && j == |a| + |b| ==> (a + b)[i..j] == b
  {
  }

  lemma {:induction false} ConcatLength(cs: seq<string>)
    requires ChunkSized(cs)
    ensures |Concat(cs)| == 48 * |cs|
    decreases |cs|
  {
    if cs != [] {
      ConcatLength(cs[..|cs| - 1]);
    }
  }

  /** In a concatenation of chunk-sized strings, the k-th 48-character slice is the k-th string. */
  lemma {:induction false} ConcatAt(cs: seq<string>, k: nat)
    requires ChunkSized(cs) && k < |cs|
    ensures |Concat(cs)| == 48 * |cs|
    ensures Concat(cs)[48 * k..48 * k + 48] == cs[k]
    decreases |cs|
  {
    ConcatLength(cs);
    var m := |cs| - 1;
    var prefix := cs[..m];
    ConcatLength(prefix);
    var head := Concat(prefix);
    assert Concat(cs) == head + cs[m];
    if k < m {
      ConcatAt(prefix, k);
    }
    SliceOfConcat(head, cs[m], 48 * k, 48 * k + 48);
  }

  lemma ChunksLength(uuids: seq<Uuid>)
    ensures ChunkSized(Chunks(uuids))
  {
    forall k | 0 <= k < |uuids|
      ensures |Chunks(uuids)[k]| == 48
    {
      assert Chunks(uuids)[k] == Chunk(uuids[k]);
    }
  }

  /** The k-th 48-character slice of the token is the encoding of the k-th UUID. */
  lemma TokenChunkAt(uuids: seq<Uuid>, k: nat)
    requires k < |uuids|
    ensures |TokenOf(uuids)| == 48 * |uuids|
    ensures TokenOf(uuids)[48 * k..48 * k + 48] == Chunk(uuids[k])
  {
    ChunksLength(uuids);
    ConcatAt(Chunks(uuids), k);
  }

  /** Every character of a token is from the base64 alphabet: no padding, no separators. */
  lemma TokenAlphabet(uuids: seq<Uuid>)
    ensures forall i :: 0 <= i < |TokenOf(uuids)| ==> Base64.IsAlphabetChar(TokenOf(uuids)[i])
  {
    var t := TokenOf(uuids);
    forall i | 0 <= i < |t|
      ensures Base64.IsAlphabetChar(t[i])
    {
      var k := i / 48;
      TokenChunkAt(uuids, k);
      assert t[i] == t[48 * k..48 * k + 48][i - 48 * k];
    }
  }

  /** Different UUID draws give different tokens. */
  lemma TokenInjective(us: seq<Uuid>, vs: seq<Uuid>)
    requires TokenOf(us) == TokenOf(vs)
    ensures us == vs
  {
    forall k | 0 <= k < |us|
      ensures us[k] == vs[k]
    {
      TokenChunkAt(us, k);
      TokenChunkAt(vs, k);
      ChunkInjective(us[k], vs[k]);
    }
  }

  /** `gen_token(complexity)` with `complexity == |uuids|`: the loop over the draws. */
  method GenToken(uuids: seq<Uuid>) returns (token: string)
    ensures token == TokenOf(uuids)
    ensures |token| == 48 * |uuids|
    ensures forall i :: 0 <= i < |token| ==> Base64.IsAlphabetChar(token[i])
  {
    ghost var cs := Chunks(uuids);
    token := "";
    for k := 0 to |uuids|
      invariant token == Concat(cs[..k])
    {
      assert cs[..k + 1][..k] == cs[..k];
      token := token + Chunk(uuids[k]);
    }
    assert cs[..|uuids|] == cs;
    TokenAlphabet(uuids);
  }
}
