/** Tokens of the LZ77 parse and what they expand to. */
module Lz77 {
  import opened Wrappers

  type byte = x: int | 0 <= x < 0x100
  type uint16 = x: int | 0 <= x < 0x1_0000

  const MIN_MATCH_LEN := 3
  const MAX_MATCH_LEN := 258
  const LZ_DICT_SIZE := 32768

  datatype Token = Literal(value: byte) | Match(len: nat, dist: nat)

  // A token that the format can carry.
  predicate Encodable(t: Token) {
    t.Match? ==> MIN_MATCH_LEN <= t.len <= MAX_MATCH_LEN && 1 <= t.dist <= LZ_DICT_SIZE
  }

  // Appends len bytes, each the one dist places back; overlap repeats what was just written.
  function CopyBack(out: seq<byte>, len: nat, dist: nat): (r: seq<byte>)
    requires 1 <= dist <= |out|
    ensures |r| == |out| + len && r[..|out|] == out
    decreases len
  {
    if len == 0 then out else CopyBack(out + [out[|out| - dist]], len - 1, dist)
  }

  function Apply(out: seq<byte>, t: Token): Option<seq<byte>> {
    match t
    case Literal(b) => Some(out + [b])
    case Match(len, dist) => if 1 <= dist <= |out| then Some(CopyBack(out, len, dist)) else None
  }

  // The bytes that a token sequence stands for, after the bytes already out.
  function Expand(out: seq<byte>, tokens: seq<Token>): Option<seq<byte>>
    decreases |tokens|
  {
    if tokens == [] then Some(out)
    else
      match Expand(out, tokens[..|tokens| - 1])
      case None => None
      case Some(r) => Apply(r, tokens[|tokens| - 1])
  }

  lemma {:induction false} ExpandConcat(out: seq<byte>, s: seq<Token>, t: seq<Token>)
    ensures Expand(out, s + t)
         == (match Expand(out, s) case None => None case Some(r) => Expand(r, t))
    decreases |t|
  {
    if t == [] {
      assert s + t == s;
    } else {
      var t' := t[..|t| - 1];
      ExpandConcat(out, s, t');
      assert (s + t)[..|s + t| - 1] == s + t';
    }
  }

  lemma ExpandSnoc(out: seq<byte>, s: seq<Token>, t: Token)
    ensures Expand(out, s + [t]) == (match Expand(out, s) case None => None case Some(r) => Apply(r, t))
  {
    assert (s + [t])[..|s|] == s;
  }

  // Bytes that repeat those dist places back are what a match copies.
  lemma {:induction false} CopyMatches(data: seq<byte>, p: nat, len: nat, dist: nat)
    requires 1 <= dist <= p && p + len <= |data|
    requires forall i :: p <= i < p + len ==> data[i] == data[i - dist]
    ensures CopyBack(data[..p], len, dist) == data[..p + len]
    decreases len
  {
    if len > 0 {
      assert data[..p] + [data[..p][p - dist]] == data[..p + 1];
      CopyMatches(data, p + 1, len - 1, dist);
    }
  }

  // A copy in closed form: the byte at p repeats the one dist before it.
  lemma {:induction false} CopyBackAt(out: seq<byte>, len: nat, dist: nat, p: nat)
    requires 1 <= dist <= |out| <= p < |out| + len
    ensures CopyBack(out, len, dist)[p] == CopyBack(out, len, dist)[p - dist]
    decreases len
  {
    var out' := out + [out[|out| - dist]];
    var r := CopyBack(out', len - 1, dist);
    if p == |out| {
      assert r[..|out'|] == out';
      assert r[p] == out'[p] && r[p - dist] == out'[p - dist];
    } else {
      CopyBackAt(out', len - 1, dist, p);
    }
  }
}
