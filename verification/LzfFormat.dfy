// The LZF stream format as lzf_decompress reads it (lzf_d.c): what a stream
// means, and how a stream grows by one token.
module LzfFormat {
  import opened Bytes

  datatype Errno = E2BIG | EINVAL

  datatype Decoded = Out(data: bytes) | Fail(errno: Errno)

  /** Copy n bytes from offset ref to the end, one at a time; the source may
      run into the bytes just written. */
  function Copy(out: bytes, ref: nat, n: nat): (r: bytes)
    requires ref < |out|
    ensures |r| == |out| + n
    decreases n
  {
    if n == 0 then out else Copy(out + [out[ref]], ref + 1, n - 1)
  }

  /** One token at position i: the next position and the longer output. */
  datatype Step = Next(i: nat, out: bytes) | Stop(errno: Errno)

  function Token(src: bytes, i: nat, out: bytes, cap: nat): Step
    requires i < |src|
  {
    var ctrl: int := src[i];
    if ctrl < 32 then
      if |out| + ctrl + 1 > cap then Stop(E2BIG)
      else if i + 1 + ctrl + 1 > |src| then Stop(EINVAL)
      else Next(i + ctrl + 2, out + src[i + 1..i + ctrl + 2])
    else if i + 1 >= |src| then Stop(EINVAL)
    else if ctrl / 32 == 7 then
      if i + 2 >= |src| then Stop(EINVAL)
      else BackRef(i + 3, 7 + src[i + 1] as int, ctrl % 32 * 256 + src[i + 2], out, cap)
    else BackRef(i + 2, ctrl / 32, ctrl % 32 * 256 + src[i + 1], out, cap)
  }

  function BackRef(i: nat, len: nat, off: nat, out: bytes, cap: nat): Step {
    if |out| + len + 2 > cap then Stop(E2BIG)
    else if |out| < off + 1 then Stop(EINVAL)
    else Next(i, Copy(out, |out| - off - 1, len + 2))
  }

  /** Decode the rest of a stream into an output of at most cap bytes. */
  function Decode(src: bytes, i: nat, out: bytes, cap: nat): Decoded
    requires i <= |src|
    decreases |src| - i
  {
    if i == |src| then Out(out)
    else
      match Token(src, i, out, cap)
      case Stop(e) => Fail(e)
      case Next(j, out') => if i < j <= |src| then Decode(src, j, out', cap) else Fail(EINVAL)
  }

  /** Two literals and a reference of 4 bytes from 2 back, which runs into its own
      output, in just the room it needs and in less; and one too far back. */
  lemma StreamExample()
    ensures Decode([1, 97, 98, 2 * 32, 1], 0, [], 6) == Out([97, 98, 97, 98, 97, 98])
    ensures Decode([1, 97, 98, 2 * 32, 1], 0, [], 5) == Fail(E2BIG)
    ensures Decode([1, 97, 98, 2 * 32, 2], 0, [], 6) == Fail(EINVAL)
  {
    var a: bytes := [1, 97, 98, 2 * 32, 1];
    assert [] + a[1..3] == [97, 98];
    assert Copy([97, 98], 0, 4) == Copy([97, 98, 97, 98], 2, 2) == [97, 98, 97, 98, 97, 98];
  }

  /** A literal and a reference in its long form: 9 bytes from 1 back. */
  lemma LongExample()
    ensures Decode([0, 97, 7 * 32, 0, 0], 0, [], 10) == Out([97, 97, 97, 97, 97, 97, 97, 97, 97, 97])
  {
    var a: bytes := [0, 97, 7 * 32, 0, 0];
    assert [] + a[1..2] == [97];
    assert Token(a, 2, [97], 10) == Next(5, Copy([97], 0, 9));
    CopyEqual([97], 0, 9);
    hide Copy;
    assert Copy([97], 0, 9) == [97, 97, 97, 97, 97, 97, 97, 97, 97, 97];
  }

  lemma {:induction false} CopyEqual(out: bytes, ref: nat, n: nat)
    requires ref < |out| && forall i :: 0 <= i < |out| ==> out[i] == out[0]
    ensures forall i :: 0 <= i < |out| + n ==> Copy(out, ref, n)[i] == out[0]
    decreases n
  {
    if n > 0 { CopyEqual(out + [out[ref]], ref + 1, n - 1); }
  }

  lemma TokenBounds(src: bytes, i: nat, out: bytes, cap: nat)
    requires i < |src| && Token(src, i, out, cap).Next?
    ensures var t := Token(src, i, out, cap);
            i < t.i <= |src| && |out| < |t.out| <= cap && out == t.out[..|out|]
  {
    var ctrl: int := src[i];
    if ctrl >= 32 {
      var t := Token(src, i, out, cap);
      var len := if ctrl / 32 == 7 then 7 + src[i + 1] as int else ctrl / 32;
      var off := ctrl % 32 * 256 + (if ctrl / 32 == 7 then src[i + 2] else src[i + 1]);
      CopyKeeps(out, |out| - off - 1, len + 2);
    }
  }

  lemma {:induction false} CopyKeeps(out: bytes, ref: nat, n: nat)
    requires ref < |out|
    ensures Copy(out, ref, n)[..|out|] == out
    decreases n
  {
    if n > 0 {
      var o := out + [out[ref]];
      CopyKeeps(o, ref + 1, n - 1);
      assert Copy(out, ref, n)[..|out|] == Copy(o, ref + 1, n - 1)[..|o|][..|out|];
    }
  }

  /** A token does not see what follows it. */
  lemma TokenLocal(s: bytes, t: bytes, i: nat, out: bytes, cap: nat)
    requires i < |s| && Token(s, i, out, cap).Next?
    ensures Token(s + t, i, out, cap) == Token(s, i, out, cap)
  {
    hide Copy;
    var ctrl: int := s[i];
    assert (s + t)[i] == s[i];
    if ctrl < 32 {
      assert (s + t)[i + 1..i + ctrl + 2] == s[i + 1..i + ctrl + 2];
    }
  }

  /** A decoded prefix can be continued. */
  lemma {:induction false} DecodeAppend(s: bytes, t: bytes, i: nat, out: bytes, cap: nat, r: bytes)
    requires i <= |s| && Decode(s, i, out, cap) == Out(r)
    ensures Decode(s + t, i, out, cap) == Decode(s + t, |s|, r, cap)
    decreases |s| - i
  {
    if i < |s| {
      TokenLocal(s, t, i, out, cap);
      hide Token;
      var step := Token(s, i, out, cap);
      DecodeAppend(s, t, step.i, step.out, cap, r);
    }
  }

  /** The stream s decodes to r. */
  ghost predicate Decodes(s: bytes, r: bytes, cap: nat) {
    Decode(s, 0, [], cap) == Out(r)
  }

  lemma AppendToken(s: bytes, t: bytes, r: bytes, r': bytes, cap: nat)
    requires Decodes(s, r, cap) && t != []
    requires Token(s + t, |s|, r, cap) == Next(|s + t|, r')
    ensures Decodes(s + t, r', cap)
  {
    hide Token;
    DecodeAppend(s, t, 0, [], cap, r);
  }

  /** A literal run of 1 to 32 bytes. */
  lemma AppendLiteral(s: bytes, r: bytes, lit: bytes, cap: nat)
    requires Decodes(s, r, cap) && 1 <= |lit| <= 32 && |r| + |lit| <= cap
    ensures Decodes(s + ([|lit| - 1] + lit), r + lit, cap)
  {
    var t: bytes := [|lit| - 1] + lit;
    var z := s + t;
    assert z[|s|] == |lit| - 1 && z[|s| + 1..|s| + 1 + |lit|] == lit;
    AppendToken(s, t, r, r + lit, cap);
  }

  /** The two or three bytes of a back reference to len bytes at distance off + 1. */
  function RefToken(off: nat, len: nat): (t: bytes)
    requires off < 8192 && 3 <= len <= 264
    ensures 2 <= |t| <= 3
  {
    var l := len - 2;
    if l < 7 then [off / 256 + l * 32, off % 256]
    else [off / 256 + 7 * 32, l - 7, off % 256]
  }

  /** What the decoder reads out of a back reference's bytes. */
  lemma RefFields(off: nat, len: nat)
    requires off < 8192 && 3 <= len <= 264
    ensures var t := RefToken(off, len);
            && t[0] as int / 32 == (if len < 9 then len - 2 else 7)
            && |t| == (if len < 9 then 2 else 3)
            && t[0] as int % 32 * 256 + t[|t| - 1] as int == off
            && (len >= 9 ==> t[1] as int + 9 == len)
  {
    var l := len - 2;
    assert off / 256 < 32;
    assert (off / 256 + (if l < 7 then l else 7) * 32) / 32 == (if l < 7 then l else 7);
    assert (off / 256 + (if l < 7 then l else 7) * 32) % 32 == off / 256;
  }

  lemma TokenRef(z: bytes, i: nat, out: bytes, cap: nat, off: nat, len: nat)
    requires 3 <= len <= 264 && i + (if len < 9 then 2 else 3) <= |z|
    requires z[i] as int / 32 == (if len < 9 then len - 2 else 7)
    requires z[i] as int % 32 * 256 + z[i + (if len < 9 then 1 else 2)] as int == off
    requires len >= 9 ==> z[i + 1] as int + 9 == len
    ensures Token(z, i, out, cap) == BackRef(i + (if len < 9 then 2 else 3), len - 2, off, out, cap)
  {
    hide BackRef;
  }

  lemma IndexRight<T>(s: seq<T>, t: seq<T>, k: nat)
    requires k < |t|
    ensures (s + t)[|s| + k] == t[k]
  {}

  lemma AppendRef(s: bytes, r: bytes, off: nat, len: nat, cap: nat)
    requires Decodes(s, r, cap) && off < 8192 && off < |r| && 3 <= len <= 264 && |r| + len <= cap
    ensures Decodes(s + RefToken(off, len), Copy(r, |r| - off - 1, len), cap)
  {
    var t := RefToken(off, len);
    RefFields(off, len);
    hide Copy, RefToken, Decodes, Token;
    IndexRight(s, t, 0);
    IndexRight(s, t, 1);
    IndexRight(s, t, |t| - 1);
    TokenRef(s + t, |s|, r, cap, off, len);
    AppendToken(s, t, r, Copy(r, |r| - off - 1, len), cap);
  }

  /** The len bytes at ref equal those at ip. */
  predicate Matches(input: bytes, ref: nat, ip: nat, len: nat) {
    ref < ip && ip + len <= |input| && forall k :: ip <= k < ip + len ==> input[k] == input[k - (ip - ref)]
  }

  /** Copying a stretch that equals the input's continuation reproduces it,
      also when the stretch overlaps its own copy. */
  lemma {:induction false} CopyMatches(input: bytes, ip: nat, ref: nat, len: nat)
    requires Matches(input, ref, ip, len)
    ensures Copy(input[..ip], ref, len) == input[..ip + len]
    decreases len
  {
    if len > 0 {
      assert input[ip] == input[ref];
      assert input[..ip] + [input[ref]] == input[..ip + 1];
      CopyMatches(input, ip + 1, ref + 1, len - 1);
    }
  }
}
