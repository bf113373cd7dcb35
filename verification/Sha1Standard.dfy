// SHA-1 as FIPS 180-4 defines it: sections 4.1.1 and 4.2.1 (functions and
// constants), 5.1.1 (padding), 5.3.1 (initial value) and 6.1.2 (computation).
module Sha1Standard {

  type word = bv32
  type octet = bv8

  function Rol1(x: word): word { (x << 1) | (x >> 31) }

  function Rol5(x: word): word { (x << 5) | (x >> 27) }

  function Rol30(x: word): word { (x << 30) | (x >> 2) }

  function Ch(x: word, y: word, z: word): word { (x & y) ^ (!x & z) }

  function Parity(x: word, y: word, z: word): word { x ^ y ^ z }

  function Maj(x: word, y: word, z: word): word { (x & y) ^ (x & z) ^ (y & z) }

  function F(t: nat, x: word, y: word, z: word): word {
    if t < 20 then Ch(x, y, z)
    else if t < 40 then Parity(x, y, z)
    else if t < 60 then Maj(x, y, z)
    else Parity(x, y, z)
  }

  function K(t: nat): word {
    if t < 20 then 0x5A827999
    else if t < 40 then 0x6ED9EBA1
    else if t < 60 then 0x8F1BBCDC
    else 0xCA62C1D6
  }

  datatype State = State(a: word, b: word, c: word, d: word, e: word)

  function Initial(): State { State(0x67452301, 0xEFCDAB89, 0x98BADCFE, 0x10325476, 0xC3D2E1F0) }

  /** The message schedule of a block of 16 words. */
  function W(m: seq<word>, t: nat): word
    requires |m| == 16
  {
    if t < 16 then m[t] else Rol1(W(m, t - 3) ^ W(m, t - 8) ^ W(m, t - 14) ^ W(m, t - 16))
  }

  function Total(r: word, f: word, e: word, k: word, w: word): word { r + f + e + k + w }

  function Step(s: State, t: nat, w: word): State {
    State(Total(Rol5(s.a), F(t, s.b, s.c, s.d), s.e, K(t), w), s.a, Rol30(s.b), s.c, s.d)
  }

  /** The working variables after t steps. */
  function Steps(s: State, m: seq<word>, t: nat): State
    requires |m| == 16
  {
    if t == 0 then s else Step(Steps(s, m, t - 1), t - 1, W(m, t - 1))
  }

  function Add(s: State, r: State): State { State(s.a + r.a, s.b + r.b, s.c + r.c, s.d + r.d, s.e + r.e) }

  function BigWord(p: octet, q: octet, r: octet, s: octet): word {
    ((p as word) << 24) | ((q as word) << 16) | ((r as word) << 8) | (s as word)
  }

  function Words(block: seq<octet>): (m: seq<word>)
    requires |block| == 64
    ensures |m| == 16
  {
    seq(16, i requires 0 <= i < 16 => BigWord(block[4 * i], block[4 * i + 1], block[4 * i + 2], block[4 * i + 3]))
  }

  function Compress(s: State, block: seq<octet>): State
    requires |block| == 64
  {
    Add(s, Steps(s, Words(block), 80))
  }

  /** All complete blocks of s, in turn. */
  function Process(h: State, s: seq<octet>): State
    decreases |s|
  {
    if |s| < 64 then h else Process(Compress(h, s[..64]), s[64..])
  }

  function Octet(n: nat): octet { (n % 256) as octet }

  function Big64(n: nat): (r: seq<octet>)
    ensures |r| == 8
  {
    [Octet(n / 0x100_0000_0000_0000), Octet(n / 0x1_0000_0000_0000), Octet(n / 0x100_0000_0000), Octet(n / 0x1_0000_0000),
     Octet(n / 0x100_0000), Octet(n / 0x1_0000), Octet(n / 0x100), Octet(n)]
  }

  /** The smallest number of zero octets that makes the padded length fit. */
  function ZeroCount(len: nat): (k: nat)
    ensures (len + 1 + k) % 64 == 56 && k < 64
  {
    (55 + 64 - len % 64) % 64
  }

  function Zeros(k: nat): seq<octet> { seq(k, _ => 0) }

  function Padded(msg: seq<octet>): seq<octet> {
    msg + [0x80] + Zeros(ZeroCount(|msg|)) + Big64(8 * |msg|)
  }

  function WordOctets(w: word): seq<octet> {
    [((w >> 24) & 255) as octet, ((w >> 16) & 255) as octet, ((w >> 8) & 255) as octet, (w & 255) as octet]
  }

  function DigestOf(s: State): seq<octet> {
    WordOctets(s.a) + WordOctets(s.b) + WordOctets(s.c) + WordOctets(s.d) + WordOctets(s.e)
  }

  function Sha1(msg: seq<octet>): seq<octet> {
    DigestOf(Process(Initial(), Padded(msg)))
  }

  // ------------------------------------------------------------------- blocks

  lemma {:induction false} ProcessAppend(h: State, s: seq<octet>, u: seq<octet>)
    requires |s| % 64 == 0
    ensures Process(h, s + u) == Process(Process(h, s), u)
    decreases |s|
  {
    hide Compress;
    if |s| < 64 {
      assert s + u == u;
    } else {
      assert (s + u)[..64] == s[..64] && (s + u)[64..] == s[64..] + u;
      ProcessAppend(Compress(h, s[..64]), s[64..], u);
    }
  }

  /** A short rest is not processed. */
  lemma ProcessRest(h: State, s: seq<octet>, rest: seq<octet>)
    requires |s| % 64 == 0 && |rest| < 64
    ensures Process(h, s + rest) == Process(h, s)
  {
    hide Compress;
    ProcessAppend(h, s, rest);
  }

  lemma ProcessBlock(h: State, s: seq<octet>, block: seq<octet>)
    requires |s| % 64 == 0 && |block| == 64
    ensures Process(h, s + block) == Compress(Process(h, s), block)
  {
    hide Compress;
    ProcessAppend(h, s, block);
    var g := Process(h, s);
    assert block[..64] == block && Process(Compress(g, block), block[64..]) == Compress(g, block);
  }
}
