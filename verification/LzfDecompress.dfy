// lzf_decompress (lzf_d.c), with CHECK_INPUT, filling the output in place.
module LzfDecompress {
  import opened Bytes
  import opened LzfFormat

  /** Octet by octet copy inside the output buffer. */
  method CopyOctets(out: array<u8>, op: nat, ref: nat, n: nat)
    requires ref < op && op + n <= out.Length
    modifies out
    ensures out[..op + n] == Copy(old(out[..op]), ref, n)
  {
    var k := 0;
    ghost var goal := Copy(out[..op], ref, n);
    while k < n
      invariant 0 <= k <= n
      invariant goal == Copy(out[..op + k], ref + k, n - k)
    {
      ghost var was := out[..op + k];
      out[op + k] := out[ref + k];
      assert out[..op + k + 1] == was + [was[ref + k]];
      k := k + 1;
    }
  }

  /** A disjoint area copied at once. */
  method CopyBlock(out: array<u8>, op: nat, ref: nat, n: nat)
    requires ref < op && op >= ref + n && op + n <= out.Length
    modifies out
    ensures out[..op + n] == Copy(old(out[..op]), ref, n)
  {
    ghost var was := out[..op];
    forall k | 0 <= k < n {
      out[op + k] := out[ref + k];
    }
    assert out[..op + n] == was + was[ref..ref + n];
    CopyDisjoint(was, ref, n);
  }

  lemma {:induction false} CopyDisjoint(out: bytes, ref: nat, n: nat)
    requires ref < |out| && ref + n <= |out|
    ensures Copy(out, ref, n) == out + out[ref..ref + n]
    decreases n
  {
    if n > 0 {
      var o := out + [out[ref]];
      CopyDisjoint(o, ref + 1, n - 1);
      assert o[ref + 1..ref + n] == out[ref + 1..ref + n];
      assert out[ref..ref + n] == [out[ref]] + out[ref + 1..ref + n];
    }
  }

  /** The copy of a back reference: at once when disjoint, else octet by octet. */
  method CopyRef(out: array<u8>, op: nat, ref: nat, len: nat)
    requires ref < op && op + len + 2 <= out.Length
    modifies out
    ensures out[..op + len + 2] == Copy(old(out[..op]), ref, len + 2)
  {
    if len > 9 && op >= ref + (len + 2) {
      CopyBlock(out, op, ref, len + 2);
    } else {
      CopyOctets(out, op, ref, len + 2);
    }
  }

  /** A literal run of n bytes. */
  method CopyLiteral(src: bytes, ip: nat, out: array<u8>, op: nat, n: nat)
    requires ip + n <= |src| && op + n <= out.Length
    modifies out
    ensures out[..op + n] == old(out[..op]) + src[ip..ip + n]
  {
    ghost var was := out[..op];
    forall k | 0 <= k < n {
      out[op + k] := src[ip + k];
    }
    assert out[..op + n] == was + src[ip..ip + n];
  }

  /** The back reference whose control byte was just read. */
  method DecodeRef(src: bytes, at: nat, out: array<u8>, op: nat) returns (errno: Errno, ok: bool, ip: nat, op': nat)
    requires at < |src| && src[at] >= 32 && op <= out.Length
    modifies out
    ensures op' <= out.Length
    ensures Token(src, at, old(out[..op]), out.Length) == if ok then Next(ip, out[..op']) else Stop(errno)
  {
    hide Copy;
    var ctrl: int := src[at];
    ip, op' := at + 1, op;
    var len := ctrl / 32;
    var ref := op - ctrl % 32 * 256 - 1;
    if ip >= |src| { return EINVAL, false, ip, op; }
    if len == 7 {
      len := len + src[ip];
      ip := ip + 1;
      if ip >= |src| { return EINVAL, false, ip, op; }
    }
    ref := ref - src[ip];
    ip := ip + 1;
    if op + len + 2 > out.Length { return E2BIG, false, ip, op; }
    if ref < 0 { return EINVAL, false, ip, op; }
    CopyRef(out, op, ref, len);
    return EINVAL, true, ip, op + len + 2;
  }

  /** Returns the number of bytes written, or 0 and the error. */
  method Decompress(src: bytes, out: array<u8>) returns (n: nat, errno: Errno)
    requires |src| >= 1
    modifies out
    ensures match Decode(src, 0, [], out.Length)
            case Out(data) => n == |data| > 0 && n <= out.Length && out[..n] == data
            case Fail(e) => n == 0 && errno == e
  {
    hide Copy, Decode, BackRef;
    errno := EINVAL;
    var ip, op: nat := 0, 0;
    assert out[..op] == [];
    while ip < |src|
      invariant ip <= |src| && op <= out.Length && (ip > 0 ==> op > 0)
      invariant Decode(src, 0, [], out.Length) == Decode(src, ip, out[..op], out.Length)
      decreases |src| - ip
    {
      ghost var i, data := ip, out[..op];
      DecodeStep(src, i, data, out.Length);
      if src[ip] < 32 {
        var ctrl := src[ip] as int + 1;
        ip := ip + 1;
        if op + ctrl > out.Length { return 0, E2BIG; }
        if ip + ctrl > |src| { return 0, EINVAL; }
        CopyLiteral(src, ip, out, op, ctrl);
        op, ip := op + ctrl, ip + ctrl;
      } else {
        var ok;
        errno, ok, ip, op := DecodeRef(src, ip, out, op);
        if !ok { return 0, errno; }
        hide Token;
      }
    }
    DecodeEnd(src, out[..op], out.Length);
    return op, EINVAL;
  }

  lemma DecodeStep(src: bytes, i: nat, out: bytes, cap: nat)
    requires i < |src|
    ensures match Token(src, i, out, cap)
            case Stop(e) => Decode(src, i, out, cap) == Fail(e)
            case Next(j, out') => i < j <= |src| && |out'| > |out| && Decode(src, i, out, cap) == Decode(src, j, out', cap)
  {
    if Token(src, i, out, cap).Next? { TokenBounds(src, i, out, cap); }
    hide Token;
  }

  lemma DecodeEnd(src: bytes, out: bytes, cap: nat)
    ensures Decode(src, |src|, out, cap) == Out(out)
  {}
}
