// String objects and their encodings (object.c).
module Objects {
  import opened Bytes
  import opened Util
  import opened SkiplistShape

  const OBJ_ENCODING_EMBSTR_SIZE_LIMIT: nat := 44

  datatype Object = Raw(text: bytes) | Embstr(text: bytes) | Int(value: int)

  predicate Fits(o: Object) { o.Int? ==> IsI64(o.value) }

  /** The string an object stands for. */
  function TextOf(o: Object): bytes {
    if o.Int? then Text(o.value) else o.text
  }

  /** stringObjectLen. */
  function StringObjectLen(o: Object): (n: nat)
    requires Fits(o)
    ensures n == |TextOf(o)|
  {
    if o.Int? then Sdigits10Exact(o.value); Sdigits10(o.value) else |o.text|
  }

  lemma IntTextLength(v: int)
    requires IsI64(v)
    ensures |Text(v)| <= 20
  {
    Sdigits10Exact(v);
    Digits10Bound(if v < 0 then -v else v);
  }

  lemma Digits10Bound(v: nat)
    requires v <= 0x8000_0000_0000_0000
    ensures Digits10(v) <= 19
  {
    assert v < 1000000000000 ==> Digits10(v) <= 12;
    assert v / 1000000000000 < 10000000;
  }

  /** tryObjectEncoding: the string stays the same, and an unshared object is
      integer encoded afterwards exactly when it can be. */
  method TryObjectEncoding(o: Object, refcount: nat) returns (r: Object)
    requires Fits(o)
    ensures Fits(r) && TextOf(r) == TextOf(o)
    ensures o.Int? || refcount > 1 ==> r == o
    ensures !o.Int? && refcount <= 1 ==> (r.Int? <==> IsIntText(TextOf(o)))
    ensures !o.Int? && refcount <= 1 && !r.Int? ==> (r.Raw? <==> o.Raw? && |o.text| > OBJ_ENCODING_EMBSTR_SIZE_LIMIT)
  {
    hide Text, IsIntText;
    if o.Int? || refcount > 1 { return o; }
    var s := o.text;
    var ok, value := false, 0;
    if |s| <= 20 { ok, value := String2Ll(s); }
    LongIsNoInt(s);
    if ok { return Int(value); }
    if |s| <= OBJ_ENCODING_EMBSTR_SIZE_LIMIT { return Embstr(s); }
    return o;
  }

  lemma LongIsNoInt(s: bytes)
    ensures |s| > 20 ==> !IsIntText(s)
  {
    if IsIntText(s) {
      var v :| IsI64(v) && Text(v) == s;
      IntTextLength(v);
    }
  }

  /** getDecodedObject. */
  method GetDecodedObject(o: Object) returns (r: Object)
    requires Fits(o)
    ensures !r.Int? && TextOf(r) == TextOf(o)
  {
    hide Text;
    if !o.Int? { return o; }
    var text := IntText(o.value);
    r := if |text| <= OBJ_ENCODING_EMBSTR_SIZE_LIMIT then Embstr(text) else Raw(text);
  }

  /** ll2string into a local buffer. */
  method IntText(v: int) returns (text: bytes)
    requires IsI64(v)
    ensures text == Text(v)
  {
    hide Text;
    var buf := new u8[32](_ => 0);
    IntTextLength(v);
    var len := Ll2String(buf, 32, v);
    assert buf[..len] == Text(v);
    text := buf[..len];
  }

  /** memcmp on the first n bytes. */
  method Memcmp(a: bytes, b: bytes, n: nat) returns (c: int)
    requires n <= |a| && n <= |b|
    ensures c == 0 ==> a[..n] == b[..n]
    ensures c != 0 ==> (c < 0 <==> Before(a, b)) && a != b
  {
    var i := 0;
    assert a[0..] == a && b[0..] == b;
    while i < n
      invariant i <= n && a[..i] == b[..i] && (Before(a, b) <==> Before(a[i..], b[i..]))
    {
      if a[i] != b[i] { return a[i] as int - b[i] as int; }
      assert a[i..][1..] == a[i + 1..] && b[i..][1..] == b[i + 1..];
      assert a[..i + 1] == b[..i + 1];
      i := i + 1;
    }
    return 0;
  }

  lemma CommonPrefix(a: bytes, b: bytes, n: nat)
    requires n <= |a| && n <= |b| && a[..n] == b[..n] && (n == |a| || n == |b|)
    ensures Before(a, b) <==> |a| < |b|
    ensures a == b <==> |a| == |b|
  {
    assert a == a[..n] + a[n..] && b == b[..n] + b[n..];
    SharedStart(a[..n], a[n..], b[n..]);
  }

  lemma {:induction false} SharedStart(p: bytes, x: bytes, y: bytes)
    requires x == [] || y == []
    ensures Before(p + x, p + y) <==> |x| < |y|
  {
    if p == [] {
      assert p + x == x && p + y == y;
    } else {
      assert (p + x)[1..] == p[1..] + x && (p + y)[1..] == p[1..] + y;
      SharedStart(p[1..], x, y);
    }
  }

  /** compareStringObjects: the order of the strings, whatever the encodings. */
  method CompareStringObjects(a: Object, b: Object) returns (c: int)
    requires Fits(a) && Fits(b)
    ensures c == 0 <==> TextOf(a) == TextOf(b)
    ensures c < 0 <==> Before(TextOf(a), TextOf(b))
  {
    hide Text, Before;
    if a == b {
      BeforeTotal(TextOf(a), TextOf(b));
      return 0;
    }
    var astr, bstr;
    if a.Int? { astr := IntText(a.value); } else { astr := a.text; }
    if b.Int? { bstr := IntText(b.value); } else { bstr := b.text; }
    var minlen := if |astr| < |bstr| then |astr| else |bstr|;
    c := Memcmp(astr, bstr, minlen);
    if c == 0 {
      CommonPrefix(astr, bstr, minlen);
      c := |astr| - |bstr|;
    }
  }

  /** equalStringObjects decides equality of the strings. */
  method EqualStringObjects(a: Object, b: Object) returns (equal: bool)
    requires Fits(a) && Fits(b)
    ensures equal <==> TextOf(a) == TextOf(b)
  {
    hide Text;
    if a.Int? && b.Int? {
      if Text(a.value) == Text(b.value) { TextInjective(a.value, b.value); }
      return a.value == b.value;
    }
    var c := CompareStringObjects(a, b);
    return c == 0;
  }
}
