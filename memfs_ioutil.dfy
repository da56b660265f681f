/** The little-endian and length-prefixed encodings that the storage engine
    writes into byte vectors and reads back through file handles.  Writing
    into a vector `d` is modelled as `d + Encode…(x)`; reading is a method on
    a handle, specified by a pure function of the contents and the cursor. */
module IoUtil {
  import opened Base
  import opened MemFs

  /** The message of a failed UTF-8 check (its exact wording is not modelled). */
  const UTF8_ERROR: string := "invalid utf-8"

  function Pow256(k: nat): (r: nat)
    ensures r >= 1
  {
    if k == 0 then 1 else 256 * Pow256(k - 1)
  }

  lemma Pow256Widths()
    ensures Pow256(1) == 256 && Pow256(4) == U32_LIMIT && Pow256(8) == U64_LIMIT
  {
  }

  /** `to_le_bytes`: the k low-order bytes of x, least significant first. */
  function LeBytes(x: nat, k: nat): (r: seq<byte>)
    ensures |r| == k
  {
    if k == 0 then [] else [x % 256] + LeBytes(x / 256, k - 1)
  }

  /** `from_le_bytes`. */
  function LeValue(s: seq<byte>): (r: nat)
  {
    if s == [] then 0 else s[0] + 256 * LeValue(s[1..])
  }

  /** k bytes hold a value below 256^k. */
  lemma {:induction false} LeValueBound(s: seq<byte>)
    ensures LeValue(s) < Pow256(|s|)
    decreases |s|
  {
    if s != [] {
      LeValueBound(s[1..]);
    }
  }

  lemma {:induction false} LeRoundTrip(x: nat, k: nat)
    requires x < Pow256(k)
    ensures LeValue(LeBytes(x, k)) == x
  {
    if k > 0 {
      LeRoundTrip(x / 256, k - 1);
      assert LeBytes(x, k)[1..] == LeBytes(x / 256, k - 1);
    }
  }

  lemma {:induction false} LeBytesRoundTrip(s: seq<byte>)
    ensures LeBytes(LeValue(s), |s|) == s
  {
    if s != [] {
      LeBytesRoundTrip(s[1..]);
      var v := LeValue(s);
      assert v % 256 == s[0] && v / 256 == LeValue(s[1..]) by {
        ModUnique(v, 256, LeValue(s[1..]), s[0]);
      }
    }
  }

  // ---------------------------------------------------------------------------
  // Writing.

  function EncodeU8(x: byte): (r: seq<byte>)
    ensures |r| == 1 && LeValue(r) == x
  {
    [x]
  }

  function EncodeU32(x: u32): (r: seq<byte>)
    ensures |r| == 4
  {
    Pow256Widths();
    LeRoundTrip(x, 4);
    LeBytes(x, 4)
  }

  function EncodeU64(x: u64): (r: seq<byte>)
    ensures |r| == 8
  {
    Pow256Widths();
    LeRoundTrip(x, 8);
    LeBytes(x, 8)
  }

  /** `write_str`: the length as a u32 (truncated, as `as u32` does), then the
      bytes. */
  function EncodeStr(s: seq<byte>): (r: seq<byte>)
    ensures |r| == 4 + |s| && r[4..] == s
  {
    EncodeU32(|s| % U32_LIMIT) + s
  }

  lemma EncodeU32Value(x: u32)
    ensures LeValue(EncodeU32(x)) == x
  {
    Pow256Widths();
    LeRoundTrip(x, 4);
  }

  lemma EncodeU64Value(x: u64)
    ensures LeValue(EncodeU64(x)) == x
  {
    Pow256Widths();
    LeRoundTrip(x, 8);
  }

  /** The first four bytes of a written string are its length. */
  lemma EncodeStrLength(s: seq<byte>)
    ensures EncodeStr(s)[..4] == EncodeU32(|s| % U32_LIMIT)
    ensures LeValue(EncodeStr(s)[..4]) == |s| % U32_LIMIT
  {
    EncodeU32Value(|s| % U32_LIMIT);
  }

  /** The bytes the element writer appends for each element, in order. */
  function Concat<T>(a: seq<T>, w: T -> seq<byte>): seq<byte>
  {
    if a == [] then [] else w(a[0]) + Concat(a[1..], w)
  }

  /** `write_slice`: the count as a u32 (truncated), then each element as the
      writer encodes it. */
  function EncodeSlice<T>(a: seq<T>, w: T -> seq<byte>): (r: seq<byte>)
    ensures |r| == 4 + |Concat(a, w)|
  {
    EncodeU32(|a| % U32_LIMIT) + Concat(a, w)
  }

  /** The four leading bytes of a written slice are its count, the rest the
      elements' bytes. */
  lemma EncodeSliceLayout<T>(a: seq<T>, w: T -> seq<byte>)
    ensures LeValue(EncodeSlice(a, w)[..4]) == |a| % U32_LIMIT
    ensures EncodeSlice(a, w)[4..] == Concat(a, w)
  {
    var r := EncodeSlice(a, w);
    assert r[..4] == EncodeU32(|a| % U32_LIMIT);
    EncodeU32Value(|a| % U32_LIMIT);
  }

  // ---------------------------------------------------------------------------
  // Reading, as functions of the contents and the cursor.

  function ReadU8At(data: seq<byte>, p: nat): (r: (Result<byte, string>, nat))
  {
    var (res, p') := ReadExactAt(data, p, 1);
    if res.Err? then (Err(res.error), p') else (Ok(res.value[0]), p')
  }

  function ReadU32At(data: seq<byte>, p: nat): (r: (Result<u32, string>, nat))
  {
    var (res, p') := ReadExactAt(data, p, 4);
    if res.Err? then (Err(res.error), p')
    else
      Pow256Widths();
      LeValueBound(res.value);
      (Ok(LeValue(res.value)), p')
  }

  function ReadU64At(data: seq<byte>, p: nat): (r: (Result<u64, string>, nat))
  {
    var (res, p') := ReadExactAt(data, p, 8);
    if res.Err? then (Err(res.error), p')
    else
      Pow256Widths();
      LeValueBound(res.value);
      (Ok(LeValue(res.value)), p')
  }

  /** `read_string`: a u32 length, that many bytes, and a UTF-8 check. */
  function ReadStringAt(data: seq<byte>, p: nat): (r: (Result<seq<byte>, string>, nat))
    ensures r.0.Ok? ==> ValidUtf8(r.0.value) && r.1 == Min(p, |data|) + 4 + |r.0.value| <= |data|
    ensures r.0.Ok? ==> r.0.value == data[Min(p, |data|) + 4..r.1] && |r.0.value| < U32_LIMIT
  {
    var (n, p1) := ReadU32At(data, p);
    if n.Err? then (Err(n.error), p1)
    else
      var (bytes, p2) := ReadExactAt(data, p1, n.value);
      if bytes.Err? then (Err(bytes.error), p2)
      else if ValidUtf8(bytes.value) then (Ok(bytes.value), p2)
      else (Err(UTF8_ERROR), p2)
  }

  /** A reader of one element: what it returns and where it leaves the
      cursor, as a function of the contents and the cursor. */
  type Reader<T> = (seq<byte>, nat) -> (Result<T, string>, nat)

  /** n elements read one after the other; the first failure stops it. */
  function ReadItems<T>(data: seq<byte>, p: nat, n: nat, r: Reader<T>): (Result<seq<T>, string>, nat)
    decreases n
  {
    if n == 0 then (Ok([]), p)
    else
      var (x, p1) := r(data, p);
      if x.Err? then (Err(x.error), p1)
      else
        var (rest, p2) := ReadItems(data, p1, n - 1, r);
        if rest.Err? then (Err(rest.error), p2) else (Ok([x.value] + rest.value), p2)
  }

  /** `read_vec`: a u32 count, then that many elements. */
  function ReadVecAt<T>(data: seq<byte>, p: nat, r: Reader<T>): (Result<seq<T>, string>, nat)
  {
    var (n, p1) := ReadU32At(data, p);
    if n.Err? then (Err(n.error), p1) else ReadItems(data, p1, n.value, r)
  }

  // ---------------------------------------------------------------------------
  // Reading through a handle.

  method ReadU8(f: File) returns (r: Result<byte, string>)
    modifies f
    ensures (r, f.p) == ReadU8At(f.inner.data, old(f.p))
  {
    var fixed := new byte[1];
    var res := f.ReadExact(fixed);
    if res.Err? {
      return Err(res.error);
    }
    return Ok(fixed[0]);
  }

  method ReadU32(f: File) returns (r: Result<u32, string>)
    modifies f
    ensures (r, f.p) == ReadU32At(f.inner.data, old(f.p))
    ensures f.inner.data == old(f.inner.data)
  {
    var fixed := new byte[4];
    var res := f.ReadExact(fixed);
    if res.Err? {
      return Err(res.error);
    }
    Pow256Widths();
    LeValueBound(fixed[..]);
    return Ok(LeValue(fixed[..]));
  }

  method ReadU64(f: File) returns (r: Result<u64, string>)
    modifies f
    ensures (r, f.p) == ReadU64At(f.inner.data, old(f.p))
  {
    var fixed := new byte[8];
    var res := f.ReadExact(fixed);
    if res.Err? {
      return Err(res.error);
    }
    Pow256Widths();
    LeValueBound(fixed[..]);
    return Ok(LeValue(fixed[..]));
  }

  method ReadString(f: File) returns (r: Result<seq<byte>, string>)
    modifies f
    ensures (r, f.p) == ReadStringAt(f.inner.data, old(f.p))
  {
    var n := ReadU32(f);
    if n.Err? {
      return Err(n.error);
    }
    var buf := new byte[n.value];
    var res := f.ReadExact(buf);
    if res.Err? {
      return Err(res.error);
    }
    if ValidUtf8(buf[..]) {
      return Ok(buf[..]);
    }
    return Err(UTF8_ERROR);
  }

  /** `read_vec` with an element reader that only depends on the contents and
      the cursor. */
  method ReadVec<T>(f: File, r: Reader<T>) returns (res: Result<seq<T>, string>)
    modifies f
    ensures (res, f.p) == ReadVecAt(f.inner.data, old(f.p), r)
  {
    var data := f.inner.data;
    var n := ReadU32(f);
    if n.Err? {
      return Err(n.error);
    }
    var a: seq<T> := [];
    assert CombineItems(a, ReadItems(data, f.p, n.value, r)) == ReadVecAt(data, old(f.p), r) by {
      var rest := ReadItems(data, f.p, n.value, r);
      if rest.0.Ok? {
        assert [] + rest.0.value == rest.0.value;
      }
    }
    var i := 0;
    while i < n.value
      invariant 0 <= i <= n.value && f.inner.data == data
      invariant CombineItems(a, ReadItems(data, f.p, n.value - i, r)) == ReadVecAt(data, old(f.p), r)
      decreases n.value - i
    {
      var (x, p1) := r(f.inner.data, f.p);
      ghost var rest := ReadItems(data, p1, n.value - i - 1, r);
      f.p := p1;
      if x.Err? {
        return Err(x.error);
      }
      if rest.0.Ok? {
        assert (a + [x.value]) + rest.0.value == a + ([x.value] + rest.0.value);
      }
      a := a + [x.value];
      i := i + 1;
    }
    assert a + [] == a;
    res := Ok(a);
  }

  /** What reading the rest yields once the elements a are already read. */
  function CombineItems<T>(a: seq<T>, rest: (Result<seq<T>, string>, nat)): (Result<seq<T>, string>, nat)
  {
    if rest.0.Err? then rest else (Ok(a + rest.0.value), rest.1)
  }

  // ---------------------------------------------------------------------------
  // Reading from a byte slice.

  /** `read_buf_u32`: the first four bytes as a little-endian u32 (fewer than
      four bytes is a panic). */
  function ReadBufU32(d: seq<byte>): (r: u32)
    requires |d| >= 4
    ensures r == LeValue(d[..4])
  {
    Pow256Widths();
    LeValueBound(d[..4]);
    LeValue(d[..4])
  }

  /** `read_buf_str`: the string that follows the length; a short slice or
      bytes that are not UTF-8 are a panic. */
  function ReadBufStr(d: seq<byte>): (r: seq<byte>)
    requires |d| >= 4 && 4 + ReadBufU32(d) <= |d|
    requires ValidUtf8(d[4..4 + ReadBufU32(d)])
    ensures ValidUtf8(r) && |r| == ReadBufU32(d)
  {
    d[4..4 + ReadBufU32(d)]
  }

  // ---------------------------------------------------------------------------
  // Round trips.

  lemma ReadU32AtEncode(pre: seq<byte>, x: u32, post: seq<byte>)
    ensures ReadU32At(pre + EncodeU32(x) + post, |pre|) == (Ok(x), |pre| + 4)
  {
    ReadExactAtSplit(pre, EncodeU32(x), post);
    EncodeU32Value(x);
  }

  lemma ReadU64AtEncode(pre: seq<byte>, x: u64, post: seq<byte>)
    ensures ReadU64At(pre + EncodeU64(x) + post, |pre|) == (Ok(x), |pre| + 8)
  {
    ReadExactAtSplit(pre, EncodeU64(x), post);
    EncodeU64Value(x);
  }

  lemma ReadU8AtEncode(pre: seq<byte>, x: byte, post: seq<byte>)
    ensures ReadU8At(pre + EncodeU8(x) + post, |pre|) == (Ok(x), |pre| + 1)
  {
    ReadExactAtSplit(pre, EncodeU8(x), post);
  }

  /** A string of fewer than 2^32 bytes that is UTF-8 reads back as itself,
      wherever it sits in the file. */
  lemma ReadStringAtEncode(pre: seq<byte>, s: seq<byte>, post: seq<byte>)
    requires |s| < U32_LIMIT && ValidUtf8(s)
    ensures ReadStringAt(pre + EncodeStr(s) + post, |pre|) == (Ok(s), |pre| + 4 + |s|)
  {
    LengthThenBytes(pre, s, post);
  }

  /** Bytes that are not UTF-8 come back as an error, after the cursor moved
      past them. */
  lemma ReadStringAtRejects(pre: seq<byte>, s: seq<byte>, post: seq<byte>)
    requires |s| < U32_LIMIT && !ValidUtf8(s)
    ensures ReadStringAt(pre + EncodeStr(s) + post, |pre|) == (Err(UTF8_ERROR), |pre| + 4 + |s|)
  {
    LengthThenBytes(pre, s, post);
  }

  /** The two reads `read_string` makes on a written string. */
  lemma LengthThenBytes(pre: seq<byte>, s: seq<byte>, post: seq<byte>)
    requires |s| < U32_LIMIT
    ensures var data := pre + EncodeStr(s) + post;
            ReadU32At(data, |pre|) == (Ok(|s| as u32), |pre| + 4)
            && ReadExactAt(data, |pre| + 4, |s|) == (Ok(s), |pre| + 4 + |s|)
  {
    var len := EncodeU32(|s|);
    var data := pre + EncodeStr(s) + post;
    assert data == pre + len + (s + post);
    ReadU32AtEncode(pre, |s|, s + post);
    assert data == (pre + len) + s + post;
    ReadExactAtSplit(pre + len, s, post);
  }

  /** Any read at the end of the data fails with "EOF" (the storage engine's
      loaders stop on exactly that message). */
  lemma ReadStringAtEnd(data: seq<byte>, p: nat)
    requires p >= |data|
    ensures ReadStringAt(data, p) == (Err("EOF"), |data|)
    ensures ReadU64At(data, p) == (Err("EOF"), |data|)
  {
  }

  /** The reader, at the start of what the writer wrote, returns the element
      and stops just after it, whatever surrounds it. */
  ghost predicate Inverts<T(!new)>(r: Reader<T>, w: T -> seq<byte>)
  {
    forall x, before, after :: r(before + w(x) + after, |before|) == (Ok(x), |before| + |w(x)|)
  }

  /** An element reader that inverts the element writer makes `read_vec`
      invert `write_slice`. */
  lemma ReadVecAtEncode<T(!new)>(pre: seq<byte>, a: seq<T>, post: seq<byte>, w: T -> seq<byte>, r: Reader<T>)
    requires |a| < U32_LIMIT
    requires Inverts(r, w)
    ensures ReadVecAt(pre + EncodeSlice(a, w) + post, |pre|, r) == (Ok(a), |pre| + 4 + |Concat(a, w)|)
  {
    var n: u32 := |a|;
    var len, body := EncodeU32(n), Concat(a, w);
    EncodeSliceParts(a, w, n);
    var data := pre + len + (body + post);
    ConcatAssoc(pre, len, body, post);
    assert pre + EncodeSlice(a, w) + post == data by {
      ConcatAssoc3(pre, len + body, post);
      ConcatAssoc3(len, body, post);
    }
    ReadU32AtEncode(pre, n, body + post);
    ReadItemsEncode(pre + len, a, post, w, r);
    ReadVecAtUnfold(data, |pre|, r);
  }

  lemma EncodeSliceParts<T>(a: seq<T>, w: T -> seq<byte>, n: u32)
    requires n == |a|
    ensures EncodeSlice(a, w) == EncodeU32(n) + Concat(a, w)
  {
  }

  lemma ReadVecAtUnfold<T>(data: seq<byte>, p: nat, r: Reader<T>)
    requires ReadU32At(data, p).0.Ok?
    ensures ReadVecAt(data, p, r) == ReadItems(data, ReadU32At(data, p).1, ReadU32At(data, p).0.value, r)
  {
  }

  lemma {:induction false} ReadItemsEncode<T(!new)>(pre: seq<byte>, a: seq<T>, post: seq<byte>, w: T -> seq<byte>, r: Reader<T>)
    requires Inverts(r, w)
    ensures ReadItems(pre + Concat(a, w) + post, |pre|, |a|, r) == (Ok(a), |pre| + |Concat(a, w)|)
    decreases |a|
  {
    if a != [] {
      var data := pre + Concat(a, w) + post;
      assert data == pre + w(a[0]) + (Concat(a[1..], w) + post);
      assert r(data, |pre|) == (Ok(a[0]), |pre| + |w(a[0])|);
      assert data == (pre + w(a[0])) + Concat(a[1..], w) + post;
      ReadItemsEncode(pre + w(a[0]), a[1..], post, w, r);
      assert [a[0]] + a[1..] == a;
    }
  }

  lemma ReadBufStrEncode(s: seq<byte>, post: seq<byte>)
    requires |s| < U32_LIMIT && ValidUtf8(s)
    ensures |EncodeStr(s) + post| >= 4 && ReadBufU32(EncodeStr(s) + post) == |s|
    ensures ReadBufStr(EncodeStr(s) + post) == s
  {
    var e := EncodeStr(s);
    var d := e + post;
    assert d[..|e|] == e;
    assert d[..4] == e[..4];
    EncodeStrLength(s);
    assert |s| % U32_LIMIT == |s|;
    assert LeValue(d[..4]) == |s|;
    assert d[4..4 + |s|] == e[4..];
  }
}
