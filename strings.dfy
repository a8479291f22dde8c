/** string.h: the `string` view (a byte pointer and a size, not owned and not
    necessarily terminated), its construction from C strings and from an arena,
    sub-range copies and comparison. */
module Strings {
  import opened Base

  /** The C `string`: `size` bytes starting at `data`. */
  datatype String = String(data: Ptr, size: U64)

  /** `null_string`: a null pointer and no bytes. */
  const NullString: String := String(Null, 0)

  /** The view covers bytes that can actually be read through its pointer. */
  predicate Valid(s: String)
    reads if s.data.At? then {s.data.buf} else {}
  {
    s.size <= |Mem(s.data)|
  }

  /** The bytes a view stands for. */
  function Contents(s: String): seq<Byte>
    requires Valid(s)
    reads if s.data.At? then {s.data.buf} else {}
  {
    Mem(s.data)[..s.size]
  }

  /** `p` points to a zero-terminated C string whose length fits a `u64`. */
  predicate CString(p: Ptr)
    reads if p.At? then {p.buf} else {}
  {
    0 in Mem(p) && ZeroIndex(Mem(p)) < U64_MOD
  }

  lemma NullStringIsEmpty()
    ensures NullString.data.Null? && Valid(NullString) && Contents(NullString) == []
  {
  }

  // ---------------------------------------------------------------------------
  // Length of a C string

  /** `cstr_length` as written: advances to the terminator, then returns the
      start pointer minus the end pointer, reduced modulo 2^64. */
  method CStrLengthAsWritten(s: Ptr) returns (r: U64)
    requires 0 in Mem(s)
    ensures r == ToU64(-(ZeroIndex(Mem(s)) as int))
  {
    ghost var m := Mem(s);
    ghost var z := ZeroIndex(m);
    var start := s.off;
    var cur := s.off;
    while s.buf[cur] != 0
      invariant s.off <= cur <= s.off + z
      decreases s.off + z - cur
    {
      assert s.buf[cur] == m[cur - s.off];
      cur := cur + 1;
    }
    assert m[cur - s.off] == 0;
    assert cur == s.off + z;
    r := ToU64(start as int - cur);
  }

  /** `cstr_length` corrected: the end pointer minus the start pointer. */
  method CStrLength(s: Ptr) returns (r: U64)
    requires CString(s)
    ensures r == ZeroIndex(Mem(s))
    ensures r < |Mem(s)| && Mem(s)[r] == 0
    ensures forall i :: 0 <= i < r ==> Mem(s)[i] != 0
  {
    ghost var m := Mem(s);
    ghost var z := ZeroIndex(m);
    var start := s.off;
    var cur := s.off;
    while s.buf[cur] != 0
      invariant s.off <= cur <= s.off + z
      decreases s.off + z - cur
    {
      assert s.buf[cur] == m[cur - s.off];
      cur := cur + 1;
    }
    assert m[cur - s.off] == 0;
    r := cur - start;
  }

  /** The count `cstr_length` as written reports equals the real length only
      for the empty string (and for a string of exactly 2^63 bytes); any other
      non-empty string of n bytes is reported as 2^64 - n bytes long. */
  lemma CStrLengthAsWrittenMisreports(n: nat)
    requires n < U64_MOD
    ensures ToU64(-(n as int)) == n <==> n == 0 || n == U64_MOD / 2
    ensures 0 < n ==> ToU64(-(n as int)) == U64_MOD - n
  {
  }

  /** Through `str`, the as-written length reaches the `(int)` byte count handed
      to the UTF-16 conversion in `win32_utf8_to_utf16` as the negated length. */
  lemma AsWrittenLengthReachesConversionNegated(n: nat)
    requires 0 < n < 0x8000_0000
    ensures ToI32(ToU64(-(n as int))) == -(n as int)
  {
  }

  /** `str` as written: keeps the pointer, takes the size from `cstr_length`. */
  method StrAsWritten(s: Ptr) returns (r: String)
    requires 0 in Mem(s)
    ensures r.data == s && r.size == ToU64(-(ZeroIndex(Mem(s)) as int))
  {
    var n := CStrLengthAsWritten(s);
    r := String(s, n);
  }

  /** `str` with the corrected length: a view of the bytes before the terminator. */
  method Str(s: Ptr) returns (r: String)
    requires CString(s)
    ensures r.data == s && Valid(r) && r.size == ZeroIndex(Mem(s))
    ensures r.size < |Mem(s)| && Mem(s)[r.size] == 0
    ensures 0 !in Contents(r)
  {
    var n := CStrLength(s);
    r := String(s, n);
  }

  // ---------------------------------------------------------------------------
  // Arena allocation and trimming

  /** The external arena: hands out fresh blocks of exactly the requested size.
      `blocks` records every block handed out, in order. */
  class Arena {
    ghost var blocks: seq<array<Byte>>

    constructor ()
      ensures blocks == []
    {
      blocks := [];
    }

    method Alloc(size: U64) returns (buf: array<Byte>)
      modifies this
      ensures fresh(buf) && buf.Length == size
      ensures blocks == old(blocks) + [buf]
    {
      buf := Malloc(size);
      blocks := blocks + [buf];
    }
  }

  /** `string_alloc`: a view of exactly `size` bytes over a fresh arena block. */
  method StringAlloc(arena: Arena, size: U64) returns (s: String)
    modifies arena
    ensures s.data.At? && fresh(s.data.buf) && s.data.off == 0
    ensures s.data.buf.Length == size && s.size == size && Valid(s)
    ensures arena.blocks == old(arena.blocks) + [s.data.buf]
  {
    var buf := arena.Alloc(size);
    s := String(At(buf, 0), size);
  }

  /** `memcpy` from `s.data + start` reads the whole result size from memory. */
  predicate TrimReadable(m: seq<Byte>, start: U64, end: U64)
  {
    var n := ToU64(end - start + 1);
    n == 0 || start + n <= |m|
  }

  /** What `string_trim` copies out of readable memory `m`: `end - start + 1`
      bytes (as a `u64`) from `start` on. */
  function TrimmedBytes(m: seq<Byte>, start: U64, end: U64): (t: seq<Byte>)
    requires TrimReadable(m, start, end)
  {
    var n := ToU64(end - start + 1);
    if n == 0 then [] else m[start..start + n]
  }

  /** `string_trim`: copies bytes `start..end` (inclusive) into a fresh arena
      string; the source is left as it was. */
  method StringTrim(arena: Arena, s: String, start: U64, end: U64) returns (r: String)
    requires TrimReadable(Mem(s.data), start, end)
    modifies arena
    ensures r.data.At? && fresh(r.data.buf) && r.data.off == 0
    ensures r.size == ToU64(end - start + 1) && Valid(r)
    ensures Contents(r) == TrimmedBytes(Mem(s.data), start, end)
    ensures s.data.At? ==> unchanged(s.data.buf)
  {
    r := StringAlloc(arena, ToU64(end - start + 1));
    if r.size > 0 {
      var src, dst := s.data, r.data.buf;
      forall i | 0 <= i < r.size {
        dst[i] := src.buf[src.off + start + i];
      }
    }
  }

  /** Within the view, `string_trim` yields exactly the inclusive range
      `start..end` of the view's bytes, `end - start + 1` of them. */
  lemma TrimWithinView(m: seq<Byte>, size: U64, start: U64, end: U64)
    requires size <= |m| && start <= end < size
    ensures TrimReadable(m, start, end)
    ensures |TrimmedBytes(m, start, end)| == end - start + 1
    ensures TrimmedBytes(m, start, end) == m[..size][start..end + 1]
  {
    assert ToU64(end - start + 1) == end - start + 1;
  }

  /** With `end < start` the size wraps: zero bytes when `start == end + 1`,
      otherwise 2^64 - (start - end - 1) bytes, more than 2^64 - start, which
      no block can hold past offset `start`. */
  lemma TrimReversedBoundsWrap(start: U64, end: U64)
    requires end < start
    ensures start == end + 1 ==> ToU64(end - start + 1) == 0
    ensures start > end + 1 ==> ToU64(end - start + 1) == U64_MOD + end + 1 - start
    ensures start > end + 1 ==> ToU64(end - start + 1) > U64_MOD - start
  {
  }

  // ---------------------------------------------------------------------------
  // Comparison

  /** The scan of `string_compare` stays inside readable memory: it meets a
      terminator of `x` or a mismatch before running off `x` or `y`. */
  predicate ScanDefined(x: seq<Byte>, y: seq<Byte>)
  {
    |x| > 0 && (x[0] != 0 ==> |y| > 0 && (x[0] == y[0] ==> ScanDefined(x[1..], y[1..])))
  }

  /** The loop of `string_compare`: walks both byte streams until `x` shows a
      zero byte, failing at the first mismatch. */
  function ScanEqual(x: seq<Byte>, y: seq<Byte>): bool
    requires ScanDefined(x, y)
  {
    if x[0] == 0 then true
    else if x[0] != y[0] then false
    else ScanEqual(x[1..], y[1..])
  }

  /** The scan succeeds exactly when `y` starts with the bytes of `x` before
      its first zero. */
  lemma {:induction false} ScanEqualMeaning(x: seq<Byte>, y: seq<Byte>)
    requires ScanDefined(x, y)
    ensures ScanEqual(x, y) <==>
      0 in x && ZeroIndex(x) <= |y| && x[..ZeroIndex(x)] == y[..ZeroIndex(x)]
  {
    if x[0] != 0 && x[0] == y[0] {
      ScanEqualMeaning(x[1..], y[1..]);
      if 0 in x[1..] {
        var z := ZeroIndex(x[1..]);
        assert ZeroIndex(x) == z + 1;
        if ScanEqual(x, y) {
          assert x[..z + 1] == [x[0]] + x[1..][..z];
          assert y[..z + 1] == [y[0]] + y[1..][..z];
        }
      } else {
        assert 0 !in x by {
          forall i | 0 <= i < |x| ensures x[i] != 0 {
            if i > 0 { assert x[i] == x[1..][i - 1]; }
          }
        }
      }
    }
  }

  /** A scan over `x` terminated within reach of `y` stays in readable memory. */
  lemma {:induction false} ScanDefinedWhenTerminated(x: seq<Byte>, y: seq<Byte>)
    requires 0 in x && ZeroIndex(x) <= |y|
    ensures ScanDefined(x, y)
  {
    if x[0] != 0 {
      assert 0 in x[1..] by { assert x[ZeroIndex(x)] == x[1..][ZeroIndex(x) - 1]; }
      assert ZeroIndex(x[1..]) == ZeroIndex(x) - 1;
      ScanDefinedWhenTerminated(x[1..], y[1..]);
    }
  }

  /** `string_compare` as written: unequal sizes give false; otherwise the
      bytes are compared until `a` shows a zero byte, however large `size` is. */
  method StringCompareAsWritten(a: String, b: String) returns (r: bool)
    requires a.size == b.size ==> ScanDefined(Mem(a.data), Mem(b.data))
    ensures r == (a.size == b.size && ScanEqual(Mem(a.data), Mem(b.data)))
  {
    if a.size != b.size {
      return false;
    }
    var pa, pb := a.data, b.data;
    while pa.buf[pa.off] != 0
      invariant ScanDefined(Mem(pa), Mem(pb))
      invariant ScanEqual(Mem(a.data), Mem(b.data)) == ScanEqual(Mem(pa), Mem(pb))
      decreases |Mem(pa)|
    {
      if pa.buf[pa.off] != pb.buf[pb.off] {
        return false;
      }
      MemAdvance(pa);
      MemAdvance(pb);
      pa, pb := Advance(pa), Advance(pb);
    }
    return true;
  }

  /** For views terminated exactly at their size, with no zero byte inside
      (what `str` produces), the as-written comparison is content equality. */
  lemma CompareAsWrittenAgreesOnTerminatedViews(x: seq<Byte>, y: seq<Byte>, size: nat)
    requires size < |x| && size <= |y|
    requires x[size] == 0 && 0 !in x[..size]
    ensures ScanDefined(x, y)
    ensures ScanEqual(x, y) <==> x[..size] == y[..size]
  {
    assert forall i :: 0 <= i < size ==> x[i] == x[..size][i];
    assert ZeroIndex(x) == size;
    ScanDefinedWhenTerminated(x, y);
    ScanEqualMeaning(x, y);
  }

  /** Bytes after an embedded zero are never looked at: two views of size 2
      with different contents compare equal. */
  lemma CompareAsWrittenIgnoresBytesAfterZero()
    ensures var x: seq<Byte> := [0, 1]; var y: seq<Byte> := [0, 2];
      ScanDefined(x, y) && ScanEqual(x, y) && x[..2] != y[..2]
  {
    var x: seq<Byte> := [0, 1];
    var y: seq<Byte> := [0, 2];
    assert x[..2][1] != y[..2][1];
  }

  /** The scan is not bounded by `size`: two views of size 1 with equal
      contents compare unequal because of the bytes that follow them. */
  lemma CompareAsWrittenReadsPastSize()
    ensures var x: seq<Byte> := [7, 1, 0]; var y: seq<Byte> := [7, 2, 0];
      ScanDefined(x, y) && !ScanEqual(x, y) && x[..1] == y[..1]
  {
  }

  /** `string_compare` corrected: equal sizes and every one of the `size` bytes
      equal, embedded zeros included, stopping at the first mismatch. */
  method StringCompare(a: String, b: String) returns (r: bool)
    requires Valid(a) && Valid(b)
    ensures r <==> Contents(a) == Contents(b)
  {
    if a.size != b.size {
      return false;
    }
    ghost var x, y := Contents(a), Contents(b);
    var i: nat := 0;
    while i < a.size
      invariant i <= a.size
      invariant x[..i] == y[..i]
    {
      assert a.data.buf[a.data.off + i] == x[i] && b.data.buf[b.data.off + i] == y[i];
      if a.data.buf[a.data.off + i] != b.data.buf[b.data.off + i] {
        return false;
      }
      assert x[..i + 1] == x[..i] + [x[i]] && y[..i + 1] == y[..i] + [y[i]];
      i := i + 1;
    }
    assert x == x[..i] && y == y[..i];
    return true;
  }
}
