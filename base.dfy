/** Fixed-width integers, the C conversions between them, and byte memory
    reached through pointers. Shared by the string and file layers. */
module Base {

  const U32_MOD: int := 0x1_0000_0000
  const U64_MOD: int := 0x1_0000_0000_0000_0000
  /** One past the largest `LONGLONG` (signed 64-bit) value. */
  const I64_LIMIT: int := 0x8000_0000_0000_0000

  type Byte = b: int | 0 <= b < 0x100
  type U16 = u: int | 0 <= u < 0x1_0000
  type U32 = n: int | 0 <= n < U32_MOD
  type U64 = n: int | 0 <= n < U64_MOD

  datatype Option<T> = None | Some(value: T)

  /** C conversion of an integer to `u64`: the value modulo 2^64. */
  function ToU64(x: int): (r: U64)
    ensures 0 <= x < U64_MOD ==> r == x
    ensures (r - x) % U64_MOD == 0
  {
    x % U64_MOD
  }

  /** C conversion of an integer to a 32-bit `DWORD`: the low 32 bits. */
  function ToU32(x: int): (r: U32)
    ensures 0 <= x < U32_MOD ==> r == x
  {
    x % U32_MOD
  }

  /** C conversion of an integer to a 32-bit `int`: the low 32 bits read in two's complement. */
  function ToI32(x: int): (r: int)
    ensures -0x8000_0000 <= r < 0x8000_0000
    ensures -0x8000_0000 <= x < 0x8000_0000 ==> r == x
    ensures (r - x) % U32_MOD == 0
  {
    var low := x % U32_MOD;
    if low < 0x8000_0000 then low else low - U32_MOD
  }

  function Min(a: int, b: int): int { if a <= b then a else b }

  /** A C pointer to bytes: null, or an offset into an allocated block. */
  datatype Ptr = Null | At(buf: array<Byte>, off: nat)

  /** The bytes that can be read through `p`: from the pointer to the end of its block. */
  function Mem(p: Ptr): (m: seq<Byte>)
    reads if p.At? then {p.buf} else {}
  {
    if p.At? && p.off <= p.buf.Length then p.buf[p.off..] else []
  }

  /** `p + 1` for a non-null pointer. */
  function Advance(p: Ptr): (q: Ptr)
    requires p.At?
  {
    At(p.buf, p.off + 1)
  }

  lemma MemAdvance(p: Ptr)
    requires |Mem(p)| > 0
    ensures p.At? && Mem(Advance(p)) == Mem(p)[1..]
  {
  }

  /** Position of the first zero in `m`: where a scan for a C terminator stops. */
  function ZeroIndex(m: seq<int>): (z: nat)
    requires 0 in m
    ensures z < |m| && m[z] == 0
    ensures forall i :: 0 <= i < z ==> m[i] != 0
  {
    if m[0] == 0 then 0 else 1 + ZeroIndex(m[1..])
  }

  /** `malloc`: a fresh block of exactly `size` bytes whose contents are unspecified. */
  method Malloc(size: nat) returns (buf: array<Byte>)
    ensures fresh(buf) && buf.Length == size
  {
    buf := new Byte[size];
    assert |seq(size, i => 0 as Byte)| == size;
    var garbage: seq<Byte> :| |garbage| == size;
    forall i | 0 <= i < size {
      buf[i] := garbage[i];
    }
  }
}
