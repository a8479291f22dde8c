/** The Win32 services that io.h calls, as an abstract machine: a store of
    files keyed by UTF-16 path, open handles with a file position, the blocks
    live on the process heap, and the UTF-8 to UTF-16 decoder. Wherever the
    platform may fail for reasons this model does not track (permissions,
    sharing, device errors), whether a call succeeds is left open. */
module Win32 {
  import opened Base

  const GENERIC_READ: bv32 := 0x8000_0000
  const GENERIC_WRITE: bv32 := 0x4000_0000
  const CREATE_ALWAYS: bv32 := 2
  const OPEN_EXISTING: bv32 := 3

  type Handle = int
  const INVALID_HANDLE_VALUE: Handle := -1

  type WidePath = seq<U16>

  /** An open handle: the file it names, the rights it was opened with and
      its current position. */
  datatype OpenFile = OpenFile(path: WidePath, readable: bool, writable: bool, pos: nat)

  /** What `MultiByteToWideChar` makes of the bytes at its source pointer for a
      given byte count: the UTF-16 units, or None when it rejects the input.
      Its result is an `int`, so no decoding is 2^31 units long. */
  type Decoder = d: (seq<Byte>, int) -> Option<seq<U16>>
    | forall src, count :: d(src, count).Some? ==> |d(src, count).value| < 0x8000_0000
    witness (src: seq<Byte>, count: int) => None

  /** The units of a zero-terminated wide string, terminator excluded. */
  function WideString(units: seq<U16>): WidePath
    requires 0 in units
  {
    units[..ZeroIndex(units)]
  }

  /** The bytes a read of at most `n` bytes at `pos` delivers. */
  function ReadAt(content: seq<Byte>, pos: nat, n: nat): (got: seq<Byte>)
    ensures |got| <= n
    ensures pos >= |content| ==> got == []
    ensures pos < |content| ==> |got| == Min(n, |content| - pos)
  {
    if pos < |content| then content[pos..pos + Min(n, |content| - pos)] else []
  }

  /** `content` after writing `data` at `pos` (clamped to the end of the file). */
  function Overwrite(content: seq<Byte>, pos: nat, data: seq<Byte>): (c: seq<Byte>)
    ensures var p := Min(pos, |content|);
      |c| >= p + |data| && c[..p] == content[..p] && c[p..p + |data|] == data
  {
    var p := Min(pos, |content|);
    content[..p] + data + (if p + |data| < |content| then content[p + |data|..] else [])
  }

  /** A read from the start asking for at least the whole file gets the whole file. */
  lemma ReadWhole(content: seq<Byte>, n: nat)
    requires n >= |content|
    ensures ReadAt(content, 0, n) == content
  {
  }

  /** What a read of at most `n` bytes through open handle `h` delivers. */
  function Pending(files: map<WidePath, seq<Byte>>, handles: map<Handle, OpenFile>, h: Handle, n: nat): seq<Byte>
    requires h in handles && handles[h].path in files
  {
    ReadAt(files[handles[h].path], handles[h].pos, n)
  }

  /** `handles` once the position of `h` has moved `n` bytes on. */
  function Moved(handles: map<Handle, OpenFile>, h: Handle, n: nat): map<Handle, OpenFile>
    requires h in handles
  {
    handles[h := handles[h].(pos := handles[h].pos + n)]
  }

  /** Writing into an empty file at any position leaves exactly the data written. */
  lemma OverwriteEmpty(pos: nat, data: seq<Byte>)
    ensures Overwrite([], pos, data) == data
  {
  }

  /** The `MultiByteToWideChar` return value: with no output buffer
      (`capacity == 0`) the number of units needed, otherwise the number of
      units written; 0 when decoding fails or the buffer is too small. */
  function ConvertResult(decoded: Option<seq<U16>>, capacity: int): int
  {
    match decoded
    case None => 0
    case Some(w) => if capacity == 0 || |w| <= capacity then |w| else 0
  }

  class System {
    var files: map<WidePath, seq<Byte>>
    var handles: map<Handle, OpenFile>
    var nextHandle: nat
    /** Blocks allocated on the process heap and not yet freed. */
    var live: set<array<U16>>
    const decode: Decoder

    /** Handles name existing files and are numbered below `nextHandle`;
        file sizes fit the signed 64-bit size that `GetFileSizeEx` reports. */
    ghost predicate Valid()
      reads this`files, this`handles, this`nextHandle
    {
      && (forall h | h in handles :: 0 <= h < nextHandle && handles[h].path in files)
      && (forall p | p in files :: |files[p]| < I64_LIMIT)
    }

    constructor (initial: map<WidePath, seq<Byte>>, decoder: Decoder)
      requires forall p | p in initial :: |initial[p]| < I64_LIMIT
      ensures Valid() && files == initial && handles == map[] && live == {}
      ensures decode == decoder
    {
      files, handles, nextHandle, live := initial, map[], 0, {};
      decode := decoder;
    }

    /** `HeapAlloc`: a fresh block of `units` code units, contents unspecified. */
    method HeapAlloc(units: nat) returns (buf: array<U16>)
      modifies this`live
      ensures fresh(buf) && buf.Length == units
      ensures live == old(live) + {buf}
    {
      buf := new U16[units];
      assert |seq(units, i => 0 as U16)| == units;
      var garbage: seq<U16> :| |garbage| == units;
      forall i | 0 <= i < units {
        buf[i] := garbage[i];
      }
      live := live + {buf};
    }

    /** `HeapFree`; freeing null does nothing. */
    method HeapFree(buf: array?<U16>)
      modifies this`live
      ensures live == if buf == null then old(live) else old(live) - {buf}
    {
      if buf != null {
        live := live - {buf};
      }
    }

    /** `MultiByteToWideChar(CP_UTF8, 0, src, count, dest, capacity)`. */
    method MultiByteToWideChar(src: seq<Byte>, count: int, dest: array?<U16>, capacity: int)
      returns (n: int)
      requires capacity > 0 ==> dest != null && capacity <= dest.Length
      modifies if dest != null then {dest} else {}
      ensures n == ConvertResult(decode(src, count), capacity)
      ensures capacity > 0 && n > 0 ==>
        dest[..n] == decode(src, count).value && dest[n..] == old(dest[n..])
      ensures !(capacity > 0 && n > 0) && dest != null ==> unchanged(dest)
    {
      n := ConvertResult(decode(src, count), capacity);
      if capacity > 0 && n > 0 {
        var w := decode(src, count).value;
        forall i | 0 <= i < n {
          dest[i] := w[i];
        }
      }
    }

    /** `CreateFileW(name, access, FILE_SHARE_READ, 0, disposition, ...)`.
        Opening an existing file requires it to be in the store; creating
        empties it. Any open may also be refused. */
    method CreateFileW(name: array?<U16>, access: bv32, disposition: bv32) returns (h: Handle)
      requires Valid()
      requires name != null ==> 0 in name[..]
      modifies this`files, this`handles, this`nextHandle
      ensures Valid()
      ensures h == INVALID_HANDLE_VALUE ==>
        files == old(files) && handles == old(handles) && nextHandle == old(nextHandle)
      ensures h != INVALID_HANDLE_VALUE ==>
        && name != null
        && var path := WideString(name[..]);
        && (disposition == CREATE_ALWAYS || (disposition == OPEN_EXISTING && path in old(files)))
        && h == old(nextHandle) && nextHandle == old(nextHandle) + 1
        && handles == old(handles)[h := OpenFile(path, access & GENERIC_READ != 0, access & GENERIC_WRITE != 0, 0)]
        && files == if disposition == CREATE_ALWAYS then old(files)[path := []] else old(files)
    {
      if name == null {
        return INVALID_HANDLE_VALUE;
      }
      var path := WideString(name[..]);
      var granted: bool :| true;
      if !granted || !(disposition == CREATE_ALWAYS || (disposition == OPEN_EXISTING && path in files)) {
        return INVALID_HANDLE_VALUE;
      }
      if disposition == CREATE_ALWAYS {
        files := files[path := []];
      }
      h := nextHandle;
      handles := handles[h := OpenFile(path, access & GENERIC_READ != 0, access & GENERIC_WRITE != 0, 0)];
      nextHandle := nextHandle + 1;
    }

    /** `CloseHandle`. */
    method CloseHandle(h: Handle) returns (ok: bool)
      requires Valid()
      modifies this`handles
      ensures Valid()
      ensures ok == (h in old(handles)) && handles == old(handles) - {h}
    {
      ok := h in handles;
      handles := handles - {h};
    }

    /** `GetFileSizeEx`: the size of the file behind an open handle, or failure. */
    method GetFileSizeEx(h: Handle) returns (ok: bool, size: int)
      requires Valid()
      ensures ok ==> h in handles && size == |files[handles[h].path]|
      ensures !ok ==> size == 0
    {
      ok :| ok ==> h in handles;
      size := if ok then |files[handles[h].path]| else 0;
    }

    /** `ReadFile(h, dest, n, ...)`: on success, the bytes from the handle's
        position on, at most `n` of them, land at the start of `dest` and the
        position moves past them. */
    method ReadFile(h: Handle, dest: array<Byte>, n: U32) returns (ok: bool, read: nat)
      requires Valid() && n <= dest.Length
      modifies this`handles, dest
      ensures Valid()
      ensures ok ==> h in old(handles) && old(handles)[h].readable
      ensures ok ==>
        && read == |Pending(files, old(handles), h, n)|
        && dest[..read] == Pending(files, old(handles), h, n) && dest[read..] == old(dest[read..])
        && handles == Moved(old(handles), h, read)
      ensures !ok ==> read == 0 && unchanged(dest) && handles == old(handles)
    {
      ok :| ok ==> h in handles && handles[h].readable;
      if !ok {
        return false, 0;
      }
      var got := Pending(files, handles, h, n);
      read := |got|;
      forall i | 0 <= i < read {
        dest[i] := got[i];
      }
      handles := Moved(handles, h, read);
    }

    /** `WriteFile(h, data, n, &written, 0)`: on success some prefix of the `n`
        bytes, `written` of them, is written at the handle's position. */
    method WriteFile(h: Handle, data: seq<Byte>, n: U32) returns (ok: bool, written: nat)
      requires Valid() && n <= |data|
      modifies this`files, this`handles
      ensures Valid()
      ensures ok ==> h in old(handles) && old(handles)[h].writable && written <= n
      ensures ok ==>
        var f := old(handles)[h];
        var content := old(files)[f.path];
        && files == old(files)[f.path := Overwrite(content, f.pos, data[..written])]
        && handles == old(handles)[h := f.(pos := Min(f.pos, |content|) + written)]
      ensures !ok ==> written == 0 && files == old(files) && handles == old(handles)
    {
      ok :| ok ==> h in handles && handles[h].writable;
      if !ok {
        return false, 0;
      }
      written :| written <= n;
      var f := handles[h];
      var content := files[f.path];
      var updated := Overwrite(content, f.pos, data[..written]);
      if |updated| >= I64_LIMIT {
        return false, 0;
      }
      files := files[f.path := updated];
      handles := handles[h := f.(pos := Min(f.pos, |content|) + written)];
    }
  }
}
