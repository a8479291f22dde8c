/** io.h: the file layer over Win32. `File_Mode` flags and their translation
    into an access mask and a creation disposition, the UTF-8 to UTF-16 path
    conversion, and the open/close/size/write/read wrappers. */
module FileIO {
  import opened Base
  import opened Strings
  import opened Win32

  const FILE_MODE_READ: bv32 := 1
  const FILE_MODE_WRITE: bv32 := 2
  const FILE_MODE_CREATE: bv32 := 4

  /** `File` is a Win32 `HANDLE`. */
  type File = Handle

  // ---------------------------------------------------------------------------
  // File_Mode

  /** The `File_Mode` union holding exactly the chosen flags. */
  function ModeOf(read: bool, write: bool, create: bool): bv32
  {
    (if read then FILE_MODE_READ else 0)
    | (if write then FILE_MODE_WRITE else 0)
    | (if create then FILE_MODE_CREATE else 0)
  }

  /** The three flags are distinct single bits. */
  lemma ModeFlagsAreDistinctBits()
    ensures FILE_MODE_READ != 0 && FILE_MODE_READ & (FILE_MODE_READ - 1) == 0
    ensures FILE_MODE_WRITE != 0 && FILE_MODE_WRITE & (FILE_MODE_WRITE - 1) == 0
    ensures FILE_MODE_CREATE != 0 && FILE_MODE_CREATE & (FILE_MODE_CREATE - 1) == 0
    ensures FILE_MODE_READ & FILE_MODE_WRITE == 0
    ensures FILE_MODE_READ & FILE_MODE_CREATE == 0
    ensures FILE_MODE_WRITE & FILE_MODE_CREATE == 0
  {
  }

  /** Any union of flags decodes back to its members, so distinct choices
      give distinct modes. */
  lemma ModeDecodes(read: bool, write: bool, create: bool)
    ensures (ModeOf(read, write, create) & FILE_MODE_READ != 0) == read
    ensures (ModeOf(read, write, create) & FILE_MODE_WRITE != 0) == write
    ensures (ModeOf(read, write, create) & FILE_MODE_CREATE != 0) == create
    ensures ModeOf(read, write, create) & !(FILE_MODE_READ | FILE_MODE_WRITE | FILE_MODE_CREATE) == 0
  {
  }

  /** The access rights `file_open` asks for: always read, write exactly when
      the WRITE flag is set, nothing else. */
  function AccessFor(modes: bv32): (access: bv32)
    ensures access & GENERIC_READ != 0
    ensures (access & GENERIC_WRITE != 0) == (modes & FILE_MODE_WRITE != 0)
    ensures access & !(GENERIC_READ | GENERIC_WRITE) == 0
  {
    if modes & FILE_MODE_WRITE != 0 then GENERIC_READ | GENERIC_WRITE else GENERIC_READ
  }

  /** The creation disposition `file_open` asks for: create-always exactly
      when the CREATE flag is set, otherwise open-existing. */
  function DispositionFor(modes: bv32): (disposition: bv32)
    ensures disposition == CREATE_ALWAYS <==> modes & FILE_MODE_CREATE != 0
    ensures disposition == OPEN_EXISTING <==> modes & FILE_MODE_CREATE == 0
  {
    if modes & FILE_MODE_CREATE != 0 then CREATE_ALWAYS else OPEN_EXISTING
  }

  /** The access mask and disposition `file_open` builds from `modes`, one
      conditional update at a time. */
  method TranslateModes(modes: bv32) returns (access: bv32, disposition: bv32)
    ensures access == AccessFor(modes) && disposition == DispositionFor(modes)
  {
    access := GENERIC_READ;
    disposition := 0;
    if modes & FILE_MODE_WRITE != 0 {
      access := access | GENERIC_WRITE;
    }
    if modes & FILE_MODE_CREATE != 0 {
      disposition := CREATE_ALWAYS;
    } else {
      disposition := OPEN_EXISTING;
    }
  }

  /** The READ flag changes neither the access mask nor the disposition. */
  lemma ReadFlagIgnored(modes: bv32)
    ensures AccessFor(modes | FILE_MODE_READ) == AccessFor(modes & !FILE_MODE_READ)
    ensures DispositionFor(modes | FILE_MODE_READ) == DispositionFor(modes & !FILE_MODE_READ)
  {
  }

  // ---------------------------------------------------------------------------
  // UTF-8 to UTF-16

  /** The buffer `win32_utf8_to_utf16` returns for a string of `size` bytes
      that decodes to `decoded`: a lone terminator for the empty string, the
      decoded units and a terminator otherwise, null when decoding fails. */
  function Utf16Buffer(size: U64, decoded: Option<seq<U16>>): (b: Option<seq<U16>>)
    ensures b.Some? ==> |b.value| >= 1 && b.value[|b.value| - 1] == 0
    ensures size == 0 ==> b == Some([0])
    ensures size != 0 && b.Some? ==> decoded.Some? && b.value == decoded.value + [0]
    ensures size != 0 && decoded.Some? && decoded.value != [] ==> b.Some?
  {
    if size == 0 then Some([0])
    else match decoded
      case Some(w) => if |w| > 0 then Some(w + [0]) else None
      case None => None
  }

  /** `win32_utf8_to_utf16`. The block it allocates is always left live on
      the process heap: it is the result on success and leaks on failure. */
  method Utf8ToUtf16(os: System, utf8: String) returns (r: array?<U16>, ghost block: array<U16>)
    modifies os`live
    ensures fresh(block) && os.live == old(os.live) + {block}
    ensures r != null ==> r == block
    ensures var expected := Utf16Buffer(utf8.size, os.decode(Mem(utf8.data), ToI32(utf8.size)));
      && (r == null <==> expected.None?)
      && (r != null ==> r[..] == expected.value)
  {
    if utf8.size == 0 {
      var buf := os.HeapAlloc(1);
      buf[0] := 0;
      return buf, buf;
    }
    var src, count := Mem(utf8.data), ToI32(utf8.size);
    var len := os.MultiByteToWideChar(src, count, null, 0);
    var utf16Length := ToU64(len);
    var buf := os.HeapAlloc(utf16Length + 1);
    block := buf;
    var result := os.MultiByteToWideChar(src, count, buf, ToI32(utf16Length));
    if result == 0 {
      return null, block;
    }
    buf[utf16Length] := 0;
    assert buf[..] == buf[..utf16Length] + [buf[utf16Length]];
    r := buf;
  }

  // ---------------------------------------------------------------------------
  // Open and close

  /** The wide path `file_open` hands to `CreateFileW` for the C string at
      `path`, or None when the conversion fails. */
  ghost function OpenName(decode: Decoder, path: Ptr): Option<WidePath>
    requires CString(path)
    reads if path.At? then {path.buf} else {}
  {
    var n := ZeroIndex(Mem(path));
    match Utf16Buffer(n, decode(Mem(path), ToI32(n)))
    case Some(units) => Some(WideString(units))
    case None => None
  }

  /** `file_open`. A handle is returned only for a converted path, with read
      access always and write access exactly when WRITE is set; without CREATE
      the file must already exist, with it the file is emptied. The temporary
      UTF-16 path is released unless the conversion failed. */
  method FileOpen(os: System, path: Ptr, modes: bv32)
    returns (f: File, ghost name: Option<WidePath>, ghost leaked: set<array<U16>>)
    requires os.Valid() && CString(path)
    modifies os
    ensures os.Valid() && name == old(OpenName(os.decode, path))
    ensures os.live == old(os.live) + leaked && leaked !! old(os.live)
    ensures |leaked| == if name.None? then 1 else 0
    ensures f == INVALID_HANDLE_VALUE ==> os.files == old(os.files) && os.handles == old(os.handles)
    ensures f != INVALID_HANDLE_VALUE ==>
      && name.Some? && f == old(os.nextHandle) && f !in old(os.handles)
      && os.handles == old(os.handles)[f := OpenFile(name.value, true, modes & FILE_MODE_WRITE != 0, 0)]
      && (modes & FILE_MODE_CREATE != 0 ==> os.files == old(os.files)[name.value := []])
      && (modes & FILE_MODE_CREATE == 0 ==> os.files == old(os.files) && name.value in old(os.files))
  {
    name := OpenName(os.decode, path);
    var filename, block := WidePathOf(os, path);
    f := OpenWide(os, filename, modes);
    os.HeapFree(filename);
    leaked := if filename == null then {block} else {};
  }

  /** The rest of `file_open` once the path is converted: the flags become an
      access mask and a disposition for `CreateFileW`. */
  method OpenWide(os: System, filename: array?<U16>, modes: bv32) returns (f: File)
    requires os.Valid() && (filename != null ==> 0 in filename[..])
    modifies os`files, os`handles, os`nextHandle
    ensures os.Valid()
    ensures f == INVALID_HANDLE_VALUE ==> os.files == old(os.files) && os.handles == old(os.handles)
    ensures f != INVALID_HANDLE_VALUE ==>
      && filename != null && var name := old(WideString(filename[..]));
      && f == old(os.nextHandle) && f !in old(os.handles)
      && os.handles == old(os.handles)[f := OpenFile(name, true, modes & FILE_MODE_WRITE != 0, 0)]
      && (modes & FILE_MODE_CREATE != 0 ==> os.files == old(os.files)[name := []])
      && (modes & FILE_MODE_CREATE == 0 ==> os.files == old(os.files) && name in old(os.files))
  {
    var access, disposition := TranslateModes(modes);
    assert access & GENERIC_READ != 0;
    assert (access & GENERIC_WRITE != 0) == (modes & FILE_MODE_WRITE != 0);
    assert disposition == CREATE_ALWAYS <==> modes & FILE_MODE_CREATE != 0;
    assert disposition == OPEN_EXISTING <==> modes & FILE_MODE_CREATE == 0;
    f := os.CreateFileW(filename, access, disposition);
  }

  /** The first step of `file_open`: the C string at `path` converted to a
      terminated UTF-16 buffer on the process heap, null when conversion fails. */
  method WidePathOf(os: System, path: Ptr) returns (filename: array?<U16>, ghost block: array<U16>)
    requires CString(path)
    modifies os`live
    ensures fresh(block) && os.live == old(os.live) + {block}
    ensures filename != null ==> filename == block
    ensures filename == null <==> OpenName(os.decode, path).None?
    ensures filename != null ==> 0 in filename[..] && WideString(filename[..]) == OpenName(os.decode, path).value
  {
    var utf8 := Str(path);
    filename, block := Utf8ToUtf16(os, utf8);
  }

  /** `file_close`: the handle is released; what `CloseHandle` reports is dropped. */
  method FileClose(os: System, f: File)
    requires os.Valid()
    modifies os`handles
    ensures os.Valid() && os.handles == old(os.handles) - {f}
  {
    var _ := os.CloseHandle(f);
  }

  // ---------------------------------------------------------------------------
  // Size, write, read

  /** `file_get_size`: the file's size when the query is answered, 0 when it
      fails, so a failed query reads like an empty file. */
  method FileGetSize(os: System, f: File) returns (n: U64, ghost answered: bool)
    requires os.Valid()
    ensures answered ==> f in os.handles && n == |os.files[os.handles[f].path]|
    ensures !answered ==> n == 0
    ensures n < I64_LIMIT
  {
    var ok, size := os.GetFileSizeEx(f);
    answered := ok;
    n := if ok then ToU64(size) else 0;
  }

  /** `file_write`: success exactly when `WriteFile` succeeds and reports the
      whole `size` written. The count is truncated to 32 bits on the way in,
      so a string of 4 GiB or more is never reported written. */
  method FileWrite(os: System, f: File, s: String) returns (ok: bool, ghost accepted: bool, ghost written: nat)
    requires os.Valid() && Valid(s)
    modifies os`files, os`handles
    ensures os.Valid()
    ensures ok == (accepted && written == s.size)
    ensures ok ==> s.size < U32_MOD
    ensures accepted ==> f in old(os.handles) && old(os.handles)[f].writable && written <= ToU32(s.size)
    ensures accepted ==>
      var h := old(os.handles)[f];
      var content := old(os.files)[h.path];
      && os.files == old(os.files)[h.path := Overwrite(content, h.pos, old(Contents(s))[..written])]
      && os.handles == old(os.handles)[f := h.(pos := Min(h.pos, |content|) + written)]
    ensures !accepted ==> os.files == old(os.files) && os.handles == old(os.handles)
  {
    var result, count := os.WriteFile(f, Mem(s.data), ToU32(s.size));
    accepted, written := result, count;
    assert Mem(s.data)[..count] == Contents(s)[..count];
    ok := result && count == s.size;
  }

  /** `file_read`: one `ReadFile` of `bytes_to_read` (truncated to 32 bits)
      into `dest`. `actually_read` is passed by value, so the count the call
      produces never reaches the caller. */
  method FileRead(os: System, f: File, dest: array<Byte>, bytesToRead: U64, actuallyRead: U64)
    returns (ok: bool, ghost got: seq<Byte>)
    requires os.Valid() && ToU32(bytesToRead) <= dest.Length
    modifies os`handles, dest
    ensures os.Valid()
    ensures ok ==> f in old(os.handles) && old(os.handles)[f].readable
    ensures ok ==>
      && got == Pending(os.files, old(os.handles), f, ToU32(bytesToRead))
      && dest[..|got|] == got && dest[|got|..] == old(dest[|got|..])
      && os.handles == Moved(old(os.handles), f, |got|)
    ensures !ok ==> unchanged(dest) && os.handles == old(os.handles)
  {
    var read;
    ok, read := os.ReadFile(f, dest, ToU32(bytesToRead));
    got := if ok then dest[..read] else [];
  }

  /** The `string*` out-parameter of `file_read_to_string`. */
  class StringRef {
    var value: String

    constructor (s: String)
      ensures value == s
    {
      value := s;
    }
  }

  /** `file_read_to_string`: `dest` becomes a fresh buffer of file size + 1
      bytes with 0 written at index file size, then one read of file size + 1
      bytes (truncated to 32 bits) fills it. Only the read's success is
      reported. */
  method FileReadToString(os: System, f: File, dest: StringRef)
    returns (ok: bool, ghost answered: bool, ghost bytes: seq<Byte>, ghost got: seq<Byte>)
    requires os.Valid()
    modifies os`handles, dest
    ensures os.Valid()
    ensures dest.value.data.At? && fresh(dest.value.data.buf) && dest.value.data.off == 0
    ensures dest.value.data.buf.Length == dest.value.size && Valid(dest.value)
    ensures Contents(dest.value) == bytes && |bytes| == dest.value.size >= 1
    ensures answered ==> f in old(os.handles) && |bytes| == |os.files[old(os.handles)[f].path]| + 1
    ensures !answered ==> |bytes| == 1
    ensures ok ==> f in old(os.handles) && old(os.handles)[f].readable
    ensures ok ==>
      && got == Pending(os.files, old(os.handles), f, ToU32(|bytes|))
      && bytes[..|got|] == got
      && os.handles == Moved(old(os.handles), f, |got|)
    ensures !ok ==> os.handles == old(os.handles)
    ensures answered || !ok ==> bytes[|bytes| - 1] == 0
  {
    var bytesToRead, q := FileGetSize(os, f);
    answered := q;
    var size := ToU64(bytesToRead + 1);
    dest.value := dest.value.(size := size);
    var buf := Malloc(size);
    dest.value := dest.value.(data := At(buf, 0));
    buf[bytesToRead] := 0;

    var actuallyRead: U64 := 0;
    ok, got := FileRead(os, f, buf, size, actuallyRead);
    WholeBlock(buf);
    assert dest.value == String(At(buf, 0), size);
    bytes := buf[..];
    assert ok && answered ==> |got| <= bytesToRead && bytes[bytesToRead] == buf[bytesToRead];
  }

  /** A string over a whole block, from its start, holds the block's bytes. */
  lemma WholeBlock(buf: array<Byte>)
    requires buf.Length < U64_MOD
    ensures Contents(String(At(buf, 0), buf.Length)) == buf[..]
  {
  }

  // ---------------------------------------------------------------------------
  // Using the layer

  /** A file created and never written has size 0, whether or not the open
      succeeded (a failed open gives a handle whose size query fails). */
  method CreateThenGetSize(os: System, path: Ptr) returns (n: U64)
    requires os.Valid() && CString(path)
    modifies os
    ensures n == 0
  {
    var f, name, leaked := FileOpen(os, path, ModeOf(false, true, true));
    ghost var answered;
    n, answered := FileGetSize(os, f);
  }

  /** Create `path`, write all of `data` to it and close it. */
  method CreateAndWrite(os: System, path: Ptr, data: String) returns (wrote: bool, ghost name: WidePath)
    requires os.Valid() && CString(path) && Valid(data)
    modifies os
    ensures os.Valid()
    ensures wrote ==> old(OpenName(os.decode, path)) == Some(name) && name in os.files
    ensures wrote ==> os.files[name] == old(Contents(data)) && data.size < U32_MOD
  {
    ghost var bytes := Contents(data);
    var f, converted, leaked := FileOpen(os, path, ModeOf(false, true, true));
    if f == INVALID_HANDLE_VALUE {
      return false, [];
    }
    name := converted.value;
    ModeDecodes(false, true, true);
    assert os.handles[f] == OpenFile(name, true, true, 0) && os.files[name] == [];
    assert Contents(data) == bytes;
    ghost var accepted, written;
    wrote, accepted, written := FileWrite(os, f, data);
    if wrote {
      assert bytes[..written] == bytes;
      assert os.files[name] == Overwrite([], 0, bytes);
      OverwriteEmpty(0, bytes);
    }
    FileClose(os, f);
  }

  /** Open `path` for reading only and read it back with `file_read_to_string`. */
  method OpenAndReadBack(os: System, path: Ptr, dest: StringRef, ghost name: WidePath)
    returns (ok: bool, ghost answered: bool)
    requires os.Valid() && CString(path)
    requires OpenName(os.decode, path) == Some(name) && name in os.files
    modifies os, dest
    ensures ok && answered ==> Valid(dest.value) && dest.value.size == |old(os.files)[name]| + 1
    ensures ok && answered && |old(os.files)[name]| + 1 < U32_MOD ==>
      Contents(dest.value) == old(os.files)[name] + [0]
  {
    var g, converted, leaked := FileOpen(os, path, ModeOf(true, false, false));
    if g == INVALID_HANDLE_VALUE {
      return false, false;
    }
    assert os.handles[g] == OpenFile(name, true, false, 0) && os.files == old(os.files);
    ghost var bytes, got;
    ok, answered, bytes, got := FileReadToString(os, g, dest);
    if ok && answered && dest.value.size < U32_MOD {
      ghost var content := old(os.files)[name];
      assert os.files[name] == content && ToU32(|bytes|) == |content| + 1;
      ReadWhole(content, |content| + 1);
      Terminated(bytes, content);
    }
  }

  /** A buffer one byte longer than `content` that starts with it and ends in 0. */
  lemma Terminated(c: seq<Byte>, content: seq<Byte>)
    requires |c| == |content| + 1 && c[..|content|] == content && c[|content|] == 0
    ensures c == content + [0]
  {
    assert c == c[..|content|] + [c[|content|]];
  }

  /** Create `path` and write `data`, close it, reopen it for reading only and
      read it back with `file_read_to_string`. When every step succeeds and
      the size query is answered, the bytes come back with a terminator after
      them, unless the file is exactly 2^32 - 1 bytes long: then the read is
      asked for (DWORD)2^32 = 0 bytes. */
  method WriteThenReadBack(os: System, path: Ptr, data: String, dest: StringRef)
    returns (ghost completed: bool)
    requires os.Valid() && CString(path) && Valid(data)
    modifies os, dest
    ensures completed ==> Valid(dest.value) && dest.value.size == data.size + 1 && data.size < U32_MOD
    ensures completed && data.size + 1 < U32_MOD ==> Contents(dest.value) == old(Contents(data)) + [0]
    ensures completed && data.size + 1 == U32_MOD ==> ToU32(dest.value.size) == 0
  {
    completed := false;
    var wrote, name := CreateAndWrite(os, path, data);
    if !wrote {
      return;
    }
    assert OpenName(os.decode, path) == Some(name);
    var ok, answered := OpenAndReadBack(os, path, dest, name);
    completed := ok && answered;
  }
}
