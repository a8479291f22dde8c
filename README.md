# string.h and io.h: byte-string views and the Win32 file layer

This project models two headers of a small C base layer:

- **`string.h`**: the `string` view, a `{data, size}` pair over memory that is
  neither owned nor necessarily terminated. The model covers `null_string`, the
  zero-terminator scan `cstr_length`, wrapping a C string with `str`, arena
  allocation with `string_alloc`, sub-range copies with `string_trim`, and
  equality with `string_compare`.
- **`io.h`**: the file layer over Win32. The model covers the `File_Mode` flags
  and their translation into an access mask and a creation disposition in
  `file_open`. It also covers the UTF-8 to UTF-16 path buffer built by
  `win32_utf8_to_utf16` and the `file_close`, `file_get_size`, `file_write`,
  `file_read` and `file_read_to_string` wrappers.

Files:

- `base.dfy` (module `Base`) holds the fixed-width integers and the C
  conversions between them. `(u64)`, `(DWORD)` and `(int)` are modelled
  explicitly as reduction modulo 2^64 or 2^32. It also models byte memory
  reached through pointers: a pointer is null or an offset into an array. The
  position of the first zero byte and `malloc` are here too.
- `strings.dfy` (module `Strings`) holds the `String` view and its
  operations, plus an `Arena` class that hands out fresh blocks.
- `win32.dfy` (module `Win32`) holds the operating system as an abstract
  machine, the class `System`. It has:
  - a store of files keyed by UTF-16 path;
  - open handles, each with its rights and file position;
  - the blocks live on the process heap;
  - the UTF-8 decoder, as a function value.

  `CreateFileW`, `ReadFile` and `WriteFile` may fail, and a write may be
  short, for reasons the model does not track (rights, sharing, devices).
  These outcomes are chosen nondeterministically, within what the store allows.
- `io.dfy` (module `FileIO`) holds the `io.h` wrappers, proved against the
  `System` contracts. It ends with four methods that chain them:
  - create a file and query its size;
  - create and write;
  - open and read back;
  - write then read back.

`cstr_length` and `string_compare` do not do what their names promise (see
"## Findings"). Each is modelled twice: once as written, with lemmas that
show the discrepancy, and once corrected. `str` and `file_open` use the
corrected length. Otherwise `file_open` would pass `win32_utf8_to_utf16` a
negated byte count for every non-empty path.

## Model

| member | source | states |
|---|---|---|
| `Strings.NullStringIsEmpty` | string.h:4 | `null_string` has a null pointer and size 0, and stands for no bytes |
| `Base.ZeroIndex` | string.h:9-10 | the scan stops at the first zero byte: the index it returns holds 0 and every earlier byte is non-zero |
| `Base.MemAdvance` | string.h:43-44 | incrementing a non-null pointer drops exactly the first readable byte |
| `Base.ToU64` | string.h:11 | the `(u64)` conversion agrees with the value in range and is congruent to it modulo 2^64 |
| `Base.ToU32` | io.h:84 | the `(DWORD)` conversion keeps values below 2^32 unchanged |
| `Base.ToI32` | io.h:31 | the `(int)` conversion lies in the signed 32-bit range, keeps values in that range and is congruent to its argument modulo 2^32 |
| `Base.Malloc` | io.h:92 | `malloc` gives a fresh block of exactly the requested size whose contents are unspecified |
| `Strings.CStrLengthAsWritten` | string.h:7-11 | the loop stops at the first zero byte, and the result is start minus end reduced modulo 2^64, i.e. `(u64)(-length)` |
| `Strings.CStrLength` | string.h:7-11 | corrected `cstr_length`: the result is the number of bytes before the terminator, with a zero at that index and none before it |
| `Strings.CStrLengthAsWrittenMisreports` | string.h:11 | the as-written result equals the real length only for length 0 or 2^63; for any other length n > 0 it is 2^64 - n |
| `Strings.AsWrittenLengthReachesConversionNegated` | string.h:11 | a length n with 0 < n < 2^31 from the as-written `cstr_length` reaches the `(int)` count of the UTF-8 conversion as -n |
| `Strings.StrAsWritten` | string.h:15-18 | `str` keeps the pointer and takes the as-written `cstr_length` as its size |
| `Strings.Str` | string.h:15-18 | `str` with the corrected length keeps the pointer and covers exactly the bytes before the terminator, none of which is zero |
| `Strings.Arena.Alloc` | string.h:23 | the arena returns a fresh block of exactly `size` bytes and records it |
| `Strings.StringAlloc` | string.h:20-26 | `string_alloc` returns a view of size exactly `size` over a fresh arena block of `size` bytes, starting at its first byte |
| `Strings.StringTrim` | string.h:28-33 | the result has size `(u64)(end - start + 1)`, holds the bytes copied from `s.data + start`, and the source block is unchanged |
| `Strings.TrimWithinView` | string.h:30-32 | for `start <= end < size` the copy is exactly bytes `start..end` inclusive of the view, `end - start + 1` of them |
| `Strings.TrimReversedBoundsWrap` | string.h:30 | for `end < start` the size wraps: 0 when `start == end + 1`, otherwise 2^64 - (start - end - 1), more than any block holds past `start` |
| `Strings.ScanEqualMeaning` | string.h:40-45 | the comparison loop succeeds exactly when `b` starts with the bytes of `a` before `a`'s first zero byte |
| `Strings.ScanDefinedWhenTerminated` | string.h:40-45 | when `a` has a terminator within reach of `b`, the loop stays inside readable memory |
| `Strings.StringCompareAsWritten` | string.h:35-47 | unequal sizes give false; otherwise the result is the byte-by-byte scan up to `a`'s first zero, whatever the size |
| `Strings.CompareAsWrittenAgreesOnTerminatedViews` | string.h:40-45 | for views terminated right after their size with no zero inside, the loop as written decides content equality |
| `Strings.CompareAsWrittenIgnoresBytesAfterZero` | string.h:40-45 | two size-2 views `{0,1}` and `{0,2}` with different contents compare equal |
| `Strings.CompareAsWrittenReadsPastSize` | string.h:40-45 | two size-1 views with equal contents `{7}` compare unequal because of the bytes after them |
| `Strings.StringCompare` | string.h:35-47 | corrected `string_compare`: true exactly when both views hold the same bytes, so false whenever the sizes differ |
| `FileIO.ModeFlagsAreDistinctBits` | io.h:4-6 | READ, WRITE and CREATE are non-zero single bits, pairwise disjoint |
| `FileIO.ModeDecodes` | io.h:4-6 | any union of the flags tests positive for exactly its members and has no other bits |
| `FileIO.AccessFor` | io.h:46-50 | the access mask always holds GENERIC_READ, holds GENERIC_WRITE exactly when WRITE is set, and nothing else |
| `FileIO.DispositionFor` | io.h:51-54 | the disposition is CREATE_ALWAYS exactly when CREATE is set and OPEN_EXISTING exactly when it is not |
| `FileIO.TranslateModes` | io.h:46-54 | the conditional updates of `access` and `mode` end in the mask and disposition above |
| `FileIO.ReadFlagIgnored` | io.h:46-54 | setting or clearing READ changes neither the access mask nor the disposition |
| `FileIO.Utf16Buffer` | io.h:23-42 | the buffer ends in a zero unit; an empty input gives exactly `{0}`; otherwise it is the decoded units followed by 0, and it exists whenever decoding gives a non-empty result |
| `FileIO.Utf8ToUtf16` | io.h:23-42 | the returned buffer is null exactly when conversion fails and otherwise holds the units and terminator above; one block is always allocated, and it leaks on failure |
| `FileIO.WidePathOf` | io.h:56 | `str(path)` then the UTF-16 conversion gives null exactly when the path fails to convert, and otherwise a terminated buffer holding the converted path |
| `FileIO.OpenWide` | io.h:46-57 | a handle is returned only for a non-null path, with read access always and write access exactly when WRITE is set; CREATE empties the file, and without it the file must exist |
| `FileIO.FileOpen` | io.h:44-60 | the same for the converted path, with the temporary UTF-16 buffer freed whenever conversion succeeds (exactly one block leaks when it fails) |
| `FileIO.FileClose` | io.h:62-65 | the handle is released and the result of `CloseHandle` is dropped |
| `FileIO.FileGetSize` | io.h:67-73 | an answered query gives the file's size; a failed query gives 0, the same as an empty file |
| `FileIO.FileWrite` | io.h:75-80 | success exactly when `WriteFile` succeeds and reports all `size` bytes written; the count is truncated to 32 bits, so a string of 2^32 bytes or more never succeeds |
| `FileIO.FileRead` | io.h:82-85 | one `ReadFile` of `(DWORD)bytes_to_read` bytes into `dest`, which on success holds what the file has from the handle's position on; the count is not returned |
| `FileIO.FileReadToString` | io.h:87-99 | `dest` becomes a fresh buffer of file size + 1 bytes (1 when the size query fails) with 0 at index file size; the result is the read's success, and a successful read fills the buffer's start |
| `FileIO.CreateThenGetSize` | io.h:44-73 | a file opened with CREATE and never written reports size 0 |
| `FileIO.CreateAndWrite` | io.h:44-80 | when creating and writing succeed, the file holds exactly the string's bytes |
| `FileIO.OpenAndReadBack` | io.h:87-99 | reading a whole file back gives its bytes followed by a terminator, provided file size + 1 is below 2^32 |
| `FileIO.WriteThenReadBack` | io.h:44-99 | a completed write then read back returns the string's bytes with a terminator; a string of exactly 2^32 - 1 bytes is asked for `(DWORD)2^32 = 0` bytes |
| `Win32.ReadAt` | io.h:84 | a read of at most n bytes gets no more than n, nothing past the end, and min(n, remaining) bytes otherwise |
| `Win32.Overwrite` | io.h:78 | a write at the (clamped) position keeps the bytes before it and places the data there |
| `Win32.System.HeapAlloc` | io.h:33 | `HeapAlloc` gives a fresh block of the requested number of units and records it as live |
| `Win32.System.HeapFree` | io.h:58 | `HeapFree` removes the block from the live set; freeing null does nothing |
| `Win32.System.MultiByteToWideChar` | io.h:31-35 | with no buffer the result is the number of units needed; with a buffer that is large enough, the decoded units are written; 0 on failure |
| `Win32.System.CreateFileW` | io.h:57 | an open succeeds only for a non-null path, creating/emptying the file or requiring it to exist, and gives a fresh handle at position 0 with the requested rights |
| `Win32.System.CloseHandle` | io.h:64 | the handle is removed; success means it was open |
| `Win32.System.GetFileSizeEx` | io.h:70 | success only for an open handle, with the file's size |
| `Win32.System.ReadFile` | io.h:84 | success only for a readable handle: the bytes from its position land at the start of the buffer and the position moves past them |
| `Win32.System.WriteFile` | io.h:78 | success only for a writable handle: a prefix of the data of the reported length is written at its position and the position moves past it |

## Left out

- The UTF-8 to UTF-16 decoding is done inside `MultiByteToWideChar`. Here it is
  a function value of `System` (bytes and count to units or failure), bounded
  below 2^31 units as its `int` result requires. The model does not say which
  byte sequences are valid UTF-8.
- The real semantics of `CreateFileW`, `ReadFile`, `WriteFile`, `CloseHandle`
  and `GetFileSizeEx` are not modelled: sharing modes, permissions and device
  errors are not. Success is left open, constrained only by the store, the
  handle's rights and the file sizes a `LONGLONG` can report.
- `HeapAlloc`, `malloc` and the arena never fail in the model. The source never
  checks their results for null.
- FileIO.FileRead: `actually_read` is cast from a value (0) to a pointer,
  so `ReadFile` receives a null count pointer. The model lets the call
  succeed or fail as above and drops the count. It does not model what
  Windows does with a null count pointer when `lpOverlapped` is also null.
- FileIO.FileReadToString: when the size query fails and the read succeeds,
  the read may overwrite the terminator at index 0. The contract then promises
  the read bytes, not a terminator. This is what the code does.
- Strings.StringCompareAsWritten: two `null_string`s reach the loop and
  dereference null. The model requires that the scan stays inside readable
  memory, so it excludes that call.
- Strings.StringTrim: requires that the bytes `memcpy` reads lie in readable
  memory. The source does not check this, and an out-of-range copy has no
  defined result to model.
- Leaks and ownership of heap blocks are tracked only as far as the live set
  of `System`: the UTF-16 buffer that leaks when conversion fails. The
  `malloc` block of `file_read_to_string` is handed to the caller.
- Concurrency, and the non-Windows branch of `io.h` (which does not compile),
  are not modelled.
- Base.ToU32: states only that values below 2^32 are kept. The body is the
  reduction modulo 2^32 itself.

## Findings

| source | as written | input that shows it | evidently intended | confidence | as-written member | corrected member |
|---|---|---|---|---|---|---|
| string.h:11 | `cstr_length` returns `p - s`, the start pointer minus the end pointer, as a `u64` | the C string `"ab"` gives 2^64 - 2, not 2; any length n other than 0 and 2^63 gives 2^64 - n (`Strings.CStrLengthAsWrittenMisreports`), and through `str` a path of n < 2^31 bytes reaches `MultiByteToWideChar` with count -n (`Strings.AsWrittenLengthReachesConversionNegated`) | `s - p`, the number of bytes before the terminator | high; not executed | `Strings.CStrLengthAsWritten` | `Strings.CStrLength` |
| string.h:40-45 | `string_compare` loops while `*a.data` is non-zero: it stops at `a`'s first zero byte and is not bounded by `size` | size-2 views over `{0,1}` and `{0,2}` compare equal (`Strings.CompareAsWrittenIgnoresBytesAfterZero`); size-1 views over `{7,1,0}` and `{7,2,0}`, whose contents are both `{7}`, compare unequal (`Strings.CompareAsWrittenReadsPastSize`) | compare the `size` bytes of the two views | high; not executed | `Strings.StringCompareAsWritten` | `Strings.StringCompare` |
