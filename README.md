# Win32 seek arithmetic and error acceptance of `NativeMethods`

This project models the managed logic of the Windows file interop class
`NativeMethods` (`lib/FileNativeMethods.cs`) of the Azure Storage Data
Movement library, and proves properties of it in Dafny. Two parts of that
class do work of their own instead of handing it straight to Windows:

- **`Seek`** turns a `SeekOrigin` into a Win32 move method. It splits a
  signed 64-bit offset into a 32-bit low word `(int)(offset & 0xffffffff)`
  and a high word `(int)(offset >> 32)`, calls `SetFilePointer`, and rebuilds
  the position as `((long)hi << 32) | (uint)lo`.
- **`ThrowExceptionForLastWin32ErrorIfExists`**, in three overloads, decides
  whether a Win32 error code is expected (return normally) or not (throw the
  exception built from the last Win32 error).

Files:

- `twos_complement.dfy`, module `TwosComplement`: C# `int`, `uint` and
  `long` as integer ranges, with the unchecked casts, the shifts by 32, and
  bitwise `&` and `|`. The bitwise operators work bit by bit on the 64-bit
  two's-complement pattern, so facts such as "OR of disjoint bit ranges is
  addition" and "AND with 32 one bits is reduction modulo 2^32" are proved,
  not assumed.
- `native_methods.dfy`, module `NativeMethods`: the `ERROR_*` constants, the
  three overloads as functions returning an `Outcome`, and `Seek` as a
  method. The method is proved against the specification function
  `SeekPosition`, and lemmas state what that function means.

Modelling choices:

- `SetFilePointer` on the sought handle is a function parameter of type
  `SetFilePointerCall`. It takes the low word, the value of `hi` (the native
  call receives that variable's address as `lpDistanceToMoveHigh`) and the
  move method. It returns the new low word and the high word it writes back.
  The model gives it no file-position behaviour of its own.
- The thread's last Win32 error is an explicit argument wherever the source
  reads it (`Marshal.GetLastWin32Error`, `Marshal.GetHRForLastWin32Error`).
- A null `int[]` is `None`. `Contains` is sequence membership.
- `SeekOrigin` is kept as its underlying `int`, because a C# enum variable can
  hold values other than `Begin`, `Current` and `End`.
- Arithmetic is unchecked, which is the C# default.

Points where the code does something a reader might not expect, each of
which the model follows:

- A null array, and also an empty array, makes both array overloads throw
  for every code, `ERROR_SUCCESS` included (lib/FileNativeMethods.cs:152-157,
  `NullOrEmptyExpectedAlwaysThrows`). Unless the array lists it,
  `ERROR_SUCCESS` is accepted only by the no-argument overload, which
  passes `{ ERROR_SUCCESS }`.
- The Win32 `SetFilePointer` function signals failure by returning
  `INVALID_SET_FILE_POINTER` (0xFFFFFFFF, a low word of -1) with a last
  error other than `ERROR_SUCCESS`; the same low word with `ERROR_SUCCESS`
  is a genuine position. `Seek` builds the exception when the low word is -1
  (lib/FileNativeMethods.cs:124-127) and then drops it. It never reads the
  last error to decide anything, and it returns the reassembled value.
  `Seek` models this as written. The checked variant is under "Findings".
- The explicit-code overload is documented as throwing "if the Win32 error
  given is not expected" (lib/FileNativeMethods.cs:160-164). It decides on
  `errorCode` alone, but the exception it throws is built from the thread's
  last Win32 error, not from `errorCode` (lib/FileNativeMethods.cs:172,
  `ExplicitCodeDecidesWithoutLastError`, `ExplicitCodeThrowsCurrentLastError`).

## Model

| member | source | states |
|---|---|---|
| TwosComplement.PatternOf | lib/FileNativeMethods.cs:119 | the bit pattern of a `long` is congruent to it modulo 2^64 and reads back as the same `long` |
| TwosComplement.FromPattern | lib/FileNativeMethods.cs:129 | the `long` read from a 64-bit pattern is congruent to the pattern modulo 2^64 |
| TwosComplement.ToInt32 | lib/FileNativeMethods.cs:119-120 | the unchecked `(int)` cast keeps the value modulo 2^32, and it is the identity on values that fit in an `int` |
| TwosComplement.ToUInt32 | lib/FileNativeMethods.cs:129 | the unchecked `(uint)` cast keeps the value modulo 2^32, and casting back to `int` restores the original |
| TwosComplement.ShiftRight32 | lib/FileNativeMethods.cs:120 | `offset >> 32` always fits in an `int`, and it is the floor of offset / 2^32, as an arithmetic shift is |
| TwosComplement.ShiftLeft32 | lib/FileNativeMethods.cs:129 | `x << 32` is congruent to x * 2^32 modulo 2^64, and it equals x * 2^32 for every `int` x |
| TwosComplement.BitAnd | lib/FileNativeMethods.cs:119 | bitwise AND is at most each operand |
| TwosComplement.BitOr | lib/FileNativeMethods.cs:129 | bitwise OR is at least each operand and at most their sum |
| TwosComplement.BitAndLowMask | lib/FileNativeMethods.cs:119 | AND with k one bits is reduction modulo 2^k, for every number and every k |
| TwosComplement.BitOrDisjoint | lib/FileNativeMethods.cs:129 | OR of a number with k clear low bits and a number below 2^k is their sum |
| TwosComplement.BitOrBelow | lib/FileNativeMethods.cs:129 | OR of two numbers below 2^k stays below 2^k, so OR of two `long`s is a `long` |
| TwosComplement.BitOrAllOnes | lib/FileNativeMethods.cs:129 | OR of any number below 2^k with k one bits is k one bits |
| TwosComplement.And64 | lib/FileNativeMethods.cs:119 | `x & y` on `long`s: masking with a non-negative `long` gives a number between 0 and the mask (And64LowMask gives its value for the mask 0xffffffff) |
| TwosComplement.Or64 | lib/FileNativeMethods.cs:129 | `x OR y` on `long`s: the result is negative exactly when an operand is, and for non-negative operands it lies between the larger operand and their sum (Or64Disjoint gives its value for disjoint bits) |
| TwosComplement.And64LowMask | lib/FileNativeMethods.cs:119 | `offset & 0xffffffff` on a `long` is offset modulo 2^32, for every offset, negative ones included |
| TwosComplement.Or64Disjoint | lib/FileNativeMethods.cs:129 | OR of two `long`s is x + y when the low 32 bits of x are clear and y is in [0, 2^32) |
| NativeMethods.ExpectingOneNamedCodeAcceptsNoOther | lib/FileNativeMethods.cs:22-27 | the six named `ERROR_*` constants are distinct values, so expecting any one of them lets no other one through |
| NativeMethods.ThrowForLastErrorUnlessExpected | lib/FileNativeMethods.cs:148-158 | the array overload returns exactly when the array is non-null and contains the last error (the test `IsExpected` of lines 152-153), and otherwise throws for that error |
| NativeMethods.ThrowForLastError | lib/FileNativeMethods.cs:137-142 | the no-argument overload returns exactly when the last error is ERROR_SUCCESS (0), and otherwise throws for that error |
| NativeMethods.ThrowForErrorCodeUnlessExpected | lib/FileNativeMethods.cs:165-173 | the explicit-code overload returns exactly when the array is non-null and contains `errorCode` (the same test `IsExpected`, lines 167-168), and otherwise throws for the last error |
| NativeMethods.NullOrEmptyExpectedAlwaysThrows | lib/FileNativeMethods.cs:152-157 | a null or empty array makes both array overloads throw for every code, including ERROR_SUCCESS |
| NativeMethods.AcceptanceDependsOnlyOnMembership | lib/FileNativeMethods.cs:153 | two arrays that hold the same codes, in any order and with any repetition, give the same outcome in both overloads |
| NativeMethods.MoreExpectedCodesKeepAcceptance | lib/FileNativeMethods.cs:168 | if an array makes an overload return, any array holding at least its codes makes it return too |
| NativeMethods.ExplicitCodeDecidesWithoutLastError | lib/FileNativeMethods.cs:165-172 | whether the explicit-code overload returns does not depend on the last error, and when it throws, it throws for the current last error |
| NativeMethods.ExplicitCodeThrowsCurrentLastError | lib/FileNativeMethods.cs:167-172 | an unexpected ERROR_ALREADY_EXISTS checked after the last error changed throws for the newer error (ERROR_FILE_NOT_FOUND, or even ERROR_SUCCESS) |
| NativeMethods.OverloadsAgreeOnCurrentError | lib/FileNativeMethods.cs:148-173 | the array overload equals the explicit-code overload applied to the last error |
| NativeMethods.AlreadyExistsNeedsOptIn | lib/FileNativeMethods.cs:137-158 | ERROR_ALREADY_EXISTS (183) throws in the no-argument overload, and it returns when the array lists it |
| NativeMethods.MoveMethodOf | lib/FileNativeMethods.cs:102-117 | the move method is 0, 1 or 2. It is 1 exactly for Current and 2 exactly for End, so Begin and every other origin value give 0 |
| NativeMethods.LowWord | lib/FileNativeMethods.cs:119 | the bit pattern of the low word is offset modulo 2^32 |
| NativeMethods.HighWord | lib/FileNativeMethods.cs:120 | the high word is the floor of offset / 2^32, sign-extended for negative offsets |
| NativeMethods.Reassemble | lib/FileNativeMethods.cs:129 | the bitwise reassembly `((long)hi << 32) OR (uint)lo` equals hi * 2^32 + (lo read as unsigned), for every pair of words |
| NativeMethods.SplitIsCombine | lib/FileNativeMethods.cs:119-120 | the two words computed from an offset stand for that offset |
| NativeMethods.CombineInjective | lib/FileNativeMethods.cs:119-120 | two pairs of words that stand for the same number are equal |
| NativeMethods.WordsOfOffset | lib/FileNativeMethods.cs:119-120 | a pair of words stands for the offset exactly when it is the pair the split computes |
| NativeMethods.SplitThenReassemble | lib/FileNativeMethods.cs:119-129 | splitting then reassembling gives back every signed 64-bit offset |
| NativeMethods.ReassembleThenSplit | lib/FileNativeMethods.cs:129 | reassembly does not sign-extend the low word: splitting the result gives back both words, and its low 32 bits are the pattern of `lo` |
| NativeMethods.LowWordIsNotSignExtended | lib/FileNativeMethods.cs:129 | with low word -1 the result is hi * 2^32 + 0xFFFFFFFF, while OR-ing the sign-extended `int` would give -1 whatever hi is |
| NativeMethods.SplitBoundaries | lib/FileNativeMethods.cs:119-129 | the words of 0, 2^31-1, 2^31, 2^32, 2^40, -1 and -2^63 are as expected, and each pair reassembles into its offset |
| NativeMethods.SeekPosition | lib/FileNativeMethods.cs:100-130 | for every pair of words standing for the offset, the position is the number standing for what SetFilePointer reports when given that pair and the origin's move method |
| NativeMethods.Seek | lib/FileNativeMethods.cs:100-130 | the method with its switch, split, native call, discarded exception and reassembly returns SeekPosition |
| NativeMethods.SentinelLowWordIsReturnedAsPosition | lib/FileNativeMethods.cs:124-129 | a reported low word of -1 does not make Seek fail: the result is the reported high word times 2^32 plus 0xFFFFFFFF, whatever the last error |
| NativeMethods.ReportedDistanceIsOffset | lib/FileNativeMethods.cs:119-129 | if SetFilePointer reports back the words it was given, Seek returns the offset |
| NativeMethods.UncheckedFailureBecomesPosition | lib/FileNativeMethods.cs:124-127 | a failed call at offset 0 (low word -1, high word 0, nonzero last error) makes Seek return 0xFFFFFFFF, while the checked seek fails with that error |
| NativeMethods.CheckedSeekOutcome | lib/FileNativeMethods.cs:124-127 | the corrected seek fails exactly when the low word is -1 and the last error is not ERROR_SUCCESS, and it fails with that error. Otherwise it returns Seek's position |
| NativeMethods.CheckedSeek | lib/FileNativeMethods.cs:100-130 | Seek with the exception of line 126 thrown, and with the test of line 124 extended by `lastError != ERROR_SUCCESS`, returns CheckedSeekOutcome |
| NativeMethods.CheckedSeekAgreesUnlessFailed | lib/FileNativeMethods.cs:124-129 | outside the failure case the checked seek returns the same position as Seek |

## Findings

| source | as written | input that shows it | evidently intended | confidence | as-written member | corrected member |
|---|---|---|---|---|---|---|
| lib/FileNativeMethods.cs:124-127 | when the low word is -1, the exception for the last Win32 error is created and discarded, and the reassembled words are returned as a position | offset 0 from Begin, where SetFilePointer returns -1, leaves the high word 0 and sets a nonzero last error: Seek returns 4294967295 | throw that exception, but only when the last error is also not ERROR_SUCCESS, because a low word of 0xFFFFFFFF is also a genuine position | medium, not executed | NativeMethods.UncheckedFailureBecomesPosition | NativeMethods.CheckedSeekOutcome |

## Left out

- The `DllImport` declarations (lib/FileNativeMethods.cs:41-98) are not modelled. They are foreign Windows calls with no logic on the managed side: `CreateFileW`, `CreateDirectoryW`, `ReadFile`/`WriteFile` with `NativeOverlapped`, `SetEndOfFile`, `GetFileSizeEx`, `GetFullPathNameW`, `FindFirstFileW`/`FindNextFileW`, `PathFileExistsW`, `GetFileAttributesW`.
- `SetFilePointer` itself is an arbitrary function parameter. The file position it maintains, and what it leaves in the high word on failure, are Windows behaviour. None of it is invented here.
- The `handle` argument of `Seek` is folded into the `SetFilePointerCall` parameter. The model does not cover `SafeFileHandle`/`SafeFindHandle` lifetime and release, which happen in the runtime and the OS.
- The `OFSTRUCT` layout is not modelled. It is marshalling metadata only.
- The content of the exceptions from `Marshal.GetExceptionForHR(Marshal.GetHRForLastWin32Error())` is not modelled. An outcome records only that the call throws, and the last Win32 error the exception is built from.
- The last Win32 error is per-thread ambient state in the source. Here it is an explicit argument, read at the points where the source reads it.
- The `#if !DOTNET5_4` switch is ignored: the guarded overloads are treated as present. Overlapped and concurrent I/O are not modelled.
- `ERROR_DIRECTORY_NOT_FOUND`, `ERROR_NO_MORE_FILES` and `ERROR_HANDLE_EOF` are declared with their values. Nothing in the modelled core uses them.
