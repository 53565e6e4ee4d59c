/**
 * The managed logic of the Windows file interop class `NativeMethods`:
 * the 64-bit seek wrapper around `SetFilePointer`, and the rule by which
 * the three `ThrowExceptionForLastWin32ErrorIfExists` overloads turn a
 * Win32 error code into "return normally" or "throw".
 *
 * Everything the class hands straight to Windows is outside this module.
 * The one native call the wrapper logic depends on, `SetFilePointer`, is a
 * function parameter of `Seek`, and the thread's last Win32 error is an
 * explicit argument wherever the source reads it.
 */
module NativeMethods {
  import opened TwosComplement

  // =====================================================================
  // Win32 error codes named by the class
  // =====================================================================

  const ERROR_SUCCESS: Int32 := 0
  const ERROR_FILE_NOT_FOUND: Int32 := 2
  const ERROR_DIRECTORY_NOT_FOUND: Int32 := 3
  const ERROR_NO_MORE_FILES: Int32 := 18
  const ERROR_ALREADY_EXISTS: Int32 := 183
  const ERROR_HANDLE_EOF: Int32 := 38

  /** The codes above, in the order the class declares them. */
  const NamedErrorCodes: seq<Int32> := [ERROR_SUCCESS, ERROR_FILE_NOT_FOUND, ERROR_DIRECTORY_NOT_FOUND,
                                        ERROR_NO_MORE_FILES, ERROR_ALREADY_EXISTS, ERROR_HANDLE_EOF]

  // =====================================================================
  // Error acceptance
  // =====================================================================

  /** An `int[]` argument that may be null: `None` is the null array. */
  datatype Option<T> = None | Some(value: T)

  /**
   * How a call of one of the overloads ends. `Thrown(e)` stands for the
   * exception that `Marshal.GetExceptionForHR` builds from the HRESULT of
   * the last Win32 error `e`; the exception's own content is not modelled.
   */
  datatype Outcome = Returned | Thrown(lastError: Int32)

  /**
   * `expectErrorCodes != null && expectErrorCodes.Contains(errorCode)`: the
   * array is present and some element of it equals the code.
   */
  predicate IsExpected(errorCode: Int32, expectErrorCodes: Option<seq<Int32>>)
  {
    expectErrorCodes.Some? && errorCode in expectErrorCodes.value
  }

  /**
   * `ThrowExceptionForLastWin32ErrorIfExists(int[] expectErrorCodes)`:
   * reads the last Win32 error and returns when it is one of the expected
   * codes, otherwise throws the exception for that error.
   */
  function ThrowForLastErrorUnlessExpected(lastError: Int32, expectErrorCodes: Option<seq<Int32>>): (r: Outcome)
    ensures r == Returned <==> expectErrorCodes.Some? && lastError in expectErrorCodes.value
    ensures r != Returned ==> r == Thrown(lastError)
  {
    var errorCode := lastError;
    if IsExpected(errorCode, expectErrorCodes) then Returned else Thrown(lastError)
  }

  /**
   * `ThrowExceptionForLastWin32ErrorIfExists()`: the array overload with
   * the single expected code `ERROR_SUCCESS`.
   */
  function ThrowForLastError(lastError: Int32): (r: Outcome)
    ensures r == Returned <==> lastError == ERROR_SUCCESS
    ensures r != Returned ==> r == Thrown(lastError)
  {
    ThrowForLastErrorUnlessExpected(lastError, Some([ERROR_SUCCESS]))
  }

  /**
   * `ThrowExceptionForLastWin32ErrorIfExists(int errorCode, int[] expectErrorCodes)`:
   * decides on the code it is given, but the exception it throws is built
   * from the thread's last Win32 error, which it does not compare with
   * anything.
   */
  function ThrowForErrorCodeUnlessExpected(errorCode: Int32, expectErrorCodes: Option<seq<Int32>>, lastError: Int32): (r: Outcome)
    ensures r == Returned <==> expectErrorCodes.Some? && errorCode in expectErrorCodes.value
    ensures r != Returned ==> r == Thrown(lastError)
  {
    if IsExpected(errorCode, expectErrorCodes) then Returned else Thrown(lastError)
  }

  /** A null array, and equally an empty one, makes every code throw, ERROR_SUCCESS included. */
  lemma NullOrEmptyExpectedAlwaysThrows(errorCode: Int32, lastError: Int32, expectErrorCodes: Option<seq<Int32>>)
    requires expectErrorCodes == None || expectErrorCodes == Some([])
    ensures ThrowForLastErrorUnlessExpected(lastError, expectErrorCodes) == Thrown(lastError)
    ensures ThrowForErrorCodeUnlessExpected(errorCode, expectErrorCodes, lastError) == Thrown(lastError)
  {
  }

  /** Only which codes the array holds matters: neither their order nor repetitions. */
  lemma AcceptanceDependsOnlyOnMembership(errorCode: Int32, lastError: Int32, a: seq<Int32>, b: seq<Int32>)
    requires forall c :: c in a <==> c in b
    ensures ThrowForLastErrorUnlessExpected(lastError, Some(a)) == ThrowForLastErrorUnlessExpected(lastError, Some(b))
    ensures ThrowForErrorCodeUnlessExpected(errorCode, Some(a), lastError)
         == ThrowForErrorCodeUnlessExpected(errorCode, Some(b), lastError)
  {
  }

  /** Expecting more codes never turns a normal return into a throw. */
  lemma MoreExpectedCodesKeepAcceptance(errorCode: Int32, lastError: Int32, a: seq<Int32>, b: seq<Int32>)
    requires forall c :: c in a ==> c in b
    ensures ThrowForLastErrorUnlessExpected(lastError, Some(a)) == Returned
        ==> ThrowForLastErrorUnlessExpected(lastError, Some(b)) == Returned
    ensures ThrowForErrorCodeUnlessExpected(errorCode, Some(a), lastError) == Returned
        ==> ThrowForErrorCodeUnlessExpected(errorCode, Some(b), lastError) == Returned
  {
  }

  /**
   * The explicit-code overload returns or throws regardless of the last
   * error, and what it throws depends on the last error alone.
   */
  lemma ExplicitCodeDecidesWithoutLastError(errorCode: Int32, expectErrorCodes: Option<seq<Int32>>, lastError1: Int32, lastError2: Int32)
    ensures ThrowForErrorCodeUnlessExpected(errorCode, expectErrorCodes, lastError1).Returned?
        == ThrowForErrorCodeUnlessExpected(errorCode, expectErrorCodes, lastError2).Returned?
    ensures ThrowForErrorCodeUnlessExpected(errorCode, expectErrorCodes, lastError1) == Thrown(lastError1)
        ==> ThrowForErrorCodeUnlessExpected(errorCode, expectErrorCodes, lastError2) == Thrown(lastError2)
  {
  }

  /**
   * An unexpected captured code whose last error has since been overwritten
   * throws for the newer error: a stale ERROR_ALREADY_EXISTS checked after
   * the last error became ERROR_FILE_NOT_FOUND throws for file-not-found,
   * and one whose last error is back to ERROR_SUCCESS throws for success.
   */
  lemma ExplicitCodeThrowsCurrentLastError()
    ensures ThrowForErrorCodeUnlessExpected(ERROR_ALREADY_EXISTS, Some([ERROR_SUCCESS]), ERROR_FILE_NOT_FOUND)
         == Thrown(ERROR_FILE_NOT_FOUND)
    ensures ThrowForErrorCodeUnlessExpected(ERROR_ALREADY_EXISTS, None, ERROR_SUCCESS) == Thrown(ERROR_SUCCESS)
  {
  }

  /** When the captured code is the current last error, the array and explicit-code overloads agree. */
  lemma OverloadsAgreeOnCurrentError(lastError: Int32, expectErrorCodes: Option<seq<Int32>>)
    ensures ThrowForLastErrorUnlessExpected(lastError, expectErrorCodes)
         == ThrowForErrorCodeUnlessExpected(lastError, expectErrorCodes, lastError)
  {
  }

  /**
   * The named codes are six distinct Win32 values, so listing one of them
   * as expected never lets another one through.
   */
  lemma ExpectingOneNamedCodeAcceptsNoOther(i: nat, j: nat)
    requires i < |NamedErrorCodes| && j < |NamedErrorCodes| && i != j
    ensures NamedErrorCodes[i] != NamedErrorCodes[j]
    ensures ThrowForLastErrorUnlessExpected(NamedErrorCodes[i], Some([NamedErrorCodes[j]])) == Thrown(NamedErrorCodes[i])
  {
  }

  /**
   * Directory creation that may find the directory already there: without
   * opting in the error throws, with ERROR_ALREADY_EXISTS among the
   * expected codes it returns.
   */
  lemma AlreadyExistsNeedsOptIn()
    ensures ThrowForLastError(ERROR_ALREADY_EXISTS) == Thrown(ERROR_ALREADY_EXISTS)
    ensures ThrowForLastErrorUnlessExpected(ERROR_ALREADY_EXISTS, Some([ERROR_SUCCESS, ERROR_ALREADY_EXISTS])) == Returned
  {
  }

  // =====================================================================
  // Seek
  // =====================================================================

  /** `System.IO.SeekOrigin` by its underlying value: an enum variable may hold any `int`. */
  type SeekOrigin = Int32

  const Begin: SeekOrigin := 0
  const Current: SeekOrigin := 1
  const End: SeekOrigin := 2

  /** The Win32 `dwMoveMethod` values `FILE_BEGIN`, `FILE_CURRENT`, `FILE_END`. */
  const FILE_BEGIN: UInt32 := 0
  const FILE_CURRENT: UInt32 := 1
  const FILE_END: UInt32 := 2

  /**
   * The move method selected by the `switch` in Seek: Begin, Current and
   * End select their Win32 counterpart, and any other value keeps the
   * initial FILE_BEGIN.
   */
  function MoveMethodOf(origin: SeekOrigin): (m: UInt32)
    ensures m == FILE_BEGIN || m == FILE_CURRENT || m == FILE_END
    ensures m == FILE_CURRENT <==> origin == Current
    ensures m == FILE_END <==> origin == End
  {
    match origin
    case 1 => FILE_CURRENT
    case 2 => FILE_END
    case _ => FILE_BEGIN
  }

  /** `(int)(offset & 0xffffffff)`: its bit pattern is the low 32 bits of the offset. */
  function LowWord(offset: Int64): (lo: Int32)
    ensures ToUInt32(lo) == offset % TWO_32
  {
    And64LowMask(offset);
    ToInt32(And64(offset, 0xffff_ffff))
  }

  /** `(int)(offset >> 32)`: the signed high 32 bits, that is, the offset divided by 2^32 rounding down. */
  function HighWord(offset: Int64): (hi: Int32)
    ensures hi * TWO_32 <= offset < hi * TWO_32 + TWO_32
  {
    ToInt32(ShiftRight32(offset))
  }

  /**
   * `((long)hi << 32) | (uint)lo`: the bitwise reassembly computes exactly
   * the number the pair of words stands for.
   */
  function Reassemble(lo: Int32, hi: Int32): (r: Int64)
    ensures r == Combine(lo, hi)
  {
    assert ShiftLeft32(hi) == hi * TWO_32;
    Or64Disjoint(ShiftLeft32(hi), ToUInt32(lo));
    Or64(ShiftLeft32(hi), ToUInt32(lo))
  }

  /**
   * The number a pair of words stands for: `hi` is the signed upper half
   * and the bit pattern of `lo` is the lower half.
   */
  function Combine(lo: Int32, hi: Int32): Int64
  {
    hi * TWO_32 + ToUInt32(lo)
  }

  /** The two words of an offset stand for the offset. */
  lemma SplitIsCombine(offset: Int64)
    ensures Combine(LowWord(offset), HighWord(offset)) == offset
  {
  }

  /** Different pairs of words stand for different numbers. */
  lemma CombineInjective(lo1: Int32, hi1: Int32, lo2: Int32, hi2: Int32)
    requires Combine(lo1, hi1) == Combine(lo2, hi2)
    ensures lo1 == lo2 && hi1 == hi2
  {
  }

  /** Split then reassemble is the identity on every `long`. */
  lemma SplitThenReassemble(offset: Int64)
    ensures Reassemble(LowWord(offset), HighWord(offset)) == offset
  {
    SplitIsCombine(offset);
  }

  /**
   * Reassembly does not sign-extend the low word: splitting the result gives
   * back both words, so its low 32 bits are the pattern of `lo` and its high
   * 32 bits are `hi`, also when `lo` is negative.
   */
  lemma ReassembleThenSplit(lo: Int32, hi: Int32)
    ensures LowWord(Reassemble(lo, hi)) == lo && HighWord(Reassemble(lo, hi)) == hi
    ensures Reassemble(lo, hi) % TWO_32 == ToUInt32(lo)
  {
    var v := Reassemble(lo, hi);
    SplitIsCombine(v);
    CombineInjective(LowWord(v), HighWord(v), lo, hi);
  }

  /**
   * The `(uint)` cast is what keeps the high word: with the sentinel low
   * word -1, the code as written yields hi * 2^32 + 0xFFFFFFFF, whereas
   * OR-ing the sign-extended `int` would give -1 whatever `hi` is.
   */
  lemma LowWordIsNotSignExtended(hi: Int32)
    ensures Reassemble(-1, hi) == hi * TWO_32 + 0xFFFF_FFFF
    ensures Or64(ShiftLeft32(hi), -1) == -1
  {
    Pow2Widths();
    BitOrAllOnes(PatternOf(ShiftLeft32(hi)), 64);
  }

  /** Offsets at the edges of the 32-bit halves split into the expected words, which reassemble into the offset. */
  lemma SplitBoundaries()
    ensures LowWord(0) == 0 && HighWord(0) == 0 && Reassemble(0, 0) == 0
    ensures LowWord(0x7FFF_FFFF) == 0x7FFF_FFFF && HighWord(0x7FFF_FFFF) == 0
         && Reassemble(0x7FFF_FFFF, 0) == 0x7FFF_FFFF
    ensures LowWord(0x8000_0000) == -0x8000_0000 && HighWord(0x8000_0000) == 0
         && Reassemble(-0x8000_0000, 0) == 0x8000_0000
    ensures LowWord(0x1_0000_0000) == 0 && HighWord(0x1_0000_0000) == 1
         && Reassemble(0, 1) == 0x1_0000_0000
    ensures LowWord(0x100_0000_0000) == 0 && HighWord(0x100_0000_0000) == 0x100
         && Reassemble(0, 0x100) == 0x100_0000_0000
    ensures LowWord(-1) == -1 && HighWord(-1) == -1 && Reassemble(-1, -1) == -1
    ensures LowWord(-0x8000_0000_0000_0000) == 0 && HighWord(-0x8000_0000_0000_0000) == -0x8000_0000
         && Reassemble(0, -0x8000_0000) == -0x8000_0000_0000_0000
  {
    ReassembleThenSplit(0, 0);
    ReassembleThenSplit(0x7FFF_FFFF, 0);
    ReassembleThenSplit(-0x8000_0000, 0);
    ReassembleThenSplit(0, 1);
    ReassembleThenSplit(0, 0x100);
    ReassembleThenSplit(-1, -1);
    ReassembleThenSplit(0, -0x8000_0000);
  }


  /**
   * `SetFilePointer(handle, lDistanceToMove, out lpDistanceToMoveHigh, dwMoveMethod)`
   * on the handle being sought: given the low distance word, the value of
   * the variable whose address is passed as the high word, and the move
   * method, it returns the low word of the new position and the high word
   * it leaves in that variable.
   */
  type SetFilePointerCall = (Int32, Int32, UInt32) -> (Int32, Int32)

  /** The words Seek computes are the only pair of words that stands for the offset. */
  lemma WordsOfOffset(offset: Int64)
    ensures forall lo: Int32, hi: Int32 {:trigger Combine(lo, hi)} ::
      Combine(lo, hi) == offset <==> lo == LowWord(offset) && hi == HighWord(offset)
  {
  }

  /**
   * The position Seek returns: SetFilePointer is given the pair of words
   * that stands for `offset` and the move method `origin` selects, and the
   * pair it reports back is read as one 64-bit number.
   */
  function SeekPosition(setFilePointer: SetFilePointerCall, offset: Int64, origin: SeekOrigin): (position: Int64)
    ensures forall lo: Int32, hi: Int32 {:trigger Combine(lo, hi)} :: Combine(lo, hi) == offset ==>
      position == Combine(setFilePointer(lo, hi, MoveMethodOf(origin)).0, setFilePointer(lo, hi, MoveMethodOf(origin)).1)
  {
    WordsOfOffset(offset);
    var reported := setFilePointer(LowWord(offset), HighWord(offset), MoveMethodOf(origin));
    Combine(reported.0, reported.1)
  }

  /**
   * `Seek(handle, offset, origin)`. `lastError` is the thread's last Win32
   * error after the native call; Seek builds an exception from it when the
   * returned low word is -1, and drops it.
   */
  method Seek(setFilePointer: SetFilePointerCall, offset: Int64, origin: SeekOrigin, lastError: Int32)
    returns (position: Int64)
    ensures position == SeekPosition(setFilePointer, offset, origin)
  {
    var moveMethod: UInt32 := 0;
    if origin == Begin {
      moveMethod := FILE_BEGIN;
    } else if origin == Current {
      moveMethod := FILE_CURRENT;
    } else if origin == End {
      moveMethod := FILE_END;
    }

    var lo := LowWord(offset);
    var hi := HighWord(offset);

    var reported := setFilePointer(lo, hi, moveMethod);
    lo, hi := reported.0, reported.1;

    if lo == -1 {
      var unthrown := Thrown(lastError);
    }

    position := Reassemble(lo, hi);
  }

  /**
   * A returned low word of -1 does not make Seek fail: the position it
   * returns has all 32 low bits set and the reported high word above them,
   * whatever the last error is.
   */
  lemma SentinelLowWordIsReturnedAsPosition(setFilePointer: SetFilePointerCall, offset: Int64, origin: SeekOrigin)
    requires setFilePointer(LowWord(offset), HighWord(offset), MoveMethodOf(origin)).0 == -1
    ensures SeekPosition(setFilePointer, offset, origin)
         == setFilePointer(LowWord(offset), HighWord(offset), MoveMethodOf(origin)).1 * TWO_32 + 0xFFFF_FFFF
  {
  }

  /**
   * A SetFilePointer that reports back the distance it was given, as a
   * successful move from the beginning does, makes Seek return the offset:
   * the split and the reassembly undo each other through the native call.
   */
  lemma ReportedDistanceIsOffset(setFilePointer: SetFilePointerCall, offset: Int64, origin: SeekOrigin)
    requires setFilePointer(LowWord(offset), HighWord(offset), MoveMethodOf(origin)) == (LowWord(offset), HighWord(offset))
    ensures SeekPosition(setFilePointer, offset, origin) == offset
  {
  }

  // =====================================================================
  // Seek with the failure check it leaves out
  // =====================================================================

  /** The result of a seek that reports failure: a position, or the last Win32 error of the failed call. */
  datatype SeekOutcome = Position(value: Int64) | SeekFailed(lastError: Int32)

  /**
   * The same seek, failing when SetFilePointer signals failure: its value
   * INVALID_SET_FILE_POINTER (a low word of -1) together with a last error
   * other than ERROR_SUCCESS. A low word of -1 with ERROR_SUCCESS is a
   * genuine position.
   */
  function CheckedSeekOutcome(setFilePointer: SetFilePointerCall, offset: Int64, origin: SeekOrigin, lastError: Int32): (r: SeekOutcome)
    ensures r.SeekFailed? <==>
      setFilePointer(LowWord(offset), HighWord(offset), MoveMethodOf(origin)).0 == -1 && lastError != ERROR_SUCCESS
    ensures r.SeekFailed? ==> r.lastError == lastError
    ensures r.Position? ==> r.value == SeekPosition(setFilePointer, offset, origin)
  {
    var reported := setFilePointer(LowWord(offset), HighWord(offset), MoveMethodOf(origin));
    if reported.0 == -1 && lastError != ERROR_SUCCESS then SeekFailed(lastError)
    else Position(Reassemble(reported.0, reported.1))
  }

  /**
   * Seek with the exception of line 126 thrown, the result modelling the
   * exception, and with the test of line 124 extended so that it also
   * requires a last error other than ERROR_SUCCESS.
   */
  method CheckedSeek(setFilePointer: SetFilePointerCall, offset: Int64, origin: SeekOrigin, lastError: Int32)
    returns (r: SeekOutcome)
    ensures r == CheckedSeekOutcome(setFilePointer, offset, origin, lastError)
  {
    var moveMethod: UInt32 := 0;
    if origin == Begin {
      moveMethod := FILE_BEGIN;
    } else if origin == Current {
      moveMethod := FILE_CURRENT;
    } else if origin == End {
      moveMethod := FILE_END;
    }

    var lo := LowWord(offset);
    var hi := HighWord(offset);

    var reported := setFilePointer(lo, hi, moveMethod);
    lo, hi := reported.0, reported.1;

    if lo == -1 && lastError != ERROR_SUCCESS {
      return SeekFailed(lastError);
    }

    r := Position(Reassemble(lo, hi));
  }

  /**
   * Where the two differ: a failed call (low word -1 and a nonzero last
   * error) at offset 0 from the beginning, with the high word left at 0,
   * makes Seek as written return 0xFFFFFFFF as a position, while the checked
   * seek reports the failure.
   */
  lemma UncheckedFailureBecomesPosition(setFilePointer: SetFilePointerCall, lastError: Int32)
    requires setFilePointer(0, 0, FILE_BEGIN) == (-1, 0) && lastError != ERROR_SUCCESS
    ensures SeekPosition(setFilePointer, 0, Begin) == 0xFFFF_FFFF
    ensures CheckedSeekOutcome(setFilePointer, 0, Begin, lastError) == SeekFailed(lastError)
  {
  }

  /** Apart from that case the checked seek returns what Seek returns. */
  lemma CheckedSeekAgreesUnlessFailed(setFilePointer: SetFilePointerCall, offset: Int64, origin: SeekOrigin, lastError: Int32)
    requires setFilePointer(LowWord(offset), HighWord(offset), MoveMethodOf(origin)).0 != -1 || lastError == ERROR_SUCCESS
    ensures CheckedSeekOutcome(setFilePointer, offset, origin, lastError) == Position(SeekPosition(setFilePointer, offset, origin))
  {
  }
}
