/** The result codes of the patching test programs (tests/test_types.h): each
    test type's function returns one code before patching and another after,
    and the harness tells them apart. */
module TestTypes {

  const TEST_ERROR: nat := 0xDEAD_DEAD
  const TEST_FAILED: nat := 0xDEAD_BEAF

  const RESULT_CODE: nat := 0x0000_C0FF_EE00_0000

  /** `test_type_t`, without its terminating TEST_TYPE_MAX. */
  datatype TestType =
    | GlobalFunc
    | StaticFuncManual
    | ExtGlobalFunc
    | GlobalFuncCbManual
    | GlobalFuncP
    | GlobalVarManual
    | GlobalVarAddrManual
    | StaticVarManual
    | ConstVar
    | StaticFuncAuto
    | GlobalFuncCbAuto
    | GlobalVarAuto
    | GlobalVarAddrAuto
    | StaticVarAuto

  /** The enumerator that follows the last test type. */
  const TEST_TYPE_MAX: nat := 14

  /** The enumerators in declaration order. */
  const AllTestTypes: seq<TestType> := [
    GlobalFunc, StaticFuncManual, ExtGlobalFunc, GlobalFuncCbManual, GlobalFuncP,
    GlobalVarManual, GlobalVarAddrManual, StaticVarManual, ConstVar,
    StaticFuncAuto, GlobalFuncCbAuto, GlobalVarAuto, GlobalVarAddrAuto, StaticVarAuto
  ]

  /** The value C gives an enumerator: its position in the declaration. */
  function Ordinal(t: TestType): (r: nat)
    ensures r < TEST_TYPE_MAX
  {
    match t
      case GlobalFunc => 0
      case StaticFuncManual => 1
      case ExtGlobalFunc => 2
      case GlobalFuncCbManual => 3
      case GlobalFuncP => 4
      case GlobalVarManual => 5
      case GlobalVarAddrManual => 6
      case StaticVarManual => 7
      case ConstVar => 8
      case StaticFuncAuto => 9
      case GlobalFuncCbAuto => 10
      case GlobalVarAuto => 11
      case GlobalVarAddrAuto => 12
      case StaticVarAuto => 13
  }

  /** The enumerator with a given value. */
  function FromOrdinal(n: nat): TestType
    requires n < TEST_TYPE_MAX
  {
    AllTestTypes[n]
  }

  /** TEST_TYPE_MAX counts the enumerators before it, each of which has its
      position as its value and appears once. */
  lemma TestTypeMaxCounts()
    ensures |AllTestTypes| == TEST_TYPE_MAX
    ensures forall i :: 0 <= i < |AllTestTypes| ==> Ordinal(AllTestTypes[i]) == i
  {
  }

  /** Going to the enumerator's value and back gives the enumerator. */
  lemma OrdinalRoundTrip(t: TestType)
    ensures FromOrdinal(Ordinal(t)) == t
  {
  }

  /** `original_result`. */
  function OriginalResult(t: TestType): (r: nat)
    ensures RESULT_CODE <= r < RESULT_CODE + TEST_TYPE_MAX
  {
    RESULT_CODE + Ordinal(t)
  }

  /** `patched_result`. */
  function PatchedResult(t: TestType): (r: nat)
    ensures RESULT_CODE + TEST_TYPE_MAX <= r < RESULT_CODE + 2 * TEST_TYPE_MAX
  {
    OriginalResult(t) + TEST_TYPE_MAX
  }

  /** `function_result`: `patch` says whether PATCH is defined. */
  function FunctionResult(t: TestType, patch: bool): nat
  {
    if patch then PatchedResult(t) else OriginalResult(t)
  }

  /** A patched result is never an original one. */
  lemma PatchedNeverOriginal(t: TestType, t': TestType)
    ensures PatchedResult(t) != OriginalResult(t')
  {
  }

  /** Each result identifies its test type. */
  lemma ResultsInjective(t: TestType, t': TestType)
    ensures OriginalResult(t) == OriginalResult(t') ==> t == t'
    ensures PatchedResult(t) == PatchedResult(t') ==> t == t'
  {
  }

  /** The function result tells whether the patched code ran, and which test. */
  lemma FunctionResultDecodes(t: TestType, patch: bool, t': TestType, patch': bool)
    ensures FunctionResult(t, patch) == FunctionResult(t', patch') <==> t == t' && patch == patch'
  {
  }

  /** The two error codes differ from each other and from every result. */
  lemma ErrorCodesDistinct(t: TestType, patch: bool)
    ensures TEST_ERROR != TEST_FAILED
    ensures FunctionResult(t, patch) != TEST_ERROR && FunctionResult(t, patch) != TEST_FAILED
  {
  }
}
