/**
 * The host byte order of a build.
 *
 * BYTEORDER is a macro whose value is LIL_ENDIAN (1234) or BIG_ENDIAN (4321).
 * A build may define it explicitly; otherwise it is derived from the
 * architecture macros the compiler predefines. The swap macros only ask
 * whether it equals LIL_ENDIAN.
 */
module ByteOrder {

  const LIL_ENDIAN: int := 1234
  const BIG_ENDIAN: int := 4321

  /** A physical byte order: of a machine's memory, or declared by a read_* and write_* function. */
  datatype Endian = Little | Big {
    function Opposite(): (e: Endian)
      ensures e != this
    {
      if this == Little then Big else Little
    }
  }

  /** The memory order the swap macros take a build to have: little endian exactly when BYTEORDER is 1234. */
  function AssumedOrder(byteorder: int): (e: Endian)
    ensures e == Little <==> byteorder == LIL_ENDIAN
  {
    if byteorder == LIL_ENDIAN then Little else Big
  }

  datatype Option<T> = None | Some(value: T)

  /**
   * A build: the value BYTEORDER was given and the order in which the
   * machine actually stores a multi-byte integer.
   */
  datatype Platform = Platform(byteorder: int, machine: Endian) {
    /** BYTEORDER describes the machine (the swap macros take any value other than 1234 as big endian). */
    predicate Consistent() {
      machine == AssumedOrder(byteorder)
    }
  }

  /** The architecture test, with the intended big-endian MIPS macro `__MIPSEB__`. */
  predicate BigEndianTarget(defined: set<string>) {
    || "__hppa__" in defined
    || "__m68k__" in defined || "mc68000" in defined || "_M_M68K" in defined
    || ("__MIPS__" in defined && "__MIPSEB__" in defined)
    || "__ppc__" in defined || "__POWERPC__" in defined || "_M_PPC" in defined
    || "__sparc__" in defined
  }

  /** The architecture test as the header writes it, naming `__MISPEB__`. */
  predicate BigEndianTargetAsWritten(defined: set<string>) {
    || "__hppa__" in defined
    || "__m68k__" in defined || "mc68000" in defined || "_M_M68K" in defined
    || ("__MIPS__" in defined && "__MISPEB__" in defined)
    || "__ppc__" in defined || "__POWERPC__" in defined || "_M_PPC" in defined
    || "__sparc__" in defined
  }

  /**
   * The value of BYTEORDER: an explicit definition wins; otherwise BIG_ENDIAN
   * exactly on a listed big-endian target and LIL_ENDIAN on every other.
   */
  function Detect(explicit: Option<int>, defined: set<string>): (r: int)
    ensures explicit.Some? ==> r == explicit.value
    ensures explicit.None? ==> (r == BIG_ENDIAN <==> BigEndianTarget(defined))
    ensures explicit.None? ==> (r == LIL_ENDIAN <==> !BigEndianTarget(defined))
  {
    match explicit
    case Some(b) => b
    case None => if BigEndianTarget(defined) then BIG_ENDIAN else LIL_ENDIAN
  }

  /** Detect, with the architecture test as written. */
  function DetectAsWritten(explicit: Option<int>, defined: set<string>): (r: int)
    ensures explicit.Some? ==> r == explicit.value
    ensures explicit.None? ==> (r == BIG_ENDIAN <==> BigEndianTargetAsWritten(defined))
    ensures explicit.None? ==> (r == LIL_ENDIAN <==> !BigEndianTargetAsWritten(defined))
  {
    match explicit
    case Some(b) => b
    case None => if BigEndianTargetAsWritten(defined) then BIG_ENDIAN else LIL_ENDIAN
  }

  /** A big-endian MIPS compiler defines __MIPS__ and __MIPSEB__; the test as written picks 1234. */
  lemma MisdetectsBigEndianMips()
    ensures DetectAsWritten(None, {"__MIPS__", "__MIPSEB__"}) == LIL_ENDIAN
    ensures !Platform(DetectAsWritten(None, {"__MIPS__", "__MIPSEB__"}), Big).Consistent()
  {
    assert "__MISPEB__" !in {"__MIPS__", "__MIPSEB__"};
  }

  /** With the intended macro the same target gets 4321, which describes its memory. */
  lemma DetectsBigEndianMips()
    ensures Detect(None, {"__MIPS__", "__MIPSEB__"}) == BIG_ENDIAN
    ensures Platform(Detect(None, {"__MIPS__", "__MIPSEB__"}), Big).Consistent()
  {
  }

  /** The two tests differ only on MIPS targets. */
  lemma DetectionsAgreeOffMips(defined: set<string>)
    requires "__MIPS__" !in defined
    ensures Detect(None, defined) == DetectAsWritten(None, defined)
  {
  }

  /** Without an explicit value, the detected value always describes the machine it was derived for. */
  lemma DetectedIsConsistent(defined: set<string>, machine: Endian)
    requires machine == (if BigEndianTarget(defined) then Big else Little)
    ensures Platform(Detect(None, defined), machine).Consistent()
  {
  }
}
