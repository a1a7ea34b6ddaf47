/** The open-mode flags of a stream (MODE_*). */
module Modes {

  const MODE_READ: bv8 := 1
  const MODE_WRITE: bv8 := 2
  const MODE_READWRITEFILTER: bv8 := 3
  const MODE_EXISTING: bv8 := 4
  const MODE_CREATE: bv8 := 8

  /** A flag is a single bit. */
  predicate SingleBit(m: bv8) {
    m != 0 && m & (m - 1) == 0
  }

  /** Read-write is exactly read together with write; must-exist and create are separate bits of their own. */
  lemma ModeFlags()
    ensures MODE_READWRITEFILTER == MODE_READ | MODE_WRITE
    ensures SingleBit(MODE_READ) && SingleBit(MODE_WRITE)
    ensures SingleBit(MODE_EXISTING) && SingleBit(MODE_CREATE)
    ensures MODE_EXISTING != MODE_CREATE
    ensures MODE_EXISTING & MODE_READWRITEFILTER == 0 && MODE_CREATE & MODE_READWRITEFILTER == 0
    ensures MODE_EXISTING & MODE_CREATE == 0
  {
  }
}
