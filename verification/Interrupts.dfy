/**
 One interrupt enable in the ITC and the critical sections over it. Entering a critical section is not
 atomic: `INTENABLE` is read, then cleared, and an interrupt can come in between. Sections nest.
 */
module Interrupts {
  import opened Common

  /**
   The enable bit; what the open critical sections saved, outermost first; and the value a section being
   entered has read but not yet cleared.
   */
  datatype Itc = Itc(enabled: bool, saved: seq<bool>, sampled: Option<bool>)

  predicate Open(itc: Itc) {
    itc.saved == [] && itc.sampled.None?
  }

  function Sample(itc: Itc): Itc {
    itc.(sampled := Some(itc.enabled))
  }

  function Clear(itc: Itc): Itc
    requires itc.sampled.Some?
  {
    Itc(false, itc.saved + [itc.sampled.value], None)
  }

  function Release(itc: Itc): Itc
    requires itc.saved != []
  {
    var n := |itc.saved| - 1;
    itc.(enabled := itc.saved[n], saved := itc.saved[..n])
  }

  /** Inside a section the bit is off, and so is what any nested section saved. */
  ghost predicate Consistent(itc: Itc) {
    && (itc.saved != [] ==> !itc.enabled && itc.sampled != Some(true))
    && forall i :: 0 < i < |itc.saved| ==> !itc.saved[i]
  }

  /** The bit is on, or will be once the open sections end. */
  predicate WillBeEnabled(itc: Itc) {
    if itc.saved != [] then itc.saved[0] else itc.enabled && itc.sampled != Some(false)
  }

  /** Finish whatever sections are open. */
  function Unwind(itc: Itc): Itc
    decreases |itc.saved|
  {
    if itc.saved == [] then itc else Unwind(Release(itc))
  }

  lemma ReleaseKeeps(itc: Itc)
    requires Consistent(itc) && itc.saved != [] && itc.sampled.None?
    ensures Consistent(Release(itc)) && WillBeEnabled(Release(itc)) == WillBeEnabled(itc)
  {
  }

  lemma {:induction false} UnwindEnables(itc: Itc)
    requires Consistent(itc) && itc.sampled.None?
    ensures Unwind(itc) == Itc(WillBeEnabled(itc), [], None)
    decreases |itc.saved|
  {
    if itc.saved == [] {
    } else {
      ReleaseKeeps(itc);
      UnwindEnables(Release(itc));
    }
  }
}
