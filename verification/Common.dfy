/** Definitions shared by the component models: machine-word limits, bytes and options. */
module Common {

  datatype Option<+T> = None | Some(value: T)

  const TWO16: nat := 0x1_0000
  const TWO32: nat := 0x1_0000_0000
  const TWO64: nat := 0x1_0000_0000_0000_0000
  const U32_MAX: nat := TWO32 - 1
  const U64_MAX: nat := TWO64 - 1

  type byte = b: int | 0 <= b < 256
  type u16 = n: int | 0 <= n < 0x1_0000

  /** Rust's `wrapping_add` and `wrapping_sub` on `u16`. */
  function WrappingAdd16(a: u16, b: u16): u16 {
    if a + b < TWO16 then a + b else a + b - TWO16
  }

  function WrappingSub16(a: u16, b: u16): u16 {
    if b <= a then a - b else a - b + TWO16
  }

  /** Slicing a prefix is slicing the whole. */
  lemma SliceOfPrefix<T>(s: seq<T>, n: nat, a: nat, b: nat)
    requires a <= b <= n <= |s|
    ensures s[..n][a..b] == s[a..b]
  {
    forall i | 0 <= i < b - a
      ensures s[..n][a..b][i] == s[a..b][i]
    {
    }
  }

  /** Slicing a suffix is slicing the whole further on. */
  lemma SliceOfSuffix<T>(s: seq<T>, n: nat, a: nat, b: nat)
    requires a <= b && n + b <= |s|
    ensures s[n..][a..b] == s[n + a..n + b]
  {
    forall i | 0 <= i < b - a
      ensures s[n..][a..b][i] == s[n + a..n + b][i]
    {
    }
  }

  /** The parts of a sequence put together from three. */
  lemma ThreeParts<T>(s: seq<T>, t: seq<T>, u: seq<T>)
    ensures var all := s + t + u;
            all[..|s|] == s && all[|s|..|s| + |t|] == t && all[|s| + |t|..] == u
  {
  }

  lemma Regroup<T>(s: seq<T>, t: seq<T>, u: seq<T>)
    ensures (s + t) + u == s + (t + u)
  {
  }

  function Min(a: nat, b: nat): nat {
    if a <= b then a else b
  }

  /** Rust's `saturating_sub` on unsigned integers. */
  function SaturatingSub(a: nat, b: nat): nat {
    if a <= b then 0 else a - b
  }
}
