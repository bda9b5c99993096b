/** Byte strings, keys, options and machine limits: what every module shares. */
module Bytes {

  type byte = x: int | 0 <= x < 256

  type Bytes = seq<byte>

  datatype Key = Key(bytes: Bytes)

  const I64_MIN: int := -0x8000_0000_0000_0000
  const I64_MAX: nat := 0x7FFF_FFFF_FFFF_FFFF
  const U64_MAX: nat := 0xFFFF_FFFF_FFFF_FFFF

  /** A deadline in milliseconds has passed; 0 is no deadline. */
  predicate Due(expire: nat, now: nat) {
    expire != 0 && expire <= now
  }

  datatype Option<+T> = None | Some(value: T)

  /** Index of the first `b` in `s` at or after `from`. */
  function IndexFrom(s: Bytes, b: byte, from: nat): (r: Option<nat>)
    requires from <= |s|
    ensures r.Some? ==> from <= r.value < |s| && s[r.value] == b && b !in s[from..r.value]
    ensures r.None? <==> b !in s[from..]
    decreases |s| - from
  {
    if from == |s| then None
    else if s[from] == b then Some(from)
    else IndexFrom(s, b, from + 1)
  }

  lemma {:induction false} IndexIs(s: Bytes, b: byte, from: nat, at: nat)
    requires from <= at < |s| && s[at] == b
    requires forall i :: from <= i < at ==> s[i] != b
    ensures IndexFrom(s, b, from) == Some(at)
    decreases at - from
  {
    if from < at {
      IndexIs(s, b, from + 1, at);
    }
  }
}
