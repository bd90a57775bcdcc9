/**
 * Machine words and the status codes shared by every subsystem.
 *
 * Integers are mathematical; a place where the kernel's 32- or 64-bit arithmetic can
 * wrap goes through Wrap32 or Wrap64, so that "it never wraps" is something proved.
 */
module Words {
  const U32: nat := 0x1_0000_0000
  const U64: nat := 0x1_0000_0000_0000_0000
  const U32_MAX: nat := 0xFFFF_FFFF
  const U64_MAX: nat := 0xFFFF_FFFF_FFFF_FFFF

  type uint32 = x: nat | x < 0x1_0000_0000

  const NUL: char := '\0'
  const BACKSPACE: char := '\U{0008}'

  newtype byte = x: int | 0 <= x < 256

  datatype Option<+T> = None | Some(value: T)

  datatype Status =
    | Ok
    | InvalidArgument
    | NotReady
    | Unavailable
    | MalformedData
    | OutOfMemory

  function Wrap32(x: int): uint32 {
    x % 0x1_0000_0000
  }

  function Wrap64(x: int): nat {
    x % 0x1_0000_0000_0000_0000
  }

  lemma WrapAdd64(a: nat, b: nat)
    ensures Wrap64(Wrap64(a) + b) == Wrap64(a + b)
  {
    ghost var low := Wrap64(a) + b;
    Wrap64Unique(a + b, a / 0x1_0000_0000_0000_0000 + low / 0x1_0000_0000_0000_0000, Wrap64(low));
  }

  lemma Wrap64Unique(x: nat, quotient: nat, r: nat)
    requires x == 0x1_0000_0000_0000_0000 * quotient + r && r < U64
    ensures Wrap64(x) == r
  {
  }

  lemma Wrap32Small(a: nat)
    requires a < U32
    ensures Wrap32(a) == a
  {
  }

  function IncrementSaturating(counter: uint32): uint32 {
    if counter != U32_MAX then Wrap32(counter + 1) else counter
  }

  function Min(a: nat, b: nat): nat {
    if a <= b then a else b
  }

  /** A saturating counter is the true count held at the 32-bit maximum. */
  lemma Saturates(count: nat)
    ensures IncrementSaturating(Min(count, U32_MAX)) == Min(count + 1, U32_MAX)
  {
  }
}
