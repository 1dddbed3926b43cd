/** Clearance masks and the selector-character mapping shared by the four
    clearance system calls of hw2.c. */
module Clearance {

  /** Linux errno values; the system calls return their negation. */
  const EPERM: int := 1
  const ESRCH: int := 3
  const EINVAL: int := 22

  /** A process's clearance: bit 0 is sword, bit 1 midnight, bit 2 clamp.
      Only these three bits exist, so no unknown bit can ever be produced. */
  type Mask = bv3

  datatype Flag = Sword | Midnight | Clamp

  datatype Option<T> = None | Some(value: T)

  /** The selector character that names each clearance. */
  function CharOf(f: Flag): char
  {
    match f
    case Sword => 's'
    case Midnight => 'm'
    case Clamp => 'c'
  }

  /** The clearance a selector character names: 's', 'm' or 'c', and nothing
      else. It is the inverse of CharOf. */
  function FlagOf(c: char): (r: Option<Flag>)
    ensures r.Some? ==> CharOf(r.value) == c
    ensures forall f :: CharOf(f) == c ==> r == Some(f)
  {
    if c == 's' then Some(Sword)
    else if c == 'm' then Some(Midnight)
    else if c == 'c' then Some(Clamp)
    else None
  }

  /** The bit of a clearance (`required_bit` in the source). */
  function Bit(f: Flag): Mask
  {
    match f
    case Sword => 1
    case Midnight => 1 << 1
    case Clamp => 1 << 2
  }

  predicate Has(m: Mask, f: Flag)
  {
    m & Bit(f) != 0
  }

  /** A clearance as the C truth value the system calls return: 1 or 0. */
  function BitValue(m: Mask, f: Flag): int
  {
    if Has(m, f) then 1 else 0
  }

  /** The mask with flag f or-ed in: f is held afterwards, the other two
      flags are as before, no bit is cleared, and a mask that already holds
      f is returned unchanged. */
  function Grant(m: Mask, f: Flag): (r: Mask)
    ensures Has(r, f)
    ensures forall g :: g != f ==> (Has(r, g) <==> Has(m, g))
    ensures r & m == m
    ensures Has(m, f) ==> r == m
  {
    m | Bit(f)
  }

  /** The mask sys_set_sec stores: each argument normalised to 0 or 1 (any
      non-zero value counts as 1) and the three packed into bits 0, 1 and 2. */
  function Pack(sword: int, midnight: int, clamp: int): (m: Mask)
    ensures Has(m, Sword) <==> sword != 0
    ensures Has(m, Midnight) <==> midnight != 0
    ensures Has(m, Clamp) <==> clamp != 0
  {
    var s: Mask := if sword != 0 then 1 else 0;
    var mi: Mask := if midnight != 0 then 1 else 0;
    var c: Mask := if clamp != 0 then 1 else 0;
    (s & 1) | ((mi & 1) << 1) | ((c & 1) << 2)
  }

  /** A mask is determined by the three clearances it holds. */
  lemma MaskExtensional(a: Mask, b: Mask)
    requires forall f :: Has(a, f) <==> Has(b, f)
    ensures a == b
  {
    assert Has(a, Sword) == Has(b, Sword);
    assert Has(a, Midnight) == Has(b, Midnight);
    assert Has(a, Clamp) == Has(b, Clamp);
  }

  /** Packing the clearances a mask holds gives back that mask, so every
      mask is something sys_set_sec can store. */
  lemma PackOfHeld(m: Mask)
    ensures Pack(BitValue(m, Sword), BitValue(m, Midnight), BitValue(m, Clamp)) == m
  {
    var p := Pack(BitValue(m, Sword), BitValue(m, Midnight), BitValue(m, Clamp));
    forall f ensures Has(p, f) <==> Has(m, f) {
      match f
      case Sword =>
      case Midnight =>
      case Clamp =>
    }
    MaskExtensional(p, m);
  }
}
