/** Bytes by their values. */
module ByteValues {

  lemma NextByte(b: bv8)
    requires b < 255
    ensures (b + 1) as int == b as int + 1
  {
  }

  lemma BelowLast(b: bv8)
    requires b as int < 255
    ensures b < 255
  {
  }

  /** The byte with this value; conversions in this direction are costly to reason about. */
  function Byte(n: nat): (b: bv8)
    requires n < 256
    ensures b as int == n
  {
    if n == 0 then 0
    else
      BelowLast(Byte(n - 1));
      NextByte(Byte(n - 1));
      Byte(n - 1) + 1
  }
}
