/**
 * The character record and its sub-codec (`Character::read`,
 * `Character::write`, `Character::default`) are not part of this model; the
 * codecs that embed characters take them as a parameter. `C` stands for the
 * character type. `write` receives the `is_global` switch; `read` does not,
 * and returns the character with the bytes that follow it.
 */
module Characters {
  import opened Wrappers
  import opened Bytes

  datatype CharacterCodec<!C> = CharacterCodec(
    write: (C, bool) -> seq<byte>,
    read: seq<byte> -> Option<(C, seq<byte>)>,
    default: C)

  /** Reading what `write(c, isGlobal)` produced gives `c` back and leaves whatever followed it. */
  ghost predicate RoundTrips<C(!new)>(codec: CharacterCodec<C>, isGlobal: bool)
  {
    forall c, rest :: codec.read(codec.write(c, isGlobal) + rest) == Some((c, rest))
  }

  /** Every character is written as exactly `width` bytes. */
  ghost predicate FixedWidth<C(!new)>(codec: CharacterCodec<C>, isGlobal: bool, width: nat)
  {
    forall c :: |codec.write(c, isGlobal)| == width
  }
}
