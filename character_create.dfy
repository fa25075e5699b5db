/**
 * `CharacterCreatePacket` (0x11, 0x05, src/protocol/login.rs:661-674): a
 * single character, written with the packet's `is_global` switch; a read
 * always reports `is_global` as false.
 */
module CharacterCreate {
  import opened Wrappers
  import opened Bytes
  import opened Envelope
  import opened Characters

  const CreateHeader := PacketHeader(0x11, 0x05)

  datatype CharacterCreatePacket<C> = CharacterCreatePacket(character: C, isGlobal: bool)

  /** `CharacterCreatePacket::read`: one character; fails exactly when the character cannot be read. */
  function ReadCharacterCreate<C>(codec: CharacterCodec<C>, payload: seq<byte>): (r: Option<CharacterCreatePacket<C>>)
    ensures r.Some? <==> codec.read(payload).Some?
    ensures r.Some? ==> r.value.character == codec.read(payload).value.0 && !r.value.isGlobal
  {
    var c :- codec.read(payload);
    Some(CharacterCreatePacket(c.0, false))
  }

  /** `CharacterCreatePacket::write`: the header, then the character. */
  function WriteCharacterCreate<C>(p: CharacterCreatePacket<C>, codec: CharacterCodec<C>,
                                   writeHeader: HeaderWriter, isNgs: bool): (buf: seq<byte>)
    ensures buf == Framed(writeHeader, CreateHeader, isNgs, codec.write(p.character, p.isGlobal))
  {
    writeHeader(CreateHeader, isNgs) + codec.write(p.character, p.isGlobal)
  }

  /** Given a character codec that round-trips, reading a written packet gives it back with `is_global` cleared. */
  lemma CharacterCreateRoundTrip<C(!new)>(p: CharacterCreatePacket<C>, codec: CharacterCodec<C>,
                                    writeHeader: HeaderWriter, isNgs: bool)
    requires RoundTrips(codec, p.isGlobal)
    ensures ReadCharacterCreate(codec, PayloadOf(writeHeader, CreateHeader, isNgs,
      WriteCharacterCreate(p, codec, writeHeader, isNgs))) == Some(p.(isGlobal := false))
  {
    var payload := codec.write(p.character, p.isGlobal);
    PayloadOfFramed(writeHeader, CreateHeader, isNgs, payload);
    assert payload + [] == payload;
    assert codec.read(payload + []) == Some((p.character, []));
  }
}
