# Login packet codecs

This project models the packet codecs of the login protocol that are written
out by hand in `src/protocol/login.rs`, and proves properties about them:

- `CharacterListPacket` (0x11, 0x03): the account's character roster in a
  fixed layout of 30 slots, followed by a large footer of reserved blocks,
  per-slot arrays and scalar fields.
- `CharacterCreatePacket` (0x11, 0x05): one character.
- `EncryptionRequestPacket` (0x11, 0x0B): key material stored reversed and
  zero-padded to a 0x104-byte field.
- `EncryptionResponsePacket` (0x11, 0x0C): an opaque blob up to the end of
  the packet.
- The status enums `ShipStatus`, `LoginResult` and `LoginStatus` with their
  declared wire values.

A `write` returns the packet header followed by the payload. A `read` is given
the reader positioned after the header, and is modelled on the bytes that
reader still holds: every read step returns its value together with the bytes
after it, or `None` where the source fails with `UnexpectedEof`. A forward seek
drops bytes. A seek past the end succeeds and leaves nothing to read, as it
does on an in-memory cursor.

The character record and the header layout live outside this file. They are
parameters of the model:

- a `CharacterCodec` holds the character writer (which takes the `is_global`
  switch), the character reader and the default character;
- a `HeaderWriter` maps a header and the `is_ngs` switch to bytes.

The per-slot arrays of the character list are fixed-size `[_; 30]` arrays in
the source. The model holds them as sequences, and its write and layout
members require 30 entries (`CharacterListPacket.WellFormed`).

Round trips are proved under the hypothesis that the character codec
round-trips (`Characters.RoundTrips`). Byte offsets are proved under the
hypothesis that every character is written with the same width
(`Characters.FixedWidth`).

Reading and writing the character list and the encryption request are
modelled as methods with the source's loops:

- the output buffer is a sequence that grows step by step;
- the three per-slot arrays are filled in a `new` array;
- the key bytes are reversed in place in an array.

Each method is proved equal to a specification function. The properties are
proved about those functions: wire layout, lengths, offsets and round trips.

Files:

- `wrappers.dfy`: `Option`.
- `bytes.dfy`: u16/u32 little-endian, zero runs, reads over the remaining
  bytes, reversal, resizing, leading-zero stripping.
- `envelope.dfy`: header plus payload.
- `repeated.dfy`: runs of items written back to back and read back.
- `characters.dfy`: the character sub-codec interface.
- `character_list.dfy`, `character_create.dfy`, `encryption.dfy`,
  `login_enums.dfy`: the packets and enums.

## Model

| member | source | states |
|---|---|---|
| Bytes.U32Codec | src/protocol/login.rs:606-608 | decoding the 4 little-endian bytes of a u32 gives the value back |
| Bytes.U32Le | src/protocol/login.rs:606-608 | a u32 is written as 4 bytes, lowest first: the bytes weighted by 1, 2^8, 2^16 and 2^24 add up to the value |
| Bytes.U32FromLe | src/protocol/login.rs:561 | 4 bytes read as a u32 give that weighted sum |
| Bytes.U32Canonical | src/protocol/login.rs:561 | every 4 bytes are the little-endian encoding of the u32 they decode to |
| Bytes.U16Codec | src/protocol/login.rs:647 | decoding the 2 little-endian bytes of a u16 gives the value back |
| Bytes.U16Le | src/protocol/login.rs:647 | a u16 is written as 2 bytes, low byte first: byte 0 plus 0x100 times byte 1 is the value |
| Bytes.U16FromLe | src/protocol/login.rs:588 | 2 bytes read as a u16 give the value whose low byte is the first and whose high byte is the second |
| Bytes.ReadU32 | src/protocol/login.rs:561 | a u32 read succeeds exactly when at least 4 bytes remain; the bytes consumed are the value's little-endian encoding and the rest is what follows |
| Bytes.ReadU16 | src/protocol/login.rs:588 | a u16 read succeeds exactly when at least 2 bytes remain, and consumes the value's encoding |
| Bytes.ReadU32Written | src/protocol/login.rs:575 | reading a u32 from its encoding followed by anything gives the value and exactly what followed |
| Bytes.ReadU16Written | src/protocol/login.rs:588 | the same for u16 |
| Bytes.U32LeZero | src/protocol/login.rs:654-656 | writing the u32 zero emits 4 zero bytes |
| Bytes.Zeros | src/protocol/login.rs:621-623 | a reserved region of n bytes is n bytes, every one of them zero |
| Bytes.Drop | src/protocol/login.rs:562-589 | a forward seek of n bytes leaves the input from position min(n, len) on, so a seek past the end leaves nothing to read |
| Bytes.DropZeros | src/protocol/login.rs:565 | seeking over a written zero run lands on what follows it |
| Bytes.StripLeadingZeros | src/protocol/login.rs:682-684 | the result is a suffix of the input, and it is empty or starts with a non-zero byte |
| Bytes.StripLeadingZerosShape | src/protocol/login.rs:682-684 | the stripped result is a suffix of the input, all bytes before it are zero, and it is empty or starts with a non-zero byte |
| Bytes.StripLeadingZerosAt | src/protocol/login.rs:682-684 | stripping stops at the first non-zero byte |
| Bytes.Reverse | src/protocol/login.rs:691 | the result is as long as the input and holds input byte len-1-i at position i |
| Bytes.Resize | src/protocol/login.rs:692 | the result is exactly n bytes: input byte i where the input has one, the fill value after that |
| Envelope.Framed | src/protocol/login.rs:605 | a written packet is as long as its header plus its payload |
| Envelope.PayloadOf | src/protocol/login.rs:662 | a buffer that starts with the header bytes is the header followed by what the reader sees after it |
| Envelope.PayloadOfFramed | src/protocol/login.rs:605 | skipping the header of a written packet leaves exactly the payload, whatever bytes the header has |
| Repeated.ReadAll | src/protocol/login.rs:564-566 | a successful run of reads returns exactly the number of items asked for |
| Repeated.WriteAll | src/protocol/login.rs:624-626 | a run of a single item is exactly that item's bytes (the order of a longer run is `Repeated.WriteAllSnoc`) |
| Repeated.WriteAllSnoc | src/protocol/login.rs:624-626 | writing one more item appends its bytes after the run written so far |
| Repeated.ReadAllWritten | src/protocol/login.rs:574-587 | when the item reader inverts the item writer, reading back n written items gives the items and leaves what followed |
| Repeated.ReadAllStops | src/protocol/login.rs:566 | once one item cannot be read, the whole run fails (the `?` returns early) |
| Repeated.WriteAllAt | src/protocol/login.rs:624-626 | items of a fixed width w: the run is n*w bytes and item i occupies bytes i*w up to (i+1)*w |
| LoginEnums.ShipStatusFromValue | src/protocol/login.rs:455-467 | a decoded value is kept exactly when it is 0..4 or 0xFFFF; every value above 4 decodes to `Undefined` |
| LoginEnums.LoginResultFromValue | src/protocol/login.rs:480-495 | the same for 0..7 and 0xFFFF_FFFF |
| LoginEnums.LoginStatusFromValue | src/protocol/login.rs:497-507 | the same for 0..1 and 0xFFFF_FFFF |
| LoginEnums.ShipStatus.Value | src/protocol/login.rs:457-467 | a wire value is 0 to 4 or 0xFFFF, and it is 0xFFFF exactly for `Undefined` |
| LoginEnums.LoginResult.Value | src/protocol/login.rs:482-495 | a wire value is 0 to 7 or 0xFFFF_FFFF, and it is 0xFFFF_FFFF exactly for `Undefined` |
| LoginEnums.LoginStatus.Value | src/protocol/login.rs:500-507 | a wire value is 0 or 1 or 0xFFFF_FFFF, and it is 0xFFFF_FFFF exactly for `Undefined` |
| LoginEnums.ShipStatusRoundTrip | src/protocol/login.rs:457-467 | decoding a written ship status gives the same variant, and the variants have distinct values |
| LoginEnums.LoginResultRoundTrip | src/protocol/login.rs:482-495 | the same for `LoginResult` |
| LoginEnums.LoginStatusRoundTrip | src/protocol/login.rs:500-507 | the same for `LoginStatus` |
| CharacterCreate.ReadCharacterCreate | src/protocol/login.rs:662-668 | read fails exactly when the character cannot be read; otherwise it holds that character and `is_global` is false |
| CharacterCreate.WriteCharacterCreate | src/protocol/login.rs:669-673 | write is the (0x11, 0x05) header followed by the character written with the packet's `is_global` |
| CharacterCreate.CharacterCreateRoundTrip | src/protocol/login.rs:661-674 | given a character codec that round-trips, reading a written packet gives it back with `is_global` cleared |
| Encryption.ReverseBytes | src/protocol/login.rs:691 | the array afterwards holds its old contents in reverse order |
| Encryption.WriteEncryptionRequest | src/protocol/login.rs:688-695 | write is the (0x11, 0x0B) header followed by the key reversed and resized to 0x104 bytes with zero fill |
| Encryption.RequestPayload | src/protocol/login.rs:690-693 | the payload write emits is exactly 0x104 bytes; byte i is key byte i counted from the end, and zero past the key, so a longer key is truncated |
| Encryption.RequestKey | src/protocol/login.rs:678-686 | the key a read recovers is no longer than the payload, empty for a payload of at most 4 bytes, and never starts with 0x00 |
| Encryption.ReadEncryptionRequest | src/protocol/login.rs:677-687 | read returns all remaining bytes reversed, minus the first 4 reversed bytes, with leading zeros removed |
| Encryption.RequestKeyFrom | src/protocol/login.rs:681-685 | when the search stops at reversed index i, the result is every reversed byte from i on |
| Encryption.RequestKeyShape | src/protocol/login.rs:680-686 | the result never starts with 0x00, and it is empty exactly when every byte before the last 4 is zero, which includes every input of at most 4 bytes |
| Encryption.RequestRoundTrip | src/protocol/login.rs:676-696 | reading the payload of write(d) gives the last min(len(d), 0x100) bytes of d with leading zeros stripped |
| Encryption.RequestRoundTripShort | src/protocol/login.rs:676-696 | for a key of at most 0x100 bytes, reading the payload of write(d) gives d with its leading zeros stripped |
| Encryption.RequestRoundTripExact | src/protocol/login.rs:676-696 | a key of at most 0x100 bytes that has no leading zero reads back unchanged |
| Encryption.LeadingZeroDropped | src/protocol/login.rs:682-684 | the key 0x00 0xFF reads back as 0xFF |
| Encryption.ReadEncryptionResponse | src/protocol/login.rs:699-704 | read keeps every remaining byte verbatim |
| Encryption.WriteEncryptionResponse | src/protocol/login.rs:705-709 | write is the (0x11, 0x0C) header followed by the blob verbatim |
| Encryption.ResponseRoundTrip | src/protocol/login.rs:698-710 | reading the payload of a written response gives the packet back |
| CharacterList.CountField | src/protocol/login.rs:606 | the count is at most 30, and it is min(len(characters), 30) whenever the length fits in a u32 |
| CharacterList.SlotSource | src/protocol/login.rs:610-614 | the slots cycle through the list, or through the default character alone when the list is empty |
| CharacterList.Cycle | src/protocol/login.rs:616 | cycling through the slot source gives exactly k entries, and the first ones are the source itself |
| CharacterList.SlotWriter | src/protocol/login.rs:616-619 | a slot is 4 reserved zero bytes, then exactly the bytes of the character |
| CharacterList.SlotBytes | src/protocol/login.rs:616-619 | the 30 slots take at least 30 * 4 bytes, each slot holding at least its 4 reserved bytes |
| CharacterList.PairWriter | src/protocol/login.rs:633-637 | a flag pair is 8 bytes: the first u32's little-endian encoding, then the second's |
| CharacterList.FooterBytes | src/protocol/login.rs:620-656 | for 30-entry per-slot arrays, everything write emits after the slots is 17460 bytes |
| CharacterList.CharacterListWire | src/protocol/login.rs:606-656 | the payload write emits is the 8-byte head, the 30 slots and the 17460-byte footer |
| CharacterList.CountLayout | src/protocol/login.rs:606-608 | the payload starts with min(len(characters), 30) as a little-endian u32, then 4 zero bytes |
| CharacterList.WireLength | src/protocol/login.rs:604-658 | with characters of width w, the payload is 8 + 30*(4+w) bytes plus the footer, and the footer is 17460 bytes |
| CharacterList.SlotAt | src/protocol/login.rs:616-619 | slot i (i < 30) sits at offset 8 + i*(4+w) and is 4 zero bytes followed by the source's entry i mod n |
| CharacterList.EmptyListFillsDefault | src/protocol/login.rs:610-619 | an empty list writes the default character into all 30 slots |
| CharacterList.IgnoresExtraCharacters | src/protocol/login.rs:616 | characters past the first 30 do not change the written payload |
| CharacterList.FooterRegions | src/protocol/login.rs:620-656 | the footer, in order: 0x41A4 zero bytes, the play times, 32 zero bytes, the deletion pairs, the transfer pairs, then the accessory, 6 zero bytes, survey, ad and 8 zero bytes to the end |
| CharacterList.PlayTimesAt | src/protocol/login.rs:624-626 | play time i is the little-endian u32 at footer offset 0x41A4 + 4*i |
| CharacterList.DeletionFlagsAt | src/protocol/login.rs:631-638 | deletion pair i is two little-endian u32 at footer offset 0x41A4 + 152 + 8*i |
| CharacterList.TransferFlagsAt | src/protocol/login.rs:639-646 | transfer pair i is two little-endian u32 at footer offset 0x41A4 + 392 + 8*i |
| CharacterList.FooterLayout | src/protocol/login.rs:620-656 | the whole footer layout: length, reserved zero blocks, every array entry at its offset, and the scalar tail |
| CharacterList.AppendZeros | src/protocol/login.rs:621-623 | the zero loop appends exactly n zero bytes |
| CharacterList.AppendAll | src/protocol/login.rs:624-626 | the item loop appends each item's bytes in order |
| CharacterList.AppendSlots | src/protocol/login.rs:616-619 | the slot loop appends 30 slots, slot i holding the source's entry i mod n |
| CharacterList.AppendFooter | src/protocol/login.rs:620-656 | everything after the slots is appended as the footer layout |
| CharacterList.WriteCharacterList | src/protocol/login.rs:604-658 | write is the (0x11, 0x03) header followed by count, zero, the 30 slots and the footer, and nothing else |
| CharacterList.SlotReader | src/protocol/login.rs:565-566 | a slot read skips the 4 reserved bytes, whatever they hold, and reads the character from what follows |
| CharacterList.ReadPair | src/protocol/login.rs:580-581 | a pair read succeeds exactly when at least 8 bytes remain, and consumes the encodings of the two u32 |
| CharacterList.ParseCharacterList | src/protocol/login.rs:560-603 | a successful read has `is_global` false, 30-entry per-slot arrays, and min(count, 30) characters, where count is the first u32 of the payload |
| CharacterList.ParseFooter | src/protocol/login.rs:571-591 | a successful footer read gives 30 play times, 30 deletion pairs and 30 transfer pairs |
| CharacterList.ReadArray | src/protocol/login.rs:573-587 | filling a 30-entry array item by item gives the run of 30 reads, or fails as soon as one read fails |
| CharacterList.ReadSlots | src/protocol/login.rs:563-570 | all 30 slots are read, each after a 4-byte skip; the result fails exactly when one slot fails and otherwise keeps the first min(count, 30) |
| CharacterList.ReadFooter | src/protocol/login.rs:571-591 | the footer is read field by field in wire order |
| CharacterList.ReadCharacterList | src/protocol/login.rs:560-603 | read follows the payload specification: count, skip, 30 slots, footer |
| CharacterList.FooterRoundTrip | src/protocol/login.rs:571-591 | reading a written footer gives every footer field back, whatever follows it |
| CharacterList.CycleKeepsPrefix | src/protocol/login.rs:616 | the first min(n, 30) cycled slots are the list's first entries |
| CharacterList.SlotsReadBack | src/protocol/login.rs:565-566 | the slot reader (skip 4, read a character) inverts the slot writer when the character codec round-trips |
| CharacterList.PairsReadBack | src/protocol/login.rs:579-582 | reading two u32 inverts writing a pair |
| CharacterList.CharacterListRoundTrip | src/protocol/login.rs:559-658 | given a character codec that round-trips, reading the written payload gives every field back unchanged, `is_global` false, and the first min(n, 30) characters, so an empty list reads back empty |

## Left out

- `Character::read`, `Character::write`, `Character::default` and `PacketHeader::write` are not part of this model. They are parameters, and the round trips are conditional on the character codec round-tripping.
- `Flags`: every `write` here uses default flags and every `read` ignores the flags, so the model carries no flags.
- The packets whose codecs are generated by the derive macros (`PacketReadWrite`, `HelperReadWrite`), together with `src/protocol/mail.rs` and `src/protocol/settings.rs`: only their field declarations exist, and the generating engine is not part of this model.
- The foreign-function bindings under `packetlib_ffi`: these are I/O and foreign calls.
- The `Default` implementations that read the wall clock or use `f32` fields.
- Raw-value preservation for unknown enum values: the `Undefined` variants carry no value. The decode mappings (`ShipStatusFromValue` and the others) follow the `#[Read_default]` marker. The derive macro that implements them is not part of this model.
- I/O errors other than running out of input. A reader is a byte sequence. Seeking follows in-memory cursor semantics: a seek past the end succeeds, and the next read fails.
- CharacterList.CharacterListRoundTrip, CharacterList.CountLayout, CharacterList.IgnoresExtraCharacters: these assume a list shorter than 2^32 entries. `CountField` models the `as u32` cast by reducing modulo 2^32.
- CharacterList.ReadCharacterList: the read leaves the final 8 zero bytes unread. The model does not check whether anything is left over, and neither does the source.

## Notes

- Leading zero bytes of a key are not kept: the key 0x00 0xFF reads back as 0xFF (`Encryption.LeadingZeroDropped`).
