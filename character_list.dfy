/**
 * `CharacterListPacket` (0x11, 0x03, src/protocol/login.rs:559-659): the
 * account's character roster in a fixed wire layout of 30 slots.
 *
 * Payload layout, as write emits it:
 *   count (u32, the list length clamped to 30), 4 zero bytes,
 *   30 slots, each 4 zero bytes then a character; the slots cycle through the
 *     list, or through one default character when the list is empty,
 *   a footer: 0x41A4 zero bytes, 30 play times (u32), 32 zero bytes,
 *     30 deletion pairs and 30 transfer pairs (u32, u32), the account
 *     accessory (u16), 6 zero bytes, the login survey and ad fields (u32),
 *     8 zero bytes.
 * All integers are little-endian. A read takes all 30 slots and keeps the
 * first `count` characters.
 */
module CharacterList {
  import opened Wrappers
  import opened Bytes
  import opened Envelope
  import opened Characters
  import opened Repeated

  const ListHeader := PacketHeader(0x11, 0x03)

  /** Character slots on the wire, and entries in each per-slot array. */
  const SlotCount := 30
  /** Reserved bytes before each slot's character. */
  const SlotGap := 4
  /** Reserved block between the slots and the play times. */
  const ReservedBlock := 0x41A4
  /** Reserved bytes between the play times and the deletion pairs. */
  const TimesGap := 32
  /** Reserved bytes after the account accessory. */
  const AccessoryGap := 6
  /** Zero bytes at the end of the packet. */
  const EndPadding := 8
  /** Length of the footer: everything after the 30 slots. */
  const FooterSize := ReservedBlock + 4 * SlotCount + TimesGap + 16 * SlotCount + 2 + AccessoryGap + 8 + EndPadding

  datatype CharacterListPacket<C> = CharacterListPacket(
    isGlobal: bool,
    characters: seq<C>,
    playTimes: seq<u32>,
    deletionFlags: seq<(u32, u32)>,
    transferFlags: seq<(u32, u32)>,
    accountAccessory: u16,
    loginSurvey: u32,
    ad: u32)
  {
    /** The per-slot arrays are fixed-size `[_; 30]` arrays. */
    predicate WellFormed()
    {
      |playTimes| == SlotCount && |deletionFlags| == SlotCount && |transferFlags| == SlotCount
    }

    /** The fields stored after the slots. */
    function FooterFields(): Footer
    {
      Footer(playTimes, deletionFlags, transferFlags, accountAccessory, loginSurvey, ad)
    }
  }

  /** The fields after the slots, grouped so that their encoding can be reasoned about on its own. */
  datatype Footer = Footer(
    playTimes: seq<u32>,
    deletionFlags: seq<(u32, u32)>,
    transferFlags: seq<(u32, u32)>,
    accountAccessory: u16,
    loginSurvey: u32,
    ad: u32)

  // ---------------------------------------------------------------
  // Write: specification
  // ---------------------------------------------------------------

  /** `(len as u32).clamp(0, 30)`: the cast keeps the low 32 bits of the length. */
  function CountField(n: nat): (r: u32)
    ensures r <= SlotCount
    ensures n < 0x1_0000_0000 ==> r == Min(n, SlotCount)
  {
    Min(n % 0x1_0000_0000, SlotCount)
  }

  /** The characters the slots cycle through: the list, or one default character when it is empty. */
  function SlotSource<C>(codec: CharacterCodec<C>, characters: seq<C>): (src: seq<C>)
    ensures src != []
    ensures characters != [] ==> src == characters
    ensures characters == [] ==> src == [codec.default]
  {
    if characters == [] then [codec.default] else characters
  }

  /** `src.iter().cycle().take(k)`: `k` entries that run through `src` and start over, so the first ones are `src` itself. */
  function Cycle<C>(src: seq<C>, k: nat): (r: seq<C>)
    requires src != []
    ensures |r| == k
    ensures forall i :: 0 <= i < k && i < |src| ==> r[i] == src[i]
  {
    ModsBelow(|src|);
    seq(k, i requires 0 <= i < k => src[i % |src|])
  }

  lemma ModsBelow(n: nat)
    ensures forall j: nat :: j < n ==> j % n == j
  {
  }

  /** The bytes of one slot: the reserved zero bytes, then the character. */
  function SlotWriter<C(!new)>(codec: CharacterCodec<C>, isGlobal: bool): (w: C -> seq<byte>)
    ensures forall c :: |w(c)| >= SlotGap && w(c)[..SlotGap] == Zeros(SlotGap)
    ensures forall c :: Drop(w(c), SlotGap) == codec.write(c, isGlobal)
  {
    GapPrefix();
    c => Zeros(SlotGap) + codec.write(c, isGlobal)
  }

  lemma GapPrefix()
    ensures forall x: seq<byte> :: (Zeros(SlotGap) + x)[..SlotGap] == Zeros(SlotGap)
  {
    forall x: seq<byte>
      ensures (Zeros(SlotGap) + x)[..SlotGap] == Zeros(SlotGap)
    {
      assert (Zeros(SlotGap) + x)[..SlotGap] == Zeros(SlotGap);
    }
  }

  /** A flag pair: 8 bytes, the first u32's encoding, then the second's. */
  function PairWriter(): (w: ((u32, u32)) -> seq<byte>)
    ensures forall p :: |w(p)| == 8 && w(p)[..4] == U32Le(p.0) && w(p)[4..] == U32Le(p.1)
  {
    (p: (u32, u32)) => U32Le(p.0) + U32Le(p.1)
  }

  /**
   * The 30 slots write emits for the given list: `WriteAll` of `SlotWriter`
   * over `Cycle(SlotSource(..), 30)`; every slot holds at least its 4
   * reserved bytes.
   */
  function SlotBytes<C(!new)>(codec: CharacterCodec<C>, characters: seq<C>, isGlobal: bool): (r: seq<byte>)
    ensures |r| >= SlotCount * SlotGap
  {
    WriteAllAtLeast(SlotWriter(codec, isGlobal), Cycle(SlotSource(codec, characters), SlotCount), SlotGap);
    WriteAll(SlotWriter(codec, isGlobal), Cycle(SlotSource(codec, characters), SlotCount))
  }

  /** Everything write emits after the slots, 17460 bytes for 30-entry arrays. */
  function FooterBytes(f: Footer): (r: seq<byte>)
    requires |f.playTimes| == SlotCount && |f.deletionFlags| == SlotCount && |f.transferFlags| == SlotCount
    ensures |r| == FooterSize
  {
    WriteAllLength(U32Le, f.playTimes, 4);
    WriteAllLength(PairWriter(), f.deletionFlags, 8);
    WriteAllLength(PairWriter(), f.transferFlags, 8);
    Zeros(ReservedBlock) + WriteAll(U32Le, f.playTimes) + Zeros(TimesGap)
      + WriteAll(PairWriter(), f.deletionFlags) + WriteAll(PairWriter(), f.transferFlags)
      + U16Le(f.accountAccessory) + Zeros(AccessoryGap) + U32Le(f.loginSurvey) + U32Le(f.ad)
      + Zeros(EndPadding)
  }

  /** The payload write emits after the header: count, a zero u32, the slots and the footer. */
  function CharacterListWire<C(!new)>(codec: CharacterCodec<C>, p: CharacterListPacket<C>): (r: seq<byte>)
    requires p.WellFormed()
    ensures |r| == 8 + |SlotBytes(codec, p.characters, p.isGlobal)| + FooterSize
  {
    U32Le(CountField(|p.characters|)) + Zeros(4) + SlotBytes(codec, p.characters, p.isGlobal)
      + FooterBytes(p.FooterFields())
  }

  // ---------------------------------------------------------------
  // Read: specification
  // ---------------------------------------------------------------

  /** One slot: skip the reserved bytes, whatever they hold, then read a character. */
  function SlotReader<C>(codec: CharacterCodec<C>): (read: ItemReader<C>)
    ensures forall gap: seq<byte>, rest :: |gap| == SlotGap ==> read(gap + rest) == codec.read(rest)
  {
    s => codec.read(Drop(s, SlotGap))
  }

  /** Two u32 in a row: succeeds exactly when 8 bytes remain, and consumes their encodings. */
  function ReadPair(s: seq<byte>): (r: Option<((u32, u32), seq<byte>)>)
    ensures r.Some? <==> |s| >= 8
    ensures r.Some? ==> s == U32Le(r.value.0.0) + U32Le(r.value.0.1) + r.value.1
  {
    var first :- ReadU32(s);
    var second :- ReadU32(first.1);
    Some(((first.0, second.0), second.1))
  }

  function ParseFooter(s: seq<byte>): (r: Option<Footer>)
    ensures r.Some? ==> |r.value.playTimes| == SlotCount && |r.value.deletionFlags| == SlotCount
                        && |r.value.transferFlags| == SlotCount
  {
    var times :- ReadAll(ReadU32, Drop(s, ReservedBlock), SlotCount);
    var deletion :- ReadAll(ReadPair, Drop(times.1, TimesGap), SlotCount);
    var transfer :- ReadAll(ReadPair, deletion.1, SlotCount);
    var accessory :- ReadU16(transfer.1);
    var survey :- ReadU32(Drop(accessory.1, AccessoryGap));
    var ad :- ReadU32(survey.1);
    Some(Footer(times.0, deletion.0, transfer.0, accessory.0, survey.0, ad.0))
  }

  /**
   * The packet a read returns for a payload, or None when the payload ends
   * too early. A packet read has `is_global` false, 30-entry per-slot arrays,
   * and as many characters as the count field says, clamped to 30.
   */
  function ParseCharacterList<C>(codec: CharacterCodec<C>, payload: seq<byte>): (r: Option<CharacterListPacket<C>>)
    ensures r.Some? ==> |payload| >= 4 && !r.value.isGlobal && r.value.WellFormed()
                        && |r.value.characters| == Min(U32FromLe(payload[..4]), SlotCount)
  {
    var amount :- ReadU32(payload);
    var slots :- ReadAll(SlotReader(codec), Drop(amount.1, 4), SlotCount);
    var f :- ParseFooter(slots.1);
    Some(CharacterListPacket(false, slots.0[..Min(amount.0, SlotCount)], f.playTimes, f.deletionFlags,
                             f.transferFlags, f.accountAccessory, f.loginSurvey, f.ad))
  }

  // ---------------------------------------------------------------
  // Round trip
  // ---------------------------------------------------------------

  lemma SlotsReadBack<C(!new)>(codec: CharacterCodec<C>, isGlobal: bool, cs: seq<C>)
    requires RoundTrips(codec, isGlobal)
    ensures ReadsBack(SlotReader(codec), SlotWriter(codec, isGlobal), cs)
  {
    forall i, rest | 0 <= i < |cs|
      ensures SlotReader(codec)(SlotWriter(codec, isGlobal)(cs[i]) + rest) == Some((cs[i], rest))
    {
      var w := codec.write(cs[i], isGlobal);
      assert SlotWriter(codec, isGlobal)(cs[i]) + rest == Zeros(SlotGap) + (w + rest);
      DropZeros(SlotGap, w + rest);
    }
  }

  lemma U32sReadBack(xs: seq<u32>)
    ensures ReadsBack(ReadU32, U32Le, xs)
  {
    forall i, rest | 0 <= i < |xs|
      ensures ReadU32(U32Le(xs[i]) + rest) == Some((xs[i], rest))
    {
      ReadU32Written(xs[i], rest);
    }
  }

  lemma PairsReadBack(ps: seq<(u32, u32)>)
    ensures ReadsBack(ReadPair, PairWriter(), ps)
  {
    forall i, rest | 0 <= i < |ps|
      ensures ReadPair(PairWriter()(ps[i]) + rest) == Some((ps[i], rest))
    {
      var (a, b) := ps[i];
      assert PairWriter()(ps[i]) + rest == U32Le(a) + (U32Le(b) + rest);
      ReadU32Written(a, U32Le(b) + rest);
      ReadU32Written(b, rest);
    }
  }

  /** Reading a written footer gives its fields back, whatever follows it. */
  lemma FooterRoundTrip(f: Footer, rest: seq<byte>)
    requires |f.playTimes| == SlotCount && |f.deletionFlags| == SlotCount && |f.transferFlags| == SlotCount
    ensures ParseFooter(FooterBytes(f) + rest) == Some(f)
  {
    var sEnd := Zeros(EndPadding) + rest;
    var sAd := U32Le(f.ad) + sEnd;
    var sSurvey := U32Le(f.loginSurvey) + sAd;
    var sGap := Zeros(AccessoryGap) + sSurvey;
    var sAccessory := U16Le(f.accountAccessory) + sGap;
    var sTransfer := WriteAll(PairWriter(), f.transferFlags) + sAccessory;
    var sDeletion := WriteAll(PairWriter(), f.deletionFlags) + sTransfer;
    var sTimesGap := Zeros(TimesGap) + sDeletion;
    var sTimes := WriteAll(U32Le, f.playTimes) + sTimesGap;
    assert FooterBytes(f) + rest == Zeros(ReservedBlock) + sTimes;
    DropZeros(ReservedBlock, sTimes);
    U32sReadBack(f.playTimes);
    ReadAllWritten(ReadU32, U32Le, f.playTimes, sTimesGap);
    DropZeros(TimesGap, sDeletion);
    PairsReadBack(f.deletionFlags);
    ReadAllWritten(ReadPair, PairWriter(), f.deletionFlags, sTransfer);
    PairsReadBack(f.transferFlags);
    ReadAllWritten(ReadPair, PairWriter(), f.transferFlags, sAccessory);
    ReadU16Written(f.accountAccessory, sGap);
    DropZeros(AccessoryGap, sSurvey);
    ReadU32Written(f.loginSurvey, sAd);
    ReadU32Written(f.ad, sEnd);
  }

  /** The live characters survive the cycling: the first `min(n, 30)` slots hold the list's first entries. */
  lemma CycleKeepsPrefix<C>(codec: CharacterCodec<C>, characters: seq<C>)
    ensures var n := Min(|characters|, SlotCount);
      Cycle(SlotSource(codec, characters), SlotCount)[..n] == characters[..n]
  {
    var n := Min(|characters|, SlotCount);
    var cycled := Cycle(SlotSource(codec, characters), SlotCount);
    forall j | 0 <= j < n
      ensures cycled[j] == characters[j]
    {
      ModsBelow(|characters|);
    }
    assert cycled[..n] == characters[..n];
  }

  /** An empty list fills every one of the 30 slots with the default character. */
  lemma EmptyListFillsDefault<C>(codec: CharacterCodec<C>)
    ensures Cycle(SlotSource(codec, []), SlotCount) == seq(SlotCount, _ => codec.default)
  {
  }

  /**
   * Given a character codec that round-trips, reading the payload write
   * produced gives back every field, with `is_global` false and with only the
   * first 30 characters; an empty list reads back empty, not as the default
   * character that filled its slots.
   */
  lemma CharacterListRoundTrip<C(!new)>(codec: CharacterCodec<C>, p: CharacterListPacket<C>)
    requires p.WellFormed()
    requires |p.characters| < 0x1_0000_0000
    requires RoundTrips(codec, p.isGlobal)
    ensures ParseCharacterList(codec, CharacterListWire(codec, p))
      == Some(p.(isGlobal := false, characters := p.characters[..Min(|p.characters|, SlotCount)]))
  {
    var n := Min(|p.characters|, SlotCount);
    var cycled := Cycle(SlotSource(codec, p.characters), SlotCount);
    var footer := FooterBytes(p.FooterFields());
    var slots := WriteAll(SlotWriter(codec, p.isGlobal), cycled);
    var afterCount := Zeros(4) + (slots + footer);
    assert CharacterListWire(codec, p) == U32Le(n) + afterCount by {
      ConcatAssoc(U32Le(n), Zeros(4), slots);
      ConcatAssoc(U32Le(n), Zeros(4) + slots, footer);
      ConcatAssoc(Zeros(4), slots, footer);
    }
    ReadU32Written(n, afterCount);
    DropZeros(4, slots + footer);
    SlotsReadBack(codec, p.isGlobal, cycled);
    ReadAllWritten(SlotReader(codec), SlotWriter(codec, p.isGlobal), cycled, footer);
    assert footer + [] == footer;
    FooterRoundTrip(p.FooterFields(), []);
    CycleKeepsPrefix(codec, p.characters);
  }

  // ---------------------------------------------------------------
  // Layout
  // ---------------------------------------------------------------

  /** The payload opens with the clamped count and a zero u32. */
  lemma CountLayout<C(!new)>(codec: CharacterCodec<C>, p: CharacterListPacket<C>)
    requires p.WellFormed()
    requires |p.characters| < 0x1_0000_0000
    ensures var wire := CharacterListWire(codec, p);
      |wire| >= 8 && wire[..4] == U32Le(Min(|p.characters|, SlotCount)) && wire[4..8] == Zeros(4)
  {
    var wire := CharacterListWire(codec, p);
    var head := U32Le(CountField(|p.characters|)) + Zeros(4);
    ConcatAssoc(head, SlotBytes(codec, p.characters, p.isGlobal), FooterBytes(p.FooterFields()));
    assert wire == head + (SlotBytes(codec, p.characters, p.isGlobal) + FooterBytes(p.FooterFields()));
    assert wire[..4] == head[..4];
    assert wire[4..8] == head[4..8];
  }

  /** With characters of a fixed width, the payload is the 8-byte head, 30 slots and the footer. */
  lemma WireLength<C(!new)>(codec: CharacterCodec<C>, p: CharacterListPacket<C>, width: nat)
    requires p.WellFormed()
    requires FixedWidth(codec, p.isGlobal, width)
    ensures |CharacterListWire(codec, p)| == 8 + SlotCount * (SlotGap + width) + FooterSize
  {
    var cycled := Cycle(SlotSource(codec, p.characters), SlotCount);
    WriteAllLength(SlotWriter(codec, p.isGlobal), cycled, SlotGap + width);
  }

  /**
   * With characters of a fixed width, slot `i` sits at offset
   * `8 + i * (4 + width)` (`8 + offset`) and is four zero bytes followed by entry `i mod n`
   * of the slot source.
   */
  lemma SlotAt<C(!new)>(codec: CharacterCodec<C>, p: CharacterListPacket<C>, width: nat, i: nat, offset: nat)
    requires p.WellFormed()
    requires FixedWidth(codec, p.isGlobal, width)
    requires i < SlotCount && offset == i * (SlotGap + width)
    ensures var wire := CharacterListWire(codec, p);
      var src := SlotSource(codec, p.characters);
      && 8 + offset + SlotGap + width <= |wire|
      && wire[8 + offset..8 + offset + SlotGap + width] == Zeros(SlotGap) + codec.write(src[i % |src|], p.isGlobal)
  {
    var src := SlotSource(codec, p.characters);
    var slots := SlotBytes(codec, p.characters, p.isGlobal);
    SlotInSlots(codec, p.characters, p.isGlobal, width, i, offset);
    WireParts(codec, p);
    Embedded(CharacterListWire(codec, p), U32Le(CountField(|p.characters|)) + Zeros(4), slots,
             FooterBytes(p.FooterFields()), offset, SlotGap + width,
             Zeros(SlotGap) + codec.write(src[i % |src|], p.isGlobal));
  }

  /** The payload as the 8-byte head followed by the slots and the footer. */
  lemma WireParts<C(!new)>(codec: CharacterCodec<C>, p: CharacterListPacket<C>)
    requires p.WellFormed()
    ensures CharacterListWire(codec, p) == (U32Le(CountField(|p.characters|)) + Zeros(4))
      + (SlotBytes(codec, p.characters, p.isGlobal) + FooterBytes(p.FooterFields()))
  {
    ConcatAssoc(U32Le(CountField(|p.characters|)) + Zeros(4), SlotBytes(codec, p.characters, p.isGlobal),
                FooterBytes(p.FooterFields()));
  }

  /** Slot `i` within the 30 slots, for characters of a fixed width. */
  lemma SlotInSlots<C(!new)>(codec: CharacterCodec<C>, characters: seq<C>, isGlobal: bool, width: nat, i: nat, offset: nat)
    requires FixedWidth(codec, isGlobal, width)
    requires i < SlotCount && offset == i * (SlotGap + width)
    ensures var slots := SlotBytes(codec, characters, isGlobal);
      var src := SlotSource(codec, characters);
      && offset + SlotGap + width <= |slots|
      && slots[offset..offset + SlotGap + width] == Zeros(SlotGap) + codec.write(src[i % |src|], isGlobal)
  {
    var src := SlotSource(codec, characters);
    var cycled := Cycle(src, SlotCount);
    var w := SlotGap + width;
    WriteAllAt(SlotWriter(codec, isGlobal), cycled, w, i);
    MulMonotone(i + 1, SlotCount, w);
    assert i * w + w == (i + 1) * w;
  }

  /** Characters past the first 30 never reach the wire. */
  lemma IgnoresExtraCharacters<C(!new)>(codec: CharacterCodec<C>, p: CharacterListPacket<C>)
    requires p.WellFormed()
    requires SlotCount <= |p.characters| < 0x1_0000_0000
    ensures CharacterListWire(codec, p) == CharacterListWire(codec, p.(characters := p.characters[..SlotCount]))
  {
    var first := p.characters[..SlotCount];
    var q := p.(characters := first);
    var all, kept := Cycle(SlotSource(codec, p.characters), SlotCount), Cycle(SlotSource(codec, first), SlotCount);
    forall j | 0 <= j < SlotCount
      ensures all[j] == kept[j]
    {
      ModsBelow(|p.characters|);
      ModsBelow(SlotCount);
    }
    assert all == kept;
    assert SlotBytes(codec, p.characters, p.isGlobal) == SlotBytes(codec, first, p.isGlobal);
    assert CountField(|p.characters|) == CountField(|first|);
    assert p.FooterFields() == q.FooterFields();
  }

  /** Offsets of the footer's fields, from the start of the footer. */
  const TimesAt := ReservedBlock
  const DeletionAt := TimesAt + 4 * SlotCount + TimesGap
  const TransferAt := DeletionAt + 8 * SlotCount
  const AccessoryAt := TransferAt + 8 * SlotCount

  /**
   * The footer is 0x41A4 zero bytes, the 30 play times, 32 zero bytes, the
   * 30 deletion pairs, the 30 transfer pairs, then the accessory, 6 zero
   * bytes, the survey and ad fields and 8 zero bytes, and nothing else.
   */
  lemma FooterLayout(f: Footer)
    requires |f.playTimes| == SlotCount && |f.deletionFlags| == SlotCount && |f.transferFlags| == SlotCount
    ensures var b := FooterBytes(f);
      && |b| == FooterSize
      && b[..TimesAt] == Zeros(ReservedBlock)
      && (forall i :: 0 <= i < SlotCount ==> b[TimesAt + 4 * i..TimesAt + 4 * i + 4] == U32Le(f.playTimes[i]))
      && b[TimesAt + 4 * SlotCount..DeletionAt] == Zeros(TimesGap)
      && (forall i :: 0 <= i < SlotCount ==>
            b[DeletionAt + 8 * i..DeletionAt + 8 * i + 8] == U32Le(f.deletionFlags[i].0) + U32Le(f.deletionFlags[i].1))
      && (forall i :: 0 <= i < SlotCount ==>
            b[TransferAt + 8 * i..TransferAt + 8 * i + 8] == U32Le(f.transferFlags[i].0) + U32Le(f.transferFlags[i].1))
      && b[AccessoryAt..] == U16Le(f.accountAccessory) + Zeros(AccessoryGap) + U32Le(f.loginSurvey) + U32Le(f.ad)
                             + Zeros(EndPadding)
  {
    FooterRegions(f);
    PlayTimesAt(f);
    DeletionFlagsAt(f);
    TransferFlagsAt(f);
  }

  lemma PlayTimesAt(f: Footer)
    requires |f.playTimes| == SlotCount && |f.deletionFlags| == SlotCount && |f.transferFlags| == SlotCount
    ensures var b := FooterBytes(f);
      |b| == FooterSize
      && forall i :: 0 <= i < SlotCount ==> b[TimesAt + 4 * i..TimesAt + 4 * i + 4] == U32Le(f.playTimes[i])
  {
    var b := FooterBytes(f);
    FooterRegions(f);
    forall i | 0 <= i < SlotCount
      ensures b[TimesAt + 4 * i..TimesAt + 4 * i + 4] == U32Le(f.playTimes[i])
    {
      WriteAllAt(U32Le, f.playTimes, 4, i);
      FieldAt(b, TimesAt, WriteAll(U32Le, f.playTimes), 4 * i, 4);
    }
  }

  lemma DeletionFlagsAt(f: Footer)
    requires |f.playTimes| == SlotCount && |f.deletionFlags| == SlotCount && |f.transferFlags| == SlotCount
    ensures var b := FooterBytes(f);
      |b| == FooterSize
      && forall i :: 0 <= i < SlotCount ==>
           b[DeletionAt + 8 * i..DeletionAt + 8 * i + 8] == U32Le(f.deletionFlags[i].0) + U32Le(f.deletionFlags[i].1)
  {
    var b := FooterBytes(f);
    FooterRegions(f);
    forall i | 0 <= i < SlotCount
      ensures b[DeletionAt + 8 * i..DeletionAt + 8 * i + 8] == U32Le(f.deletionFlags[i].0) + U32Le(f.deletionFlags[i].1)
    {
      WriteAllAt(PairWriter(), f.deletionFlags, 8, i);
      FieldAt(b, DeletionAt, WriteAll(PairWriter(), f.deletionFlags), 8 * i, 8);
    }
  }

  lemma TransferFlagsAt(f: Footer)
    requires |f.playTimes| == SlotCount && |f.deletionFlags| == SlotCount && |f.transferFlags| == SlotCount
    ensures var b := FooterBytes(f);
      |b| == FooterSize
      && forall i :: 0 <= i < SlotCount ==>
           b[TransferAt + 8 * i..TransferAt + 8 * i + 8] == U32Le(f.transferFlags[i].0) + U32Le(f.transferFlags[i].1)
  {
    var b := FooterBytes(f);
    FooterRegions(f);
    forall i | 0 <= i < SlotCount
      ensures b[TransferAt + 8 * i..TransferAt + 8 * i + 8] == U32Le(f.transferFlags[i].0) + U32Le(f.transferFlags[i].1)
    {
      WriteAllAt(PairWriter(), f.transferFlags, 8, i);
      FieldAt(b, TransferAt, WriteAll(PairWriter(), f.transferFlags), 8 * i, 8);
    }
  }

  /** Where each run of the footer sits. */
  lemma FooterRegions(f: Footer)
    requires |f.playTimes| == SlotCount && |f.deletionFlags| == SlotCount && |f.transferFlags| == SlotCount
    ensures var b := FooterBytes(f);
      && |b| == FooterSize
      && b[..TimesAt] == Zeros(ReservedBlock)
      && b[TimesAt..TimesAt + 4 * SlotCount] == WriteAll(U32Le, f.playTimes)
      && b[TimesAt + 4 * SlotCount..DeletionAt] == Zeros(TimesGap)
      && b[DeletionAt..TransferAt] == WriteAll(PairWriter(), f.deletionFlags)
      && b[TransferAt..AccessoryAt] == WriteAll(PairWriter(), f.transferFlags)
      && b[AccessoryAt..] == U16Le(f.accountAccessory) + Zeros(AccessoryGap) + U32Le(f.loginSurvey) + U32Le(f.ad)
                             + Zeros(EndPadding)
  {
    WriteAllLength(U32Le, f.playTimes, 4);
    WriteAllLength(PairWriter(), f.deletionFlags, 8);
    WriteAllLength(PairWriter(), f.transferFlags, 8);
    var b := FooterBytes(f);
    var times := Zeros(ReservedBlock) + WriteAll(U32Le, f.playTimes);
    var deletion := times + Zeros(TimesGap) + WriteAll(PairWriter(), f.deletionFlags);
    var transfer := deletion + WriteAll(PairWriter(), f.transferFlags);
    var tail := U16Le(f.accountAccessory) + Zeros(AccessoryGap) + U32Le(f.loginSurvey) + U32Le(f.ad) + Zeros(EndPadding);
    assert b == transfer + tail;
    assert b[..AccessoryAt] == transfer;
    assert transfer[..TransferAt] == deletion;
    assert deletion[..TimesAt + 4 * SlotCount] == times;
  }

  /** A field of the middle part of `head + (middle + tail)`, found in the whole. */
  lemma Embedded(whole: seq<byte>, head: seq<byte>, middle: seq<byte>, tail: seq<byte>, k: nat, len: nat, field: seq<byte>)
    requires whole == head + (middle + tail)
    requires k + len <= |middle| && middle[k..k + len] == field
    ensures |head| + k + len <= |whole| && whole[|head| + k..|head| + k + len] == field
  {
    assert whole[|head|..|head| + |middle|] == middle;
    FieldAt(whole, |head|, middle, k, len);
  }

  /** A slice of a part placed at offset `at` of a whole is the same slice of the whole, shifted. */
  lemma FieldAt(whole: seq<byte>, at: nat, part: seq<byte>, k: nat, len: nat)
    requires at + |part| <= |whole| && whole[at..at + |part|] == part
    requires k + len <= |part|
    ensures whole[at + k..at + k + len] == part[k..k + len]
  {
    var x, y := whole[at + k..at + k + len], part[k..k + len];
    forall j | 0 <= j < len
      ensures x[j] == y[j]
    {
      assert part[k + j] == whole[at + k + j];
    }
  }

  // ---------------------------------------------------------------
  // Write and read as the source performs them
  // ---------------------------------------------------------------

  /** `for _ in 0..n { buf.write_u8(0) }` */
  method AppendZeros(buf: seq<byte>, n: nat) returns (out: seq<byte>)
    ensures out == buf + Zeros(n)
  {
    out := buf;
    var i := 0;
    while i < n
      invariant i <= n
      invariant out == buf + Zeros(i)
    {
      out := out + [0];
      i := i + 1;
      assert Zeros(i) == Zeros(i - 1) + [0];
    }
  }

  /** Writes each item in order, as the `for i in 0..30` loops over the play times and flag pairs do. */
  method AppendAll<T>(buf: seq<byte>, write: T -> seq<byte>, xs: seq<T>) returns (out: seq<byte>)
    ensures out == buf + WriteAll(write, xs)
  {
    out := buf;
    var i := 0;
    while i < |xs|
      invariant i <= |xs|
      invariant out == buf + WriteAll(write, xs[..i])
    {
      ConcatAssoc(buf, WriteAll(write, xs[..i]), write(xs[i]));
      out := out + write(xs[i]);
      assert xs[..i + 1] == xs[..i] + [xs[i]];
      WriteAllSnoc(write, xs[..i], xs[i]);
      i := i + 1;
    }
    assert xs[..|xs|] == xs;
  }

  /** `for character in src.iter().cycle().take(30)`: a zero u32, then the character. */
  method AppendSlots<C(!new)>(buf: seq<byte>, codec: CharacterCodec<C>, src: seq<C>, isGlobal: bool) returns (out: seq<byte>)
    requires src != []
    ensures out == buf + WriteAll(SlotWriter(codec, isGlobal), Cycle(src, SlotCount))
  {
    out := buf;
    var i := 0;
    while i < SlotCount
      invariant i <= SlotCount
      invariant out == buf + WriteAll(SlotWriter(codec, isGlobal), Cycle(src, i))
    {
      U32LeZero();
      ghost var c := src[i % |src|];
      ConcatAssoc(buf, WriteAll(SlotWriter(codec, isGlobal), Cycle(src, i)), U32Le(0) + codec.write(c, isGlobal));
      out := out + (U32Le(0) + codec.write(src[i % |src|], isGlobal));
      assert Cycle(src, i + 1) == Cycle(src, i) + [c];
      WriteAllSnoc(SlotWriter(codec, isGlobal), Cycle(src, i), c);
      i := i + 1;
    }
  }

  /** Emits the header, then the payload fields in wire order. */
  method WriteCharacterList<C(!new)>(p: CharacterListPacket<C>, codec: CharacterCodec<C>, writeHeader: HeaderWriter, isNgs: bool)
    returns (buf: seq<byte>)
    requires p.WellFormed()
    ensures buf == Framed(writeHeader, ListHeader, isNgs, CharacterListWire(codec, p))
  {
    var header := writeHeader(ListHeader, isNgs);
    ghost var head := U32Le(CountField(|p.characters|)) + Zeros(4);
    ghost var slots := SlotBytes(codec, p.characters, p.isGlobal);
    var length := |p.characters| % 0x1_0000_0000;
    var count := if length <= SlotCount then length else SlotCount;
    buf := header + U32Le(count) + U32Le(0);
    assert buf == header + head by {
      U32LeZero();
      ConcatAssoc(header, U32Le(count), U32Le(0));
    }
    var src := if p.characters == [] then [codec.default] else p.characters;
    buf := AppendSlots(buf, codec, src, p.isGlobal);
    assert buf == header + head + slots;
    buf := AppendFooter(buf, p.FooterFields());
    ConcatAssoc(header, head, slots);
    ConcatAssoc(header, head + slots, FooterBytes(p.FooterFields()));
  }

  /** Everything the write emits after the slots. */
  method AppendFooter(buf: seq<byte>, f: Footer) returns (out: seq<byte>)
    requires |f.playTimes| == SlotCount && |f.deletionFlags| == SlotCount && |f.transferFlags| == SlotCount
    ensures out == buf + FooterBytes(f)
  {
    // `footer` is the part of the footer emitted so far
    ghost var footer := Zeros(ReservedBlock);
    out := AppendZeros(buf, ReservedBlock);
    out := AppendAll(out, U32Le, f.playTimes);
    ConcatAssoc(buf, footer, WriteAll(U32Le, f.playTimes));
    footer := footer + WriteAll(U32Le, f.playTimes);
    out := AppendZeros(out, TimesGap);
    ConcatAssoc(buf, footer, Zeros(TimesGap));
    footer := footer + Zeros(TimesGap);
    out := AppendAll(out, PairWriter(), f.deletionFlags);
    ConcatAssoc(buf, footer, WriteAll(PairWriter(), f.deletionFlags));
    footer := footer + WriteAll(PairWriter(), f.deletionFlags);
    out := AppendAll(out, PairWriter(), f.transferFlags);
    ConcatAssoc(buf, footer, WriteAll(PairWriter(), f.transferFlags));
    footer := footer + WriteAll(PairWriter(), f.transferFlags);
    out := out + U16Le(f.accountAccessory);
    ConcatAssoc(buf, footer, U16Le(f.accountAccessory));
    footer := footer + U16Le(f.accountAccessory);
    out := out + Zeros(AccessoryGap);
    ConcatAssoc(buf, footer, Zeros(AccessoryGap));
    footer := footer + Zeros(AccessoryGap);
    out := out + U32Le(f.loginSurvey);
    ConcatAssoc(buf, footer, U32Le(f.loginSurvey));
    footer := footer + U32Le(f.loginSurvey);
    out := out + U32Le(f.ad);
    ConcatAssoc(buf, footer, U32Le(f.ad));
    footer := footer + U32Le(f.ad);
    U32LeZero();
    assert U32Le(0) + U32Le(0) == Zeros(EndPadding);
    out := out + (U32Le(0) + U32Le(0));
    ConcatAssoc(buf, footer, Zeros(EndPadding));
  }

  lemma ConcatAssoc(a: seq<byte>, b: seq<byte>, c: seq<byte>)
    ensures a + b + c == a + (b + c)
  {
  }

  /** `for item in &mut arr { *item = read(reader)? }` over a 30-entry array. */
  method ReadArray<T>(read: ItemReader<T>, s: seq<byte>, zero: T) returns (r: Option<(seq<T>, seq<byte>)>)
    ensures r == ReadAll(read, s, SlotCount)
  {
    var a := new T[SlotCount](_ => zero);
    var rest := s;
    var i := 0;
    while i < SlotCount
      invariant i <= SlotCount
      invariant ReadAll(read, s, i) == Some((a[..i], rest))
    {
      ghost var done := a[..i];
      ReadAllNext(read, s, i, done, rest);
      var item := read(rest);
      if item.None? {
        ReadAllStops(read, s, i + 1, SlotCount);
        return None;
      }
      a[i] := item.value.0;
      assert a[..i + 1] == done + [item.value.0];
      rest := item.value.1;
      i := i + 1;
    }
    assert a[..] == a[..SlotCount];
    return Some((a[..], rest));
  }

  /** Reads all 30 slots and keeps the first `keep` characters. */
  method ReadSlots<C>(codec: CharacterCodec<C>, s: seq<byte>, keep: nat) returns (r: Option<(seq<C>, seq<byte>)>)
    ensures var all := ReadAll(SlotReader(codec), s, SlotCount);
      && (r.None? <==> all.None?)
      && (r.Some? ==> r.value == (all.value.0[..Min(keep, SlotCount)], all.value.1))
  {
    var characters: seq<C> := [];
    var rest := s;
    ghost var all: seq<C> := [];
    var i := 0;
    while i < SlotCount
      invariant i <= SlotCount
      invariant ReadAll(SlotReader(codec), s, i) == Some((all, rest))
      invariant characters == all[..Min(i, keep)]
    {
      ReadAllNext(SlotReader(codec), s, i, all, rest);
      var slot := codec.read(Drop(rest, SlotGap));
      if slot.None? {
        ReadAllStops(SlotReader(codec), s, i + 1, SlotCount);
        return None;
      }
      if i < keep {
        characters := characters + [slot.value.0];
      }
      all := all + [slot.value.0];
      rest := slot.value.1;
      i := i + 1;
    }
    return Some((characters, rest));
  }

  /** Reads the payload field by field; None where the source fails with `UnexpectedEof`. */
  method ReadCharacterList<C>(codec: CharacterCodec<C>, payload: seq<byte>) returns (r: Option<CharacterListPacket<C>>)
    ensures r == ParseCharacterList(codec, payload)
  {
    var amount := ReadU32(payload);
    if amount.None? {
      return None;
    }
    var count := if amount.value.0 <= SlotCount then amount.value.0 else SlotCount;
    var slots := ReadSlots(codec, Drop(amount.value.1, 4), count);
    if slots.None? {
      return None;
    }
    var f := ReadFooter(slots.value.1);
    if f.None? {
      return None;
    }
    var footer := f.value;
    r := Some(CharacterListPacket(false, slots.value.0, footer.playTimes, footer.deletionFlags, footer.transferFlags,
                                  footer.accountAccessory, footer.loginSurvey, footer.ad));
  }

  /** Reads everything after the slots. */
  method ReadFooter(s: seq<byte>) returns (r: Option<Footer>)
    ensures r == ParseFooter(s)
  {
    var times := ReadArray(ReadU32, Drop(s, ReservedBlock), 0);
    if times.None? {
      return None;
    }
    var deletion := ReadArray(ReadPair, Drop(times.value.1, TimesGap), (0, 0));
    if deletion.None? {
      return None;
    }
    var transfer := ReadArray(ReadPair, deletion.value.1, (0, 0));
    if transfer.None? {
      return None;
    }
    var accessory := ReadU16(transfer.value.1);
    if accessory.None? {
      return None;
    }
    var survey := ReadU32(Drop(accessory.value.1, AccessoryGap));
    if survey.None? {
      return None;
    }
    var ad := ReadU32(survey.value.1);
    if ad.None? {
      return None;
    }
    r := Some(Footer(times.value.0, deletion.value.0, transfer.value.0, accessory.value.0, survey.value.0, ad.value.0));
  }
}
