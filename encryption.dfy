/**
 * The two packets of the key exchange (src/protocol/login.rs:676-710).
 *
 * The request carries key material stored reversed and zero-padded to a fixed
 * 0x104-byte field; reading reverses it back, discards the 4 bytes that were
 * at the end of the field and strips the zero padding, which leaves a
 * big-endian value without leading zeros. The response carries an opaque
 * blob that runs to the end of the packet.
 */
module Encryption {
  import opened Bytes
  import opened Envelope

  const RequestHeader := PacketHeader(0x11, 0x0B)
  const ResponseHeader := PacketHeader(0x11, 0x0C)

  /** Width of the key-material field on the wire. */
  const KeyFieldSize := 0x104
  /** Bytes at the end of the field that a read discards (the first ones after reversal). */
  const TrailerSize := 4

  datatype EncryptionRequestPacket = EncryptionRequestPacket(rsaData: seq<byte>)

  datatype EncryptionResponsePacket = EncryptionResponsePacket(data: seq<byte>)

  // ---------------------------------------------------------------
  // Request: specification
  // ---------------------------------------------------------------

  /**
   * The request payload as write emits it: 0x104 bytes, byte i being the
   * i-th key byte from the end, and zero beyond the key.
   */
  function RequestPayload(rsaData: seq<byte>): (r: seq<byte>)
    ensures |r| == KeyFieldSize
    ensures forall i :: 0 <= i < KeyFieldSize ==> r[i] == if i < |rsaData| then rsaData[|rsaData| - 1 - i] else 0
  {
    Resize(Reverse(rsaData), KeyFieldSize, 0)
  }

  /** The key bytes a read recovers from a request payload: none from a payload of at most 4 bytes, and never a leading zero. */
  function RequestKey(payload: seq<byte>): (r: seq<byte>)
    ensures |payload| <= TrailerSize ==> r == []
    ensures |r| <= |payload|
    ensures r == [] || r[0] != 0
  {
    StripLeadingZeros(Drop(Reverse(payload), TrailerSize))
  }

  // ---------------------------------------------------------------
  // Request: the codec
  // ---------------------------------------------------------------

  /** `data.reverse()`: swaps the two ends of the array inwards. */
  method ReverseBytes(a: array<byte>)
    modifies a
    ensures a[..] == Reverse(old(a[..]))
  {
    var lo, hi := 0, a.Length;
    while lo + 1 < hi
      invariant 0 <= lo <= hi <= a.Length && lo + hi == a.Length
      invariant forall k :: 0 <= k < lo ==> a[k] == old(a[a.Length - 1 - k])
      invariant forall k :: hi <= k < a.Length ==> a[k] == old(a[a.Length - 1 - k])
      invariant forall k :: lo <= k < hi ==> a[k] == old(a[k])
    {
      a[lo], a[hi - 1] := a[hi - 1], a[lo];
      lo, hi := lo + 1, hi - 1;
    }
  }

  /** `EncryptionRequestPacket::write`: the header, then the key reversed and resized to 0x104 bytes. */
  method WriteEncryptionRequest(p: EncryptionRequestPacket, writeHeader: HeaderWriter, isNgs: bool)
    returns (buf: seq<byte>)
    ensures buf == Framed(writeHeader, RequestHeader, isNgs, RequestPayload(p.rsaData))
  {
    buf := writeHeader(RequestHeader, isNgs);
    var data := new byte[|p.rsaData|](i requires 0 <= i < |p.rsaData| => p.rsaData[i]);
    assert data[..] == p.rsaData;
    ReverseBytes(data);
    buf := buf + Resize(data[..], KeyFieldSize, 0);
  }

  /**
   * `EncryptionRequestPacket::read`: walks the payload from its end, skips 4
   * bytes, finds the first non-zero byte and keeps it and everything after it.
   */
  method ReadEncryptionRequest(payload: seq<byte>) returns (p: EncryptionRequestPacket)
    ensures p.rsaData == RequestKey(payload)
  {
    var n := |payload|;
    ghost var reversed := Reverse(payload);
    // `iter.find(|x| *x != 0x00)` on the reversed iterator after `skip(4)`
    var i := TrailerSize;
    while i < n && payload[n - 1 - i] == 0
      invariant TrailerSize <= i && (i <= n || i == TrailerSize)
      invariant forall k :: TrailerSize <= k < i ==> reversed[k] == 0
    {
      i := i + 1;
    }
    var tmpData: seq<byte> := [];
    if i < n {
      tmpData := tmpData + [payload[n - 1 - i]];
      // `tmp_data.extend(iter)`
      var j := i + 1;
      while j < n
        invariant i < j <= n
        invariant |tmpData| == j - i
        invariant forall k :: 0 <= k < j - i ==> tmpData[k] == payload[n - 1 - (i + k)]
      {
        tmpData := tmpData + [payload[n - 1 - j]];
        j := j + 1;
      }
    }
    p := EncryptionRequestPacket(tmpData);
    RequestKeyFrom(payload, i);
  }

  /** Where the search for the first non-zero byte stops determines the key. */
  lemma RequestKeyFrom(payload: seq<byte>, i: nat)
    requires TrailerSize <= i && (i <= |payload| || i == TrailerSize)
    requires forall k :: TrailerSize <= k < i ==> Reverse(payload)[k] == 0
    requires i < |payload| ==> payload[|payload| - 1 - i] != 0
    ensures |RequestKey(payload)| == if i < |payload| then |payload| - i else 0
    ensures forall k :: 0 <= k < |RequestKey(payload)| ==>
      RequestKey(payload)[k] == payload[|payload| - 1 - (i + k)]
  {
    var n := |payload|;
    if n > TrailerSize {
      var skipped := Drop(Reverse(payload), TrailerSize);
      assert |skipped| == n - TrailerSize;
      assert forall k :: 0 <= k < |skipped| ==> skipped[k] == payload[n - 1 - (k + TrailerSize)];
      StripLeadingZerosAt(skipped, Min(i, n) - TrailerSize);
    }
  }

  // ---------------------------------------------------------------
  // Request: properties
  // ---------------------------------------------------------------

  /**
   * A read never keeps a leading zero byte, and it keeps nothing exactly when
   * every byte before the 4-byte trailer is zero (in particular when there
   * are at most 4 bytes).
   */
  lemma RequestKeyShape(payload: seq<byte>)
    ensures RequestKey(payload) == [] || RequestKey(payload)[0] != 0
    ensures RequestKey(payload) == [] <==>
      forall i :: 0 <= i < |payload| - TrailerSize ==> payload[i] == 0
  {
    var n := |payload|;
    var skipped := Drop(Reverse(payload), TrailerSize);
    if n > TrailerSize {
      assert |skipped| == n - TrailerSize;
      forall i | 0 <= i < n - TrailerSize
        ensures payload[i] == skipped[n - TrailerSize - 1 - i]
      {
      }
    }
    StripLeadingZerosShape(skipped);
    if RequestKey(payload) != [] {
      assert 0 < |skipped|;
      var k := |skipped| - |RequestKey(payload)|;
      assert skipped[k] != 0;
      assert payload[n - TrailerSize - 1 - k] != 0;
    }
  }

  /** Reversing a reversed key resized to `w` bytes gives its last `w` bytes behind zero padding. */
  lemma ReversedResized(d: seq<byte>, w: nat)
    ensures var m := Min(|d|, w);
      Reverse(Resize(Reverse(d), w, 0)) == Zeros(w - m) + d[|d| - m..]
  {
    var m := Min(|d|, w);
    var lhs, rhs := Reverse(Resize(Reverse(d), w, 0)), Zeros(w - m) + d[|d| - m..];
    assert |lhs| == w == |rhs|;
    forall i | 0 <= i < w
      ensures lhs[i] == rhs[i]
    {
      ReversedResizedAt(d, w, i);
    }
  }

  lemma ReversedResizedAt(d: seq<byte>, w: nat, i: nat)
    requires i < w
    ensures var m := Min(|d|, w);
      |Reverse(Resize(Reverse(d), w, 0))| == w
      && Reverse(Resize(Reverse(d), w, 0))[i] == (Zeros(w - m) + d[|d| - m..])[i]
  {
    var m := Min(|d|, w);
    var resized := Resize(Reverse(d), w, 0);
    var j := w - 1 - i;
    assert Reverse(resized)[i] == resized[j];
    if j < |d| {
      assert resized[j] == d[|d| - 1 - j];
      assert (Zeros(w - m) + d[|d| - m..])[i] == d[|d| - m + (i - (w - m))];
    } else {
      assert resized[j] == 0;
    }
  }

  /** Seeking `t` bytes into the reversed field: first through the padding, then into the key. */
  lemma PaddedDrop(d: seq<byte>, w: nat, t: nat)
    requires t <= w
    ensures var m, m' := Min(|d|, w), Min(|d|, w - t);
      Drop(Zeros(w - m) + d[|d| - m..], t) == Zeros(w - t - m') + d[|d| - m'..]
  {
    var m := Min(|d|, w);
    var m' := Min(|d|, w - t);
    var tail := d[|d| - m..];
    DropPadded(w - m, tail, t);
    if t <= w - m {
      assert m' == m;
    } else {
      KeyDrop(d, m, t - (w - m));
      assert Zeros(w - t - m') + d[|d| - m'..] == d[|d| - m'..];
    }
  }

  /** Seeking `skip` bytes into the last `m` key bytes leaves the last `m - skip`. */
  lemma KeyDrop(d: seq<byte>, m: nat, skip: nat)
    requires m <= |d| && skip <= m
    ensures Drop(d[|d| - m..], skip) == d[|d| - (m - skip)..]
  {
    assert d[|d| - m..][skip..] == d[|d| - (m - skip)..];
  }

  /** Write then read for a field of `w` bytes whose first `t` reversed bytes are discarded. */
  lemma ResizedRoundTrip(d: seq<byte>, w: nat, t: nat)
    requires t <= w
    ensures var m := Min(|d|, w - t);
      StripLeadingZeros(Drop(Reverse(Resize(Reverse(d), w, 0)), t)) == StripLeadingZeros(d[|d| - m..])
  {
    var m := Min(|d|, w);
    var m' := Min(|d|, w - t);
    var key := d[|d| - m'..];
    var skipped := Drop(Reverse(Resize(Reverse(d), w, 0)), t);
    assert skipped == Zeros(w - t - m') + key by {
      ReversedResized(d, w);
      PaddedDrop(d, w, t);
    }
    StripLeadingZerosPadded(w - t - m', key);
  }

  /**
   * Reading what write produced gives the last 0x100 key bytes (all of them
   * when the key is at most 0x100 bytes long) with leading zeros stripped.
   */
  lemma RequestRoundTrip(d: seq<byte>)
    ensures var m := Min(|d|, KeyFieldSize - TrailerSize);
      RequestKey(RequestPayload(d)) == StripLeadingZeros(d[|d| - m..])
  {
    ResizedRoundTrip(d, KeyFieldSize, TrailerSize);
    assert RequestKey(RequestPayload(d)) == StripLeadingZeros(Drop(Reverse(Resize(Reverse(d), KeyFieldSize, 0)), TrailerSize));
  }

  /** For a key of at most 0x100 bytes, reading what write produced gives the key with leading zeros stripped. */
  lemma RequestRoundTripShort(d: seq<byte>)
    requires |d| <= KeyFieldSize - TrailerSize
    ensures RequestKey(RequestPayload(d)) == StripLeadingZeros(d)
  {
    RequestRoundTrip(d);
    assert d[|d| - |d|..] == d;
  }

  /** A key of at most 0x100 bytes that does not start with zero survives write then read unchanged. */
  lemma RequestRoundTripExact(d: seq<byte>)
    requires |d| <= KeyFieldSize - TrailerSize
    requires d == [] || d[0] != 0
    ensures RequestKey(RequestPayload(d)) == d
  {
    RequestRoundTripShort(d);
    StripLeadingZerosAt(d, 0);
  }

  /** A key with a leading zero byte, such as 0x00 0xFF, reads back without it. */
  lemma LeadingZeroDropped()
    ensures RequestKey(RequestPayload([0x00, 0xFF])) == [0xFF]
  {
    RequestRoundTripShort([0x00, 0xFF]);
    assert StripLeadingZeros([0x00, 0xFF]) == StripLeadingZeros([0xFF]);
  }

  // ---------------------------------------------------------------
  // Response: an opaque blob to the end of the packet
  // ---------------------------------------------------------------

  /** `EncryptionResponsePacket::read`: everything left in the reader, verbatim. */
  function ReadEncryptionResponse(payload: seq<byte>): (p: EncryptionResponsePacket)
    ensures p.data == payload
  {
    EncryptionResponsePacket(payload)
  }

  /** `EncryptionResponsePacket::write`: the header, then the blob verbatim. */
  function WriteEncryptionResponse(p: EncryptionResponsePacket, writeHeader: HeaderWriter, isNgs: bool): (buf: seq<byte>)
    ensures buf == Framed(writeHeader, ResponseHeader, isNgs, p.data)
  {
    writeHeader(ResponseHeader, isNgs) + p.data
  }

  /** Reading the payload of a written response gives the packet back. */
  lemma ResponseRoundTrip(p: EncryptionResponsePacket, writeHeader: HeaderWriter, isNgs: bool)
    ensures ReadEncryptionResponse(PayloadOf(writeHeader, ResponseHeader, isNgs,
      WriteEncryptionResponse(p, writeHeader, isNgs))) == p
  {
    PayloadOfFramed(writeHeader, ResponseHeader, isNgs, p.data);
  }
}
