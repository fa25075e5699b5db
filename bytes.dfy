/**
 * Byte-level vocabulary shared by the login codecs: fixed-width unsigned
 * integers, their little-endian encodings, zero runs, and reads over the
 * bytes that remain in the reader.
 *
 * A reader is modelled by the sequence of bytes it has not consumed yet.
 * A read returns the value and the bytes after it, or None when the input is
 * too short (the source's `UnexpectedEof`).
 */
module Bytes {
  import opened Wrappers

  type byte = x: int | 0 <= x < 0x100
  type u16 = x: int | 0 <= x < 0x1_0000
  type u32 = x: int | 0 <= x < 0x1_0000_0000

  function Min(a: int, b: int): int
  {
    if a <= b then a else b
  }

  /** `n` zero bytes: what is written for a reserved region. */
  function Zeros(n: nat): (r: seq<byte>)
    ensures |r| == n
    ensures forall i :: 0 <= i < n ==> r[i] == 0
  {
    seq(n, _ => 0)
  }

  // ---------------------------------------------------------------
  // Little-endian integers
  // ---------------------------------------------------------------

  /** Low byte first: the two bytes weighted 1 and 0x100 add up to the value. */
  function U16Le(x: u16): (r: seq<byte>)
    ensures |r| == 2
    ensures r[0] as int + 0x100 * r[1] as int == x
  {
    [x % 0x100, x / 0x100]
  }

  /** The value whose low byte is `s[0]` and whose high byte is `s[1]`. */
  function U16FromLe(s: seq<byte>): (r: u16)
    requires |s| == 2
    ensures r % 0x100 == s[0] && r / 0x100 == s[1]
  {
    s[0] as int + 0x100 * s[1] as int
  }

  /** Lowest byte first: the four bytes weighted 1, 2^8, 2^16 and 2^24 add up to the value. */
  function U32Le(x: u32): (r: seq<byte>)
    ensures |r| == 4
    ensures r[0] as int + 0x100 * r[1] as int + 0x1_0000 * r[2] as int + 0x100_0000 * r[3] as int == x
  {
    U16Le(x % 0x1_0000) + U16Le(x / 0x1_0000)
  }

  /** The value of four bytes, lowest first. */
  function U32FromLe(s: seq<byte>): (r: u32)
    requires |s| == 4
    ensures r == s[0] as int + 0x100 * s[1] as int + 0x1_0000 * s[2] as int + 0x100_0000 * s[3] as int
  {
    U16FromLe(s[..2]) as int + 0x1_0000 * U16FromLe(s[2..]) as int
  }

  lemma U16Codec(x: u16)
    ensures U16FromLe(U16Le(x)) == x
  {
  }

  lemma U16Canonical(s: seq<byte>)
    requires |s| == 2
    ensures U16Le(U16FromLe(s)) == s
  {
    var x := U16FromLe(s);
    assert x % 0x100 == s[0] && x / 0x100 == s[1];
  }

  /** Decoding inverts encoding for every u32. */
  lemma U32Codec(x: u32)
    ensures U32FromLe(U32Le(x)) == x
  {
    var lo, hi := U16Le(x % 0x1_0000), U16Le(x / 0x1_0000);
    assert U32Le(x)[..2] == lo && U32Le(x)[2..] == hi;
    U16Codec(x % 0x1_0000);
    U16Codec(x / 0x1_0000);
  }

  /** Every four bytes are the encoding of exactly one u32. */
  lemma U32Canonical(s: seq<byte>)
    requires |s| == 4
    ensures U32Le(U32FromLe(s)) == s
  {
    var lo, hi := U16FromLe(s[..2]), U16FromLe(s[2..]);
    var x := U32FromLe(s);
    assert x % 0x1_0000 == lo && x / 0x1_0000 == hi;
    U16Canonical(s[..2]);
    U16Canonical(s[2..]);
    assert s == s[..2] + s[2..];
  }

  lemma U32LeZero()
    ensures U32Le(0) == Zeros(4)
  {
  }

  // ---------------------------------------------------------------
  // Reads over the remaining bytes
  // ---------------------------------------------------------------

  /**
   * Moves the reader `n` bytes forward. As for an in-memory cursor, seeking
   * past the end does not fail; it leaves nothing to read, so the next read
   * fails. A by-value iterator's `skip(n)` behaves the same way.
   */
  function Drop<T>(s: seq<T>, n: nat): (r: seq<T>)
    ensures r == s[Min(n, |s|)..]
  {
    if |s| <= n then [] else s[n..]
  }

  /** `read_u16::<LittleEndian>`: the value at the front and the bytes after it. */
  function ReadU16(s: seq<byte>): (r: Option<(u16, seq<byte>)>)
    ensures r.Some? <==> |s| >= 2
    ensures r.Some? ==> s == U16Le(r.value.0) + r.value.1
  {
    if |s| < 2 then None
    else
      U16Canonical(s[..2]);
      Some((U16FromLe(s[..2]), s[2..]))
  }

  /** `read_u32::<LittleEndian>`: the value at the front and the bytes after it. */
  function ReadU32(s: seq<byte>): (r: Option<(u32, seq<byte>)>)
    ensures r.Some? <==> |s| >= 4
    ensures r.Some? ==> s == U32Le(r.value.0) + r.value.1
  {
    if |s| < 4 then None
    else
      U32Canonical(s[..4]);
      Some((U32FromLe(s[..4]), s[4..]))
  }

  lemma DropZeros(n: nat, rest: seq<byte>)
    ensures Drop(Zeros(n) + rest, n) == rest
  {
    assert (Zeros(n) + rest)[n..] == rest;
  }

  lemma ReadU16Written(x: u16, rest: seq<byte>)
    ensures ReadU16(U16Le(x) + rest) == Some((x, rest))
  {
    var s := U16Le(x) + rest;
    assert s[..2] == U16Le(x) && s[2..] == rest;
    U16Codec(x);
  }

  lemma ReadU32Written(x: u32, rest: seq<byte>)
    ensures ReadU32(U32Le(x) + rest) == Some((x, rest))
  {
    var s := U32Le(x) + rest;
    assert s[..4] == U32Le(x) && s[4..] == rest;
    U32Codec(x);
  }

  // ---------------------------------------------------------------
  // Sequence operations used by the key-material codec
  // ---------------------------------------------------------------

  /** The elements of `s` in the opposite order (`Vec::reverse`, `Iterator::rev`). */
  function Reverse<T>(s: seq<T>): (r: seq<T>)
    ensures |r| == |s|
    ensures forall i :: 0 <= i < |s| ==> r[i] == s[|s| - 1 - i]
  {
    seq(|s|, i requires 0 <= i < |s| => s[|s| - 1 - i])
  }

  /** `Vec::resize(n, fill)`: truncate to `n`, or extend with `fill` up to `n`. */
  function Resize<T>(s: seq<T>, n: nat, fill: T): (r: seq<T>)
    ensures |r| == n
    ensures forall i :: 0 <= i < n ==> r[i] == if i < |s| then s[i] else fill
  {
    if n <= |s| then s[..n] else s + seq(n - |s|, _ => fill)
  }

  /** Drops the zero bytes at the front, keeping everything from the first non-zero byte on. */
  function StripLeadingZeros(s: seq<byte>): (r: seq<byte>)
    ensures |r| <= |s| && r == s[|s| - |r|..]
    ensures r == [] || r[0] != 0
  {
    if s == [] || s[0] != 0 then s else StripLeadingZeros(s[1..])
  }

  /** What stripping keeps: a suffix, behind only zero bytes, that does not itself start with zero. */
  lemma {:induction false} StripLeadingZerosShape(s: seq<byte>)
    ensures var r := StripLeadingZeros(s);
      && |r| <= |s| && r == s[|s| - |r|..]
      && (forall i :: 0 <= i < |s| - |r| ==> s[i] == 0)
      && (r == [] || r[0] != 0)
  {
    if s != [] && s[0] == 0 {
      StripLeadingZerosShape(s[1..]);
    }
  }

  /** Stripping is determined by where the first non-zero byte is. */
  lemma {:induction false} StripLeadingZerosAt(s: seq<byte>, k: nat)
    requires k <= |s|
    requires forall i :: 0 <= i < k ==> s[i] == 0
    requires k == |s| || s[k] != 0
    ensures StripLeadingZeros(s) == s[k..]
  {
    if k > 0 {
      StripLeadingZerosAt(s[1..], k - 1);
    }
  }

  /** Zero bytes in front do not change what stripping keeps. */
  lemma {:induction false} StripLeadingZerosPadded(n: nat, s: seq<byte>)
    ensures StripLeadingZeros(Zeros(n) + s) == StripLeadingZeros(s)
  {
    if n == 0 {
      assert Zeros(n) + s == s;
    } else {
      var padded := Zeros(n) + s;
      assert padded[0] == 0 && padded[1..] == Zeros(n - 1) + s;
      StripLeadingZerosPadded(n - 1, s);
    }
  }

  /** Seeking over a zero run followed by `t`. */
  lemma DropPadded(a: nat, t: seq<byte>, n: nat)
    ensures n <= a ==> Drop(Zeros(a) + t, n) == Zeros(a - n) + t
    ensures a < n ==> Drop(Zeros(a) + t, n) == Drop(t, n - a)
  {
    var s := Zeros(a) + t;
    if n <= a {
      if |s| > n {
        assert s[n..] == Zeros(a - n) + t;
      }
    } else if |s| > n {
      assert s[n..] == t[n - a..];
    }
  }
}
