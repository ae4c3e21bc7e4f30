/** Unsigned little-endian base-128 varints (the "Base 128 Varint" of Protocol
    Buffers, also unsigned LEB128 of section 7.6 of DWARF 4): the low seven bits of
    every byte are payload, and a set high bit (0x80) means that another byte follows.

    The module gives reference definitions (DecodeSpec, EncodeSpec), the two loops of
    BOT.py as methods proved against them (Decode, Encode), and the lemmas that state
    what the format promises: shape, bounds, locality and the round trips. */
module Varint {
  import opened Wrappers

  /** A byte of the buffer, as Python's bytes/bytearray indexing yields it. */
  type byte = b: int | 0 <= b < 256

  /** `b & 0x80` is non-zero: another byte follows. */
  predicate HasMore(b: byte) {
    b >= 0x80
  }

  /** `b & 0x7F`: the seven payload bits of a byte. */
  function Payload(b: byte): (p: nat)
    ensures p < 0x80
    ensures HasMore(b) ==> p + 0x80 == b
    ensures !HasMore(b) ==> p == b
  {
    b % 0x80
  }

  /** `1 << n` */
  function Pow2(n: nat): (r: nat)
    ensures r >= 1
  {
    if n == 0 then 1 else 2 * Pow2(n - 1)
  }

  lemma {:induction false} Pow2Add(a: nat, b: nat)
    ensures Pow2(a + b) == Pow2(a) * Pow2(b)
  {
    if a != 0 {
      Pow2Add(a - 1, b);
    }
  }

  /** One more varint byte multiplies the weight of the following payload by 128. */
  lemma Pow2Step(k: nat)
    ensures Pow2(7 * k + 7) == 0x80 * Pow2(7 * k)
  {
    Pow2Add(7 * k, 7);
    assert Pow2(7) == 0x80;
  }

  /** The value of a byte string read as base-128 digits, least significant first:
      the sum over k of Payload(s[k]) * 2^(7k). */
  function LEValue(s: seq<byte>): nat
  {
    if s == [] then 0 else Payload(s[0]) + 0x80 * LEValue(s[1..])
  }

  /** Adding a byte at the high end adds its payload shifted left by 7 bits per byte
      already read: the step `value |= (b & 0x7F) << shift` of the decoder. */
  lemma {:induction false} LEValueAppend(s: seq<byte>, b: byte)
    ensures LEValue(s + [b]) == LEValue(s) + Payload(b) * Pow2(7 * |s|)
  {
    if s == [] {
      assert [] + [b] == [b];
      assert [b][1..] == [];
    } else {
      var rest := s[1..];
      assert (s + [b])[1..] == rest + [b];
      LEValueAppend(rest, b);
      Pow2Step(|rest|);
      assert 7 * |rest| + 7 == 7 * |s|;
      var w := Pow2(7 * |rest|);
      var p, q := Payload(b), LEValue(rest);
      assert (s + [b])[0] == s[0];
      assert LEValue(s + [b]) == Payload(s[0]) + 0x80 * (q + p * w);
      Distribute(q, p, w);
      assert LEValue(s) == Payload(s[0]) + 0x80 * q;
    }
  }

  lemma Distribute(q: nat, p: nat, w: nat)
    ensures 0x80 * (q + p * w) == 0x80 * q + p * (0x80 * w)
  {
  }

  /** n bytes never carry more than 7n bits. */
  lemma {:induction false} LEValueBound(s: seq<byte>)
    ensures LEValue(s) < Pow2(7 * |s|)
  {
    if s != [] {
      LEValueBound(s[1..]);
      Pow2Step(|s| - 1);
      assert 7 * (|s| - 1) + 7 == 7 * |s|;
    }
  }

  /** The bytes data[start .. start+ln-1] form one complete varint: every byte but
      the last has 0x80 set and the last has it clear. */
  predicate IsVarintAt(data: seq<byte>, start: nat, ln: nat) {
    && 1 <= ln
    && start + ln <= |data|
    && (forall k :: start <= k < start + ln - 1 ==> HasMore(data[k]))
    && !HasMore(data[start + ln - 1])
  }

  /** Whether bytes form a varint is a property of those bytes alone. */
  lemma VarintSlice(data: seq<byte>, start: nat, ln: nat)
    requires start + ln <= |data|
    ensures IsVarintAt(data, start, ln) <==> IsVarintAt(data[start..start + ln], 0, ln)
  {
  }

  /** Every byte from `start` to the end of the buffer has 0x80 set, so no varint
      starting at `start` ends inside the buffer. */
  predicate NoTerminatorFrom(data: seq<byte>, start: nat) {
    forall k :: start <= k < |data| ==> HasMore(data[k])
  }

  /** The pair `(value, byte_length)` that decode_varint returns. */
  datatype Decoded = Decoded(value: nat, length: nat)

  /** Reference definition of decoding a varint at `start`; None where the decoder
      would read past the end of the buffer. A result never reaches past the end of
      the buffer and always stops at a byte with 0x80 clear. */
  function DecodeSpec(data: seq<byte>, start: nat): (r: Option<Decoded>)
    ensures r.Some? ==>
      && 1 <= r.value.length && start + r.value.length <= |data|
      && !HasMore(data[start + r.value.length - 1])
    decreases |data| - start
  {
    if start >= |data| then None
    else if !HasMore(data[start]) then Some(Decoded(Payload(data[start]), 1))
    else match DecodeSpec(data, start + 1)
      case None => None
      case Some(d) => Some(Decoded(Payload(data[start]) + 0x80 * d.value, d.length + 1))
  }

  /** What a successful decode means: the bytes it consumed form one varint and the
      value is their base-128 reading; a failed decode means no terminator exists. */
  lemma {:induction false} DecodeSpecSound(data: seq<byte>, start: nat)
    ensures DecodeSpec(data, start).Some? ==>
      var d := DecodeSpec(data, start).value;
      IsVarintAt(data, start, d.length) && d.value == LEValue(data[start..start + d.length])
    ensures DecodeSpec(data, start).None? ==> NoTerminatorFrom(data, start)
    decreases |data| - start
  {
    if start < |data| {
      if HasMore(data[start]) {
        DecodeSpecSound(data, start + 1);
        match DecodeSpec(data, start + 1)
        case None =>
        case Some(d) =>
          assert data[start..start + d.length + 1][1..] == data[start + 1..start + 1 + d.length];
      } else {
        assert data[start..start + 1][1..] == [];
      }
    }
  }

  /** Conversely, a complete varint at `start` is what the decoder returns. */
  lemma {:induction false} DecodeSpecComplete(data: seq<byte>, start: nat, ln: nat)
    requires IsVarintAt(data, start, ln)
    ensures DecodeSpec(data, start) == Some(Decoded(LEValue(data[start..start + ln]), ln))
    decreases ln
  {
    if ln == 1 {
      assert data[start..start + 1][1..] == [];
    } else {
      DecodeSpecComplete(data, start + 1, ln - 1);
      assert data[start..start + ln][1..] == data[start + 1..start + 1 + (ln - 1)];
    }
  }

  /** The decoder fails exactly when no byte from `start` on has 0x80 clear. */
  lemma DecodeFailsIff(data: seq<byte>, start: nat)
    ensures DecodeSpec(data, start).None? <==> NoTerminatorFrom(data, start)
  {
    DecodeSpecSound(data, start);
  }

  /** A decoded value of `ln` bytes is below 2^(7*ln). */
  lemma DecodeBound(data: seq<byte>, start: nat)
    requires DecodeSpec(data, start).Some?
    ensures DecodeSpec(data, start).value.length >= 1
    ensures DecodeSpec(data, start).value.value < Pow2(7 * DecodeSpec(data, start).value.length)
  {
    DecodeSpecSound(data, start);
    var d := DecodeSpec(data, start).value;
    LEValueBound(data[start..start + d.length]);
  }

  /** The result depends only on the bytes it consumed: any buffer that agrees on
      data[start .. start+ln-1] decodes to the same pair at `start`, whatever comes
      before or after. */
  lemma {:induction false} DecodeLocal(data: seq<byte>, other: seq<byte>, start: nat, ln: nat)
    requires DecodeSpec(data, start).Some? && DecodeSpec(data, start).value.length == ln
    requires start + ln <= |data| && start + ln <= |other|
    requires other[start..start + ln] == data[start..start + ln]
    ensures DecodeSpec(other, start) == DecodeSpec(data, start)
    decreases ln
  {
    assert other[start] == other[start..start + ln][0] == data[start];
    if HasMore(data[start]) {
      assert other[start + 1..start + ln] == other[start..start + ln][1..];
      assert data[start + 1..start + ln] == data[start..start + ln][1..];
      DecodeLocal(data, other, start + 1, ln - 1);
    }
  }

  /** decode_varint: the `while True` loop that ORs payloads in at increasing shifts
      and raises IndexError when it runs off the end of the buffer. */
  method Decode(data: seq<byte>, start: nat) returns (r: Option<Decoded>)
    ensures r == DecodeSpec(data, start)
    ensures r.Some? ==>
      (IsVarintAt(data, start, r.value.length)
       && r.value.value == LEValue(data[start..start + r.value.length]))
    ensures r.None? <==> NoTerminatorFrom(data, start)
  {
    var value: nat := 0;
    var shift: nat := 0;
    var pos := start;
    while true
      invariant start <= pos
      invariant pos <= |data| || pos == start
      invariant shift == 7 * (pos - start)
      invariant forall k :: start <= k < pos ==> HasMore(data[k])
      invariant pos <= |data| ==> value == LEValue(data[start..pos])
      decreases |data| - pos
    {
      if pos >= |data| {
        // `data[pos]` raises IndexError
        DecodeFailsIff(data, start);
        return None;
      }
      var b := data[pos];
      assert value + Payload(b) * Pow2(shift) == LEValue(data[start..pos + 1]) by {
        assert data[start..pos + 1] == data[start..pos] + [b];
        LEValueAppend(data[start..pos], b);
      }
      value := value + Payload(b) * Pow2(shift);
      if !HasMore(b) {
        r := Some(Decoded(value, pos - start + 1));
        assert IsVarintAt(data, start, pos - start + 1);
        assert r == DecodeSpec(data, start) by {
          DecodeSpecComplete(data, start, pos - start + 1);
        }
        assert !NoTerminatorFrom(data, start) by {
          assert !HasMore(data[pos]);
        }
        return;
      }
      shift := shift + 7;
      pos := pos + 1;
    }
  }

  /** Reference definition of encode_varint: seven bits at a time, low bits first,
      0x80 on every byte but the last. */
  function EncodeSpec(n: nat): (r: seq<byte>)
    ensures IsVarintAt(r, 0, |r|)
    ensures n <= 0x7F ==> r == [n]
    decreases n
  {
    if n <= 0x7F then [n] else [n % 0x80 + 0x80] + EncodeSpec(n / 0x80)
  }

  /** The bytes of a minimal encoding: one byte, or a last byte that is not a bare
      zero continuation. */
  predicate IsMinimal(s: seq<byte>) {
    |s| == 1 || (|s| > 1 && s[|s| - 1] != 0)
  }

  /** Reading the encoding back gives the number. */
  lemma {:induction false} EncodeValue(n: nat)
    ensures LEValue(EncodeSpec(n)) == n
    decreases n
  {
    if n > 0x7F {
      EncodeValue(n / 0x80);
      assert EncodeSpec(n)[1..] == EncodeSpec(n / 0x80);
    }
  }

  /** The encoding is minimal, and its length is the least number of 7-bit groups
      that holds n: it depends only on the magnitude of n. */
  lemma {:induction false} EncodeLength(n: nat)
    ensures IsMinimal(EncodeSpec(n))
    ensures n < Pow2(7 * |EncodeSpec(n)|)
    ensures |EncodeSpec(n)| == 1 || Pow2(7 * (|EncodeSpec(n)| - 1)) <= n
    decreases n
  {
    var e := EncodeSpec(n);
    if n <= 0x7F {
      assert Pow2(7) == 0x80;
    } else {
      var t := EncodeSpec(n / 0x80);
      EncodeLength(n / 0x80);
      assert e == [n % 0x80 + 0x80] + t;
      assert e[|e| - 1] == t[|t| - 1];
      assert t[|t| - 1] != 0 by {
        if |t| == 1 { assert t == [n / 0x80]; }
      }
      Pow2Step(|t| - 1);
      Pow2Step(|t|);
      assert 7 * (|t| - 1) + 7 == 7 * |t|;
    }
  }

  /** Round trip, embedded: an encoding placed anywhere in a buffer decodes, at its
      first byte, to the number and the encoding's own length. */
  lemma EncodeRoundTripIn(pre: seq<byte>, n: nat, post: seq<byte>)
    ensures DecodeSpec(pre + EncodeSpec(n) + post, |pre|) == Some(Decoded(n, |EncodeSpec(n)|))
  {
    var e := EncodeSpec(n);
    var data := pre + e + post;
    assert data[|pre|..|pre| + |e|] == e;
    forall k | |pre| <= k < |pre| + |e| ensures data[k] == e[k - |pre|] { }
    assert IsVarintAt(data, |pre|, |e|);
    DecodeSpecComplete(data, |pre|, |e|);
    EncodeValue(n);
  }

  /** decode_varint(encode_varint(n), 0) == (n, len(encode_varint(n))). */
  lemma EncodeRoundTrip(n: nat)
    ensures DecodeSpec(EncodeSpec(n), 0) == Some(Decoded(n, |EncodeSpec(n)|))
  {
    EncodeRoundTripIn([], n, []);
    assert [] + EncodeSpec(n) + [] == EncodeSpec(n);
  }

  /** A varint whose last byte is not zero has a positive value. */
  lemma {:induction false} NonZeroLastPositive(s: seq<byte>)
    requires IsVarintAt(s, 0, |s|) && s[|s| - 1] != 0
    ensures LEValue(s) > 0
  {
    if |s| > 1 {
      assert IsVarintAt(s[1..], 0, |s| - 1);
      NonZeroLastPositive(s[1..]);
    } else {
      assert s[1..] == [];
    }
  }

  lemma {:induction false} Pow2Mono(a: nat, b: nat)
    requires a <= b
    ensures Pow2(a) <= Pow2(b)
  {
    Pow2Add(a, b - a);
  }

  /** Re-encoding a decoded value never takes more bytes than the field it was read
      from: the minimal encoding is at most as long as any encoding of the value. */
  lemma ReencodeNoLonger(data: seq<byte>, start: nat)
    requires DecodeSpec(data, start).Some?
    ensures |EncodeSpec(DecodeSpec(data, start).value.value)| <= DecodeSpec(data, start).value.length
  {
    var d := DecodeSpec(data, start).value;
    DecodeBound(data, start);
    EncodeLength(d.value);
    var e := EncodeSpec(d.value);
    if |e| > d.length {
      Pow2Mono(7 * d.length, 7 * (|e| - 1));
    }
  }

  /** The other round trip: a complete varint whose bytes are minimal is exactly
      the encoding of its value. */
  lemma {:induction false} DecodeEncode(s: seq<byte>)
    requires IsVarintAt(s, 0, |s|) && IsMinimal(s)
    ensures EncodeSpec(LEValue(s)) == s
  {
    if |s| > 1 {
      var rest := s[1..];
      assert IsVarintAt(rest, 0, |rest|);
      NonZeroLastPositive(rest);
      DecodeEncode(rest);
      var v := LEValue(s);
      assert v == Payload(s[0]) + 0x80 * LEValue(rest);
      assert v / 0x80 == LEValue(rest);
      assert v % 0x80 + 0x80 == s[0];
      assert s == [s[0]] + rest;
    }
  }

  /** encode_varint: append `(num & 0x7F) | 0x80` and shift right by 7 while the
      number needs more than seven bits, then append what is left. */
  method Encode(num: nat) returns (out: seq<byte>)
    ensures out == EncodeSpec(num)
  {
    out := [];
    var n := num;
    while n > 0x7F
      invariant out + EncodeSpec(n) == EncodeSpec(num)
      decreases n
    {
      var low := n % 0x80 + 0x80;
      assert EncodeSpec(n) == [low] + EncodeSpec(n / 0x80);
      assert out + EncodeSpec(n) == (out + [low]) + EncodeSpec(n / 0x80);
      out := out + [low];
      n := n / 0x80;
    }
    out := out + [n];
  }
}
