/** The splice of apply_uid (BOT.py): the located varint field is cut out of the
    buffer and the encoding of the new UID is put in its place,
    `data[:start] + encode_varint(new_uid) + data[start+ln:]`. */
module SpliceEngine {
  import opened Wrappers
  import opened Varint
  import opened FieldLocator

  /** Python slices clamp an end beyond the buffer to its length. */
  function Clamp(i: nat, n: nat): (c: nat)
    ensures c <= n && (i <= n ==> c == i)
  {
    if i <= n then i else n
  }

  /** The new buffer: everything before `start`, the encoding of `newUid`, everything
      from `start + ln` on. Bytes outside the replaced span are kept as they were. */
  function Splice(data: seq<byte>, start: nat, ln: nat, newUid: nat): (r: seq<byte>)
    ensures start + ln <= |data| ==>
      && |r| == |data| - ln + |EncodeSpec(newUid)|
      && r[..start] == data[..start]
      && r[start..start + |EncodeSpec(newUid)|] == EncodeSpec(newUid)
      && r[start + |EncodeSpec(newUid)|..] == data[start + ln..]
    ensures start >= |data| ==> r == data + EncodeSpec(newUid)
  {
    data[..Clamp(start, |data|)] + EncodeSpec(newUid) + data[Clamp(start + ln, |data|)..]
  }

  /** Splicing the field the locator found: the start marker before it and the end
      marker after it are still in place, the new field decodes to the new value with
      the length of its minimal encoding, and every byte before the field and after it
      is the original byte (shifted by the change in length). */
  lemma SpliceLocated(data: seq<byte>, m: Match, newUid: nat)
    requires FindSpec(data) == Some(m)
    ensures var r := Splice(data, m.offset, m.length, newUid);
      var e := EncodeSpec(newUid);
      && |r| == |data| - m.length + |e|
      && r[m.offset - 1] == StartMarker
      && r[m.offset + |e|] == EndMarker
      && DecodeSpec(r, m.offset) == Some(Decoded(newUid, |e|))
      && (forall k :: 0 <= k < m.offset ==> r[k] == data[k])
      && (forall k :: m.offset + |e| <= k < |r| ==> r[k] == data[k - |e| + m.length])
  {
    SpliceSpan(data, m.offset, m.length, newUid);
  }

  /** Splicing any span that has a byte on each side keeps those two bytes next to
      the new encoding, which decodes to the new value. */
  lemma SpliceSpan(data: seq<byte>, off: nat, ln: nat, newUid: nat)
    requires 1 <= off && off + ln < |data|
    ensures var r := Splice(data, off, ln, newUid);
      var e := EncodeSpec(newUid);
      && |r| == |data| - ln + |e|
      && r[off - 1] == data[off - 1]
      && r[off + |e|] == data[off + ln]
      && DecodeSpec(r, off) == Some(Decoded(newUid, |e|))
      && (forall k :: 0 <= k < off ==> r[k] == data[k])
      && (forall k :: off + |e| <= k < |r| ==> r[k] == data[k - |e| + ln])
  {
    SpliceKeepsOutside(data, off, ln, newUid);
    var r := Splice(data, off, ln, newUid);
    var e := EncodeSpec(newUid);
    assert DecodeSpec(r, off) == Some(Decoded(newUid, |e|)) by {
      var pre, post := data[..off], data[off + ln..];
      assert |pre| == off && r == pre + e + post;
      EncodeRoundTripIn(pre, newUid, post);
    }
  }

  /** Every byte outside the replaced span is the original byte, shifted by the
      change in length after the span. */
  lemma SpliceKeepsOutside(data: seq<byte>, off: nat, ln: nat, newUid: nat)
    requires off + ln <= |data|
    ensures var r := Splice(data, off, ln, newUid);
      var e := EncodeSpec(newUid);
      && |r| == |data| - ln + |e|
      && (forall k :: 0 <= k < off ==> r[k] == data[k])
      && (forall k :: off + |e| <= k < |r| ==> r[k] == data[k - |e| + ln])
  {
    var e := EncodeSpec(newUid);
    assert Splice(data, off, ln, newUid) == data[..off] + e + data[off + ln..] by {
      assert Clamp(off, |data|) == off && Clamp(off + ln, |data|) == off + ln;
    }
    ReplaceKeepsOutside(data, off, ln, e);
  }

  /** Replacing the span `off .. off+ln-1` of a buffer by any bytes keeps the bytes
      before it and moves the bytes after it by the change in length. */
  lemma ReplaceKeepsOutside(data: seq<byte>, off: nat, ln: nat, e: seq<byte>)
    requires off + ln <= |data|
    ensures var r := data[..off] + e + data[off + ln..];
      && |r| == |data| - ln + |e|
      && (forall k :: 0 <= k < off ==> r[k] == data[k])
      && (forall k :: off + |e| <= k < |r| ==> r[k] == data[k - |e| + ln])
  {
  }

  /** Splicing the located field with its own value gives back the original buffer
      exactly when the field's bytes are the minimal encoding of that value. */
  lemma SpliceSameValue(data: seq<byte>, m: Match)
    requires FindSpec(data) == Some(m)
    ensures Splice(data, m.offset, m.length, m.value) == data
      <==> IsMinimal(data[m.offset..m.offset + m.length])
  {
    SpliceOwnValue(data, m.offset, m.length, m.value);
  }

  lemma SpliceOwnValue(data: seq<byte>, off: nat, ln: nat, v: nat)
    requires DecodeSpec(data, off) == Some(Decoded(v, ln))
    ensures off + ln <= |data|
    ensures Splice(data, off, ln, v) == data <==> IsMinimal(data[off..off + ln])
  {
    DecodeSpecSound(data, off);
    var pre, field, post := data[..off], data[off..off + ln], data[off + ln..];
    assert data == pre + field + post;
    VarintSlice(data, off, ln);
    var e := EncodeSpec(v);
    var r := Splice(data, off, ln, v);
    assert r == pre + e + post;
    if IsMinimal(field) {
      DecodeEncode(field);
    }
    if r == data {
      assert e == r[off..off + |e|];
      EncodeLength(v);
    }
  }

  /** Splicing the located field with its own value never makes the buffer longer. */
  lemma SpliceSameValueNoLonger(data: seq<byte>, m: Match)
    requires FindSpec(data) == Some(m)
    ensures |Splice(data, m.offset, m.length, m.value)| <= |data|
  {
    ReencodeNoLonger(data, m.offset);
  }

  /** A second splice over the field written by a first one undoes the first: only
      the last value written is left in the buffer. apply_uid never stores the
      buffer it produced and splices the original again on every edit; this lemma
      says that doing so gives the same bytes as editing the edited buffer. */
  lemma SpliceOverwrite(data: seq<byte>, start: nat, ln: nat, v: nat, w: nat)
    requires start + ln <= |data|
    ensures Splice(Splice(data, start, ln, v), start, |EncodeSpec(v)|, w) == Splice(data, start, ln, w)
  {
    var once := Splice(data, start, ln, v);
    var e := EncodeSpec(v);
    assert once[..start] == data[..start];
    assert once[start + |e|..] == data[start + ln..];
  }

  /** Clearing the UID (the "clear" button passes 0) writes the single byte 0x00. */
  lemma SpliceClear(data: seq<byte>, start: nat, ln: nat)
    requires start + ln <= |data|
    ensures Splice(data, start, ln, 0) == data[..start] + [0x00] + data[start + ln..]
    ensures |Splice(data, start, ln, 0)| == |data| - ln + 1
  {
    assert EncodeSpec(0) == [0x00];
  }

  /** A field stored in a non-minimal form (an extra 0x80 continuation and a zero
      byte) is located, but splicing its own value back shortens the buffer. */
  lemma NonMinimalSelfSpliceShortens()
    ensures var data: seq<byte> := [0x38, 0xE5, 0xB6, 0xA6, 0x00, 0x42, 0x00, 0x00, 0x00];
      && FindSpec(data) == Some(Match(1, 4, 629605))
      && Splice(data, 1, 4, 629605) == [0x38, 0xE5, 0xB6, 0x26, 0x42, 0x00, 0x00, 0x00]
  {
  }

  /** A length-changing edit: the three-byte UID 629605 (E5 B6 26) replaced by 5
      leaves a buffer two bytes shorter with every other byte unchanged. */
  lemma ShrinkingEdit()
    ensures var data: seq<byte> := [0x38, 0xE5, 0xB6, 0x26, 0x42, 0x10, 0x20];
      && FindSpec(data) == Some(Match(1, 3, 629605))
      && Splice(data, 1, 3, 5) == [0x38, 0x05, 0x42, 0x10, 0x20]
  {
  }
}
