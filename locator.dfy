/** The field locator of BOT.py (find_uid): a left-to-right scan for a start marker
    0x38, a varint right after it, and an end marker 0x42 right after the varint,
    with the acceptance filter `length >= 3 and value > 100000`. */
module FieldLocator {
  import opened Wrappers
  import opened Varint

  const StartMarker: byte := 0x38
  const EndMarker: byte := 0x42
  /** The filter of find_uid: accept only `length >= MinLength and value > MinValue`. */
  const MinLength: nat := 3
  const MinValue: nat := 100000
  /** find_uid tries the marker indices `range(len(data) - 6)`. */
  const TailSkipped: nat := 6

  /** A located field: offset of the first varint byte, its byte length, its value. */
  datatype Match = Match(offset: nat, length: nat, value: nat)

  /** The marker index `i` is one the scan tries; every such index is a valid index
      of the buffer, so `data[i]` never raises. */
  predicate InScanRange(data: seq<byte>, i: nat): (r: bool)
    ensures r ==> i < |data|
  {
    i < |data| - TailSkipped
  }

  /** The per-candidate outcome at marker index `i`: the match it yields, or None when
      the byte is not a start marker, the decode runs off the buffer, the end-marker
      read is out of range, the end marker is missing, or the filter rejects it. */
  function Candidate(data: seq<byte>, i: nat): (r: Option<Match>)
    ensures r.Some? ==>
      && i < |data| && data[i] == StartMarker
      && r.value.offset == i + 1
      && DecodeSpec(data, i + 1) == Some(Decoded(r.value.value, r.value.length))
      && r.value.offset + r.value.length < |data|
      && data[r.value.offset + r.value.length] == EndMarker
      && r.value.length >= MinLength && r.value.value > MinValue
    ensures r.None? && i < |data| && data[i] == StartMarker && DecodeSpec(data, i + 1).Some? ==>
      var d := DecodeSpec(data, i + 1).value;
      || i + 1 + d.length >= |data|
      || data[i + 1 + d.length] != EndMarker
      || d.length < MinLength || d.value <= MinValue
  {
    if i >= |data| || data[i] != StartMarker then None
    else match DecodeSpec(data, i + 1)
      case None => None
      case Some(d) =>
        var end := i + 1 + d.length;
        if end < |data| && data[end] == EndMarker && d.length >= MinLength && d.value > MinValue
        then Some(Match(i + 1, d.length, d.value))
        else None
  }

  /** Reference definition of the scan from marker index `i` on: the candidate at the
      smallest index from `i` on in the scan range, and None exactly when there is none. */
  function FindFrom(data: seq<byte>, i: nat): (r: Option<Match>)
    ensures r.Some? ==>
      && i + 1 <= r.value.offset && InScanRange(data, r.value.offset - 1)
      && Candidate(data, r.value.offset - 1) == r
      && forall j :: i <= j < r.value.offset - 1 ==> Candidate(data, j).None?
    ensures r.None? <==> forall j :: i <= j && InScanRange(data, j) ==> Candidate(data, j).None?
    decreases |data| - i
  {
    if !InScanRange(data, i) then None
    else if Candidate(data, i).Some? then Candidate(data, i)
    else FindFrom(data, i + 1)
  }

  /** find_uid's result: the located field satisfies every check of the scan, it
      comes from the first qualifying marker index, and the result is None exactly
      when no index in the scan range qualifies; buffers of at most six bytes never
      yield a field. */
  function FindSpec(data: seq<byte>): (r: Option<Match>)
    ensures r.Some? ==>
      && 1 <= r.value.offset && InScanRange(data, r.value.offset - 1)
      && data[r.value.offset - 1] == StartMarker
      && DecodeSpec(data, r.value.offset) == Some(Decoded(r.value.value, r.value.length))
      && r.value.offset + r.value.length < |data| && data[r.value.offset + r.value.length] == EndMarker
      && r.value.length >= MinLength && r.value.value > MinValue
      && forall j :: 0 <= j < r.value.offset - 1 ==> Candidate(data, j).None?
    ensures r.None? <==> forall j :: InScanRange(data, j) ==> Candidate(data, j).None?
    ensures |data| <= TailSkipped ==> r.None?
  {
    FindFrom(data, 0)
  }

  /** The `ln >= 3` test is implied by `value > 100000`: two bytes carry at most 14
      bits, and 2^14 = 16384. */
  lemma LengthFilterImplied(data: seq<byte>, start: nat)
    requires DecodeSpec(data, start).Some?
    requires DecodeSpec(data, start).value.value > MinValue
    ensures DecodeSpec(data, start).value.length >= MinLength
  {
    DecodeBound(data, start);
    assert Pow2(7) == 0x80 && Pow2(14) == 16384;
  }

  /** The `try` block of find_uid at marker index `i`. A decode that runs off the
      end or an end-marker index out of range (Python's IndexError, swallowed by the
      bare `except`) yields None, as does a failed test. */
  method TryCandidate(data: seq<byte>, i: nat) returns (r: Option<Match>)
    requires i < |data|
    ensures r == Candidate(data, i)
  {
    if data[i] != StartMarker {
      return None;
    }
    var dec := Decode(data, i + 1);
    if dec.None? {
      return None;
    }
    var val, ln := dec.value.value, dec.value.length;
    var end := i + 1 + ln;
    if end >= |data| {
      return None;
    }
    if data[end] == EndMarker && ln >= MinLength && val > MinValue {
      return Some(Match(i + 1, ln, val));
    }
    return None;
  }

  /** find_uid: the `for` loop over the marker indices `range(len(data) - 6)`,
      returning the first accepted candidate; a rejected candidate does not stop
      the scan. */
  method Find(data: seq<byte>) returns (r: Option<Match>)
    ensures r == FindSpec(data)
  {
    var i: nat := 0;
    while i < |data| - TailSkipped
      invariant FindFrom(data, i) == FindFrom(data, 0)
      decreases |data| - i
    {
      var c := TryCandidate(data, i);
      if c.Some? {
        return c;
      }
      i := i + 1;
    }
    return None;
  }

  /** The scan never tries the last six marker indices: a well-formed field whose
      start marker sits there is not found. */
  lemma TailFieldNotFound()
    ensures var data: seq<byte> := [0x38, 0xE5, 0xB6, 0x26, 0x42, 0x00];
      && Candidate(data, 0) == Some(Match(1, 3, 629605))
      && FindSpec(data) == None
  {
  }
}
