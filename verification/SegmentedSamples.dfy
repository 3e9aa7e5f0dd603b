/**
 Reading packed samples out of a payload that arrives in pieces
 (include/vita/codec/segmented_samples.hpp).
 */
module SegmentedSamples {
  import opened Core
  import opened SampleBits
  import opened SamplePacking

  /** A non-empty piece and the total extent up to its end. */
  datatype Segment = Segment(bytes: seq<Byte>, end: nat)

  datatype Reader = Reader(segments: seq<Segment>, spec: PackingSpec, shape: Shape)

  /** The pieces put together. */
  function Flat(pieces: seq<seq<Byte>>): seq<Byte> {
    if pieces == [] then [] else Flat(pieces[..|pieces| - 1]) + pieces[|pieces| - 1]
  }

  function Contents(segments: seq<Segment>): seq<Byte> {
    if segments == [] then [] else Contents(segments[..|segments| - 1]) + segments[|segments| - 1].bytes
  }

  ghost predicate Measured(segments: seq<Segment>) {
    forall i :: 0 <= i < |segments| ==> segments[i].end == |Contents(segments[..i + 1])|
  }

  /** The reader holds exactly the payload, and the payload has the extent of its shape. */
  ghost predicate Reads(reader: Reader, payload: seq<Byte>) {
    && Measured(reader.segments) && Contents(reader.segments) == payload && |payload| == reader.shape.bytes
    && ValidSpec(reader.spec)
    && forall i: nat :: i < reader.shape.items ==> Offset(reader.spec, i) + reader.spec.packingBits <= 8 * |payload|
  }

  lemma MeasuredAppend(segments: seq<Segment>, bytes: seq<Byte>)
    requires Measured(segments)
    ensures var grown := segments + [Segment(bytes, |Contents(segments)| + |bytes|)];
            Measured(grown) && Contents(grown) == Contents(segments) + bytes
  {
    var added := Segment(bytes, |Contents(segments)| + |bytes|);
    var grown := segments + [added];
    ContentsAppend(segments, added);
    hide Contents;
    forall i | 0 <= i < |grown|
      ensures grown[i].end == |Contents(grown[..i + 1])|
    {
      if i < |segments| {
        assert grown[..i + 1] == segments[..i + 1];
      } else {
        assert grown[..i + 1] == grown;
      }
    }
  }

  lemma ContentsAppend(segments: seq<Segment>, added: Segment)
    ensures Contents(segments + [added]) == Contents(segments) + added.bytes
  {
    assert (segments + [added])[..|segments|] == segments;
  }

  /** Gathers the pieces; empty ones are skipped. */
  method Create(pieces: seq<seq<Byte>>, maxSegments: nat, spec: PackingSpec, structures: nat, limits: Limits)
    returns (r: Result<Reader>)
    ensures |pieces| > maxSegments ==> r == Err(ResourceLimit)
    ensures |pieces| <= maxSegments && Measure(spec, structures, limits).Err? ==>
              r == Err(Measure(spec, structures, limits).error)
    ensures |pieces| <= maxSegments && Measure(spec, structures, limits).Ok? && |Flat(pieces)| <= U64_MAX ==>
              var bytes := Measure(spec, structures, limits).value.bytes;
              if |Flat(pieces)| < bytes then r == Err(ShortInput)
              else if |Flat(pieces)| > bytes then r == Err(InvalidArgument)
              else r.Ok?
    ensures r.Ok? ==> r.value.spec == spec && Measure(spec, structures, limits) == Ok(r.value.shape)
                      && Reads(r.value, Flat(pieces)) && |r.value.segments| <= maxSegments
  {
    hide Measure, Contents, Measured;
    if |pieces| > maxSegments {
      return Err(ResourceLimit);
    }
    var measured := Measure(spec, structures, limits);
    if measured.Err? {
      return Err(measured.error);
    }
    var segments: seq<Segment>, extent: nat := [], 0;
    NoSegments();
    for i := 0 to |pieces|
      invariant Measured(segments) && Contents(segments) == Flat(pieces[..i])
      invariant extent == |Flat(pieces[..i])| <= U64_MAX
      invariant |segments| <= i
    {
      assert pieces[..i + 1][..i] == pieces[..i];
      FlatGrows(pieces, i + 1);
      if pieces[i] == [] {
        continue;
      }
      if |pieces[i]| > U64_MAX - extent {
        return Err(Overflow);
      }
      MeasuredAppend(segments, pieces[i]);
      extent := extent + |pieces[i]|;
      segments := segments + [Segment(pieces[i], extent)];
    }
    assert pieces[..|pieces|] == pieces;
    if extent < measured.value.bytes {
      return Err(ShortInput);
    }
    if extent != measured.value.bytes {
      return Err(InvalidArgument);
    }
    MeasuredBytes(spec, structures, limits);
    forall i: nat | i < measured.value.items
      ensures Offset(spec, i) + spec.packingBits <= 8 * extent
    {
      PlaceInside(spec, structures, limits, i);
    }
    return Ok(Reader(segments, spec, measured.value));
  }

  lemma NoSegments()
    ensures Measured([]) && Contents([]) == []
  {
  }

  lemma {:induction false} FlatGrows(pieces: seq<seq<Byte>>, i: nat)
    requires i <= |pieces|
    ensures |Flat(pieces[..i])| <= |Flat(pieces)|
    decreases |pieces|
  {
    if i < |pieces| {
      var front := pieces[..|pieces| - 1];
      assert front[..i] == pieces[..i];
      FlatGrows(front, i);
    } else {
      assert pieces[..i] == pieces;
    }
  }

  lemma {:induction false} ContentsPrefix(segments: seq<Segment>, i: nat)
    requires i <= |segments|
    ensures |Contents(segments[..i])| <= |Contents(segments)|
    ensures Contents(segments)[..|Contents(segments[..i])|] == Contents(segments[..i])
    decreases |segments|
  {
    if i < |segments| {
      var front := segments[..|segments| - 1];
      assert front[..i] == segments[..i];
      ContentsPrefix(front, i);
    } else {
      assert segments[..i] == segments;
    }
  }

  /** Finds the byte at an offset of the whole payload. */
  method ByteAt(segments: seq<Segment>, offset: nat) returns (b: Byte)
    requires Measured(segments)
    ensures b == if offset < |Contents(segments)| then Contents(segments)[offset] else 0
  {
    var begin := 0;
    assert segments[..0] == [];
    for i := 0 to |segments|
      invariant begin == |Contents(segments[..i])| <= offset
    {
      if offset < segments[i].end {
        InSegment(segments, i, offset);
        return segments[i].bytes[offset - begin];
      }
      begin := segments[i].end;
    }
    assert segments[..|segments|] == segments;
    return 0;
  }

  lemma InSegment(segments: seq<Segment>, i: nat, offset: nat)
    requires Measured(segments) && i < |segments| && |Contents(segments[..i])| <= offset < segments[i].end
    ensures offset - |Contents(segments[..i])| < |segments[i].bytes| && offset < |Contents(segments)|
    ensures Contents(segments)[offset] == segments[i].bytes[offset - |Contents(segments[..i])|]
  {
    assert segments[..i + 1][..i] == segments[..i];
    ContentsPrefix(segments, i + 1);
    assert Contents(segments)[offset] == Contents(segments)[..|Contents(segments[..i + 1])|][offset];
  }

  /** Reads a bit field across piece boundaries. */
  method ReadAcross(segments: seq<Segment>, offset: nat, width: nat) returns (value: nat)
    requires Measured(segments) && offset + width <= 8 * |Contents(segments)|
    ensures value == ReadBits(Contents(segments), offset, width)
  {
    hide Contents, Measured;
    value := 0;
    for i := 0 to width
      invariant value == ReadBits(Contents(segments), offset, i)
    {
      var bit := offset + i;
      var b := ByteAt(segments, bit / 8);
      value := 2 * value + if BitOf(b, bit % 8) then 1 else 0;
    }
  }

  /** Any split of a payload reads the same as the payload in one piece. */
  method At(reader: Reader, ghost payload: seq<Byte>, index: nat) returns (r: Result<Item>)
    requires Reads(reader, payload)
    ensures r == if index < reader.shape.items then Ok(ItemAt(reader.spec, payload, index)) else Err(InvalidArgument)
  {
    hide Contents, Measured, ReadBits;
    if index >= reader.shape.items {
      return Err(InvalidArgument);
    }
    var p := reader.spec;
    var offset := Offset(p, index);
    var data := ReadAcross(reader.segments, offset, p.itemBits);
    var channelTag := ReadAcross(reader.segments, offset + p.packingBits - p.channelTagBits, p.channelTagBits);
    var eventTag := ReadAcross(reader.segments, offset + p.packingBits - p.channelTagBits - p.eventTagBits,
                               p.eventTagBits);
    ghost var item := ItemAt(p, payload, index);
    assert item.data == data && item.channelTag == channelTag && item.eventTag == eventTag;
    return Ok(Item(data, channelTag, eventTag));
  }
}
