/** The Matroska duration extractor: the walk from the EBML header through
    the Segment to its Info element, where TimestampScale (the code's
    `TimecodeScale`) and Duration live (RFC 9559, section 5.1). The walk is
    specified by the functions below, and method GetMkvMetadata runs it
    with the nested loops of the Rust code over a Reader. */
module Mkv {
  import opened Wrappers
  import opened Ebml
  import opened EbmlReader

  const EBML_HEADER_ID: nat := 0x1A45DFA3
  const SEGMENT_ID: nat := 0x18538067
  const INFO_ID: nat := 0x1549A966
  const DURATION_ID: nat := 0x4489
  const TIMECODE_SCALE_ID: nat := 0x2AD7B1

  /** What `bytes_to_f64` makes of a payload, kept as the IEEE-754 bit
      pattern it reinterprets: single precision for 4 bytes, double for 8,
      and 0.0 for any other length. */
  datatype FloatValue = Single(bits: nat) | Double(bits: nat) | Zero

  function BytesToF64(s: seq<Byte>): (r: FloatValue)
    ensures r.Single? <==> |s| == 4
    ensures r.Double? <==> |s| == 8
    ensures r.Single? ==> r.bits == BytesToU64(s) < Pow256(4)
    ensures r.Double? ==> r.bits == BytesToU64(s) < Pow256(8)
  {
    if |s| == 4 then
      BytesToU64IsBeValue(s);
      Single(BeValue(s))
    else if |s| == 8 then
      BytesToU64IsBeValue(s);
      Double(BeValue(s))
    else Zero
  }

  /** The record an extraction returns. The derived seconds, a float
      product, are not part of the model. */
  datatype MkvMetadata = MkvMetadata(timecodeScale: nat, duration: FloatValue)

  /** The two `Option` variables of the walk. */
  datatype Found = Found(scale: Option<nat>, duration: Option<FloatValue>) {
    predicate Complete() {
      scale.Some? && duration.Some?
    }
  }

  /** The reader position and the values found so far. */
  datatype ScanState = ScanState(pos: nat, found: Found)

  /** What a TimecodeScale or Duration child with payload `bytes` sets;
      any other child leaves the values as they are. */
  function InfoValue(id: nat, bytes: seq<Byte>, found: Found): Found
  {
    if id == TIMECODE_SCALE_ID then found.(scale := Some(BytesToU64(bytes)))
    else if id == DURATION_ID then found.(duration := Some(BytesToF64(bytes)))
    else found
  }

  /** Each of the two children sets its own value and leaves the other one;
      any other child changes nothing. */
  lemma {:induction false} InfoValueSets(id: nat, bytes: seq<Byte>, found: Found)
    ensures id == TIMECODE_SCALE_ID ==> InfoValue(id, bytes, found) == Found(Some(BytesToU64(bytes)), found.duration)
    ensures id == DURATION_ID ==> InfoValue(id, bytes, found) == Found(found.scale, Some(BytesToF64(bytes)))
    ensures id != TIMECODE_SCALE_ID && id != DURATION_ID ==> InfoValue(id, bytes, found) == found
  {
  }

  /** Handles the child of an Info element that starts at `pos`:
      TimecodeScale and Duration are read (at most 8 bytes), anything else
      is skipped by its declared size. */
  function InfoStep(data: seq<Byte>, pos: nat, found: Found): (r: Result<ScanState, MkvError>)
    ensures r.Ok? ==> r.value.pos >= pos + 2
  {
    match IdAt(data, pos)
    case Err(e) => Err(e)
    case Ok(id) =>
      match VintAt(data, id.next)
      case Err(e) => Err(e)
      case Ok(size) =>
        var body := size.next;
        if id.value == TIMECODE_SCALE_ID || id.value == DURATION_ID then
          if size.value > 8 then Err(FieldTooLarge(size.value))
          else
            match ReadAt(data, body, size.value)
            case Err(e) => Err(e)
            case Ok(bytes) => Ok(ScanState(body + size.value, InfoValue(id.value, bytes, found)))
        else Ok(ScanState(body + size.value, found))
  }

  /** A TimecodeScale or Duration child declaring more than 8 bytes is an
      error, whatever bytes follow: the Rust code panics there. */
  lemma {:induction false} InfoStepTooLarge(data: seq<Byte>, pos: nat, found: Found, id: Decoded, size: Decoded)
    requires IdAt(data, pos) == Ok(id) && (id.value == TIMECODE_SCALE_ID || id.value == DURATION_ID)
    requires VintAt(data, id.next) == Ok(size) && size.value > 8
    ensures InfoStep(data, pos, found) == Err(FieldTooLarge(size.value))
  {
  }

  /** The inner loop: children of an Info element until its end or until
      both values are known. */
  function ScanInfo(data: seq<Byte>, pos: nat, end: nat, found: Found): (r: Result<ScanState, MkvError>)
    decreases end - pos
    ensures r.Ok? ==> r.value.pos >= pos
  {
    if pos >= end then Ok(ScanState(pos, found))
    else
      match InfoStep(data, pos, found)
      case Err(e) => Err(e)
      case Ok(st) =>
        if st.found.Complete() then Ok(st) else ScanInfo(data, st.pos, end, st.found)
  }

  /** Handles the child of the Segment that starts at `pos`: an Info
      element is scanned, anything else is skipped by its declared size. */
  function SegmentStep(data: seq<Byte>, pos: nat, found: Found): (r: Result<ScanState, MkvError>)
    ensures r.Ok? ==> r.value.pos >= pos + 2
  {
    match IdAt(data, pos)
    case Err(e) => Err(e)
    case Ok(id) =>
      match VintAt(data, id.next)
      case Err(e) => Err(e)
      case Ok(size) =>
        var body := size.next;
        if id.value == INFO_ID then ScanInfo(data, body, body + size.value, found)
        else Ok(ScanState(body + size.value, found))
  }

  /** The outer loop: children of the Segment until its end or until both
      values are known. */
  function ScanSegment(data: seq<Byte>, pos: nat, end: nat, found: Found): (r: Result<ScanState, MkvError>)
    decreases end - pos
    ensures r.Ok? ==> r.value.pos >= pos
  {
    if pos >= end then Ok(ScanState(pos, found))
    else
      match SegmentStep(data, pos, found)
      case Err(e) => Err(e)
      case Ok(st) =>
        if st.found.Complete() then Ok(st) else ScanSegment(data, st.pos, end, st.found)
  }

  /** The end of the walk: a record only when both values were found. */
  function Finish(found: Found): (r: Result<MkvMetadata, MkvError>)
    ensures r.Ok? <==> found.Complete()
    ensures r.Ok? ==> found == Found(Some(r.value.timecodeScale), Some(r.value.duration))
    ensures r == Err(MissingTimecodeScale) <==> found.scale.None?
    ensures r == Err(MissingDuration) <==> found.scale.Some? && found.duration.None?
  {
    if found.scale.None? then Err(MissingTimecodeScale)
    else if found.duration.None? then Err(MissingDuration)
    else Ok(MkvMetadata(found.scale.value, found.duration.value))
  }

  /** Where the Segment's children start and end. */
  datatype Span = Span(start: nat, end: nat)

  /** The checks before the Segment scan: the magic number, the skip over
      the EBML header, the Segment's ID and size. */
  function SegmentSpan(data: seq<Byte>): (r: Result<Span, MkvError>)
    ensures r.Ok? ==> 4 < r.value.start <= r.value.end
  {
    match ReadAt(data, 0, 4)
    case Err(e) => Err(e)
    case Ok(header) =>
      if BytesToU64(header) != EBML_HEADER_ID then Err(InvalidMkvFile)
      else
        match VintAt(data, 4)
        case Err(e) => Err(e)
        case Ok(headerSize) =>
          match IdAt(data, headerSize.next + headerSize.value)
          case Err(e) => Err(e)
          case Ok(segmentId) =>
            if segmentId.value != SEGMENT_ID then Err(InvalidSegment)
            else
              match VintAt(data, segmentId.next)
              case Err(e) => Err(e)
              case Ok(segmentSize) => Ok(Span(segmentSize.next, segmentSize.next + segmentSize.value))
  }

  /** What the extraction returns for a file with these bytes. */
  function MetadataOf(data: seq<Byte>): (r: Result<MkvMetadata, MkvError>)
    ensures r.Ok? ==> |data| >= 4 && BytesToU64(data[..4]) == EBML_HEADER_ID
    ensures r.Ok? ==> SegmentSpan(data).Ok?
  {
    match SegmentSpan(data)
    case Err(e) => Err(e)
    case Ok(span) =>
      match ScanSegment(data, span.start, span.end, Found(None, None))
      case Err(e) => Err(e)
      case Ok(st) => Finish(st.found)
  }

  /** A step result `s` of the specification and what a method returned:
      the same error, or the same values with the reader where `s` ends. */
  predicate Agrees(s: Result<ScanState, MkvError>, r: Result<Found, MkvError>, pos: nat)
  {
    match s
    case Ok(st) => r == Ok(st.found) && pos == st.pos
    case Err(e) => r == Err(e)
  }

  /** One pass of the inner loop of `get_mkv_metadata`: reads the header of
      an Info child and then its value or skips it. */
  method ReadInfoChild(reader: Reader, found: Found) returns (r: Result<Found, MkvError>)
    modifies reader
    ensures Agrees(InfoStep(reader.data, old(reader.pos), found), r, reader.pos)
  {
    var infoElementId :- reader.ReadElementId();
    var infoElementSize :- reader.ReadVint();
    if infoElementId == TIMECODE_SCALE_ID {
      if infoElementSize > 8 {
        return Err(FieldTooLarge(infoElementSize));
      }
      var buffer :- reader.ReadExact(infoElementSize);
      r := Ok(InfoValue(TIMECODE_SCALE_ID, buffer, found));
    } else if infoElementId == DURATION_ID {
      if infoElementSize > 8 {
        return Err(FieldTooLarge(infoElementSize));
      }
      var buffer :- reader.ReadExact(infoElementSize);
      r := Ok(InfoValue(DURATION_ID, buffer, found));
    } else {
      reader.Seek(infoElementSize);
      r := Ok(found);
    }
  }

  /** The inner loop of `get_mkv_metadata`: the children of an Info element
      up to `infoEnd`, stopping once both values are known. */
  method ScanInfoElement(reader: Reader, infoEnd: nat, found: Found) returns (r: Result<Found, MkvError>)
    modifies reader
    ensures Agrees(ScanInfo(reader.data, old(reader.pos), infoEnd, found), r, reader.pos)
  {
    ghost var outcome := ScanInfo(reader.data, reader.pos, infoEnd, found);
    var current := found;
    while reader.pos < infoEnd
      invariant outcome == ScanInfo(reader.data, reader.pos, infoEnd, current)
      decreases infoEnd - reader.pos
    {
      ghost var start := reader.pos;
      var next :- ReadInfoChild(reader, current);
      assert InfoStep(reader.data, start, current) == Ok(ScanState(reader.pos, next));
      current := next;
      if current.Complete() {
        return Ok(current);
      }
    }
    r := Ok(current);
  }

  /** One pass of the outer loop of `get_mkv_metadata`: an Info element is
      scanned, any other child of the Segment is skipped. */
  method ReadSegmentChild(reader: Reader, found: Found) returns (r: Result<Found, MkvError>)
    modifies reader
    ensures Agrees(SegmentStep(reader.data, old(reader.pos), found), r, reader.pos)
  {
    var elementId :- reader.ReadElementId();
    var elementSize :- reader.ReadVint();
    if elementId == INFO_ID {
      var infoEnd := reader.pos + elementSize;
      r := ScanInfoElement(reader, infoEnd, found);
    } else {
      reader.Seek(elementSize);
      r := Ok(found);
    }
  }

  /** The checks before the Segment scan: the magic number, the skip over
      the EBML header, the Segment's ID and size, read from the start of the
      file; on success the reader is at the Segment's first child. */
  method ReadSegmentSpan(reader: Reader) returns (r: Result<Span, MkvError>)
    requires reader.pos == 0
    modifies reader
    ensures r == SegmentSpan(reader.data)
    ensures r.Ok? ==> reader.pos == r.value.start
  {
    var header :- reader.ReadExact(4);
    if BytesToU64(header) != EBML_HEADER_ID {
      return Err(InvalidMkvFile);
    }
    var ebmlHeaderSize :- reader.ReadVint();
    reader.Seek(ebmlHeaderSize);
    var segmentId :- reader.ReadElementId();
    if segmentId != SEGMENT_ID {
      return Err(InvalidSegment);
    }
    var segmentSize :- reader.ReadVint();
    r := Ok(Span(reader.pos, reader.pos + segmentSize));
  }

  /** `get_mkv_metadata` on a file whose contents are `data`. */
  method GetMkvMetadata(data: seq<Byte>) returns (res: Result<MkvMetadata, MkvError>)
    ensures res == MetadataOf(data)
  {
    var reader := new Reader(data);
    var span :- ReadSegmentSpan(reader);
    var segmentEnd := span.end;
    ghost var outcome := ScanSegment(data, reader.pos, segmentEnd, Found(None, None));
    var found := Found(None, None);
    while reader.pos < segmentEnd
      invariant reader.data == data
      invariant outcome == ScanSegment(data, reader.pos, segmentEnd, found)
      decreases segmentEnd - reader.pos
    {
      ghost var start := reader.pos;
      var next :- ReadSegmentChild(reader, found);
      assert SegmentStep(data, start, found) == Ok(ScanState(reader.pos, next));
      found := next;
      if found.Complete() {
        break;
      }
    }
    assert outcome == Ok(ScanState(reader.pos, found));
    if found.scale.None? {
      return Err(MissingTimecodeScale);
    }
    if found.duration.None? {
      return Err(MissingDuration);
    }
    res := Ok(MkvMetadata(found.scale.value, found.duration.value));
  }
}
