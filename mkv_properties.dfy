/** Properties of the extraction: what each check of the walk rejects, that
    an answer other than end-of-file never depends on the bytes after the
    ones read, and, over files laid out as in module MkvLayout, how the
    values of several children and several Info elements combine. */
module MkvProperties {
  import opened Wrappers
  import opened Ebml
  import opened EbmlEncoding
  import opened Mkv
  import opened MkvLayout

  // The checks before the Segment scan.

  /** Fewer than four bytes cannot hold the magic number. */
  lemma {:induction false} ShortInputIsEof(data: seq<Byte>)
    requires |data| < 4
    ensures MetadataOf(data) == Err(UnexpectedEof)
  {
  }

  /** The first four bytes must read as the EBML magic number; when they
      do not, nothing after them is looked at. */
  lemma {:induction false} WrongMagicIsInvalid(data: seq<Byte>)
    requires |data| >= 4 && BytesToU64(data[..4]) != EBML_HEADER_ID
    ensures MetadataOf(data) == Err(InvalidMkvFile)
  {
    assert ReadAt(data, 0, 4) == Ok(data[..4]);
  }

  /** Conversely, every answer other than end-of-file and `InvalidMkvFile`
      comes from a file that starts with the magic number. */
  lemma {:induction false} AnswerNeedsMagic(data: seq<Byte>)
    requires MetadataOf(data) != Err(UnexpectedEof) && MetadataOf(data) != Err(InvalidMkvFile)
    ensures |data| >= 4 && BytesToU64(data[..4]) == EBML_HEADER_ID
  {
    if |data| < 4 {
      ShortInputIsEof(data);
    } else if BytesToU64(data[..4]) != EBML_HEADER_ID {
      WrongMagicIsInvalid(data);
    }
  }

  /** The element after the EBML header must be a Segment. */
  lemma {:induction false} WrongSegmentIsInvalid(data: seq<Byte>, header: Decoded, segmentId: Decoded)
    requires |data| >= 4 && BytesToU64(data[..4]) == EBML_HEADER_ID
    requires VintAt(data, 4) == Ok(header)
    requires IdAt(data, header.next + header.value) == Ok(segmentId) && segmentId.value != SEGMENT_ID
    ensures MetadataOf(data) == Err(InvalidSegment)
  {
    assert ReadAt(data, 0, 4) == Ok(data[..4]);
  }

  // Bytes past the ones read.

  lemma {:induction false} BeFoldExtends(acc: nat, data: seq<Byte>, extra: seq<Byte>, from: nat, to: nat)
    requires from <= to <= |data|
    decreases |data| - from
    ensures BeFold(acc, data + extra, from, to) == BeFold(acc, data, from, to)
  {
    if from < to {
      assert (data + extra)[from] == data[from];
      BeFoldExtends(acc * 256 + data[from], data, extra, from + 1, to);
    }
  }

  /** A read that does not run out of bytes reads the same from any
      longer input. */
  lemma {:induction false} IdAtExtends(data: seq<Byte>, extra: seq<Byte>, pos: nat)
    requires IdAt(data, pos) != Err(UnexpectedEof)
    ensures IdAt(data + extra, pos) == IdAt(data, pos)
  {
    assert (data + extra)[pos] == data[pos];
    var len := IdLength(data[pos]);
    if len != 0 {
      BeFoldExtends(data[pos], data, extra, pos + 1, pos + len);
    }
  }

  lemma {:induction false} VintAtExtends(data: seq<Byte>, extra: seq<Byte>, pos: nat)
    requires VintAt(data, pos) != Err(UnexpectedEof)
    ensures VintAt(data + extra, pos) == VintAt(data, pos)
  {
    assert (data + extra)[pos] == data[pos];
    var first := data[pos];
    var len := VintLength(first);
    if len != 0 {
      BeFoldExtends(first - VintMarker(first), data, extra, pos + 1, pos + len);
    }
  }

  lemma {:induction false} ReadAtExtends(data: seq<Byte>, extra: seq<Byte>, pos: nat, n: nat)
    requires ReadAt(data, pos, n).Ok?
    ensures ReadAt(data + extra, pos, n) == ReadAt(data, pos, n)
  {
    if n != 0 {
      assert (data + extra)[pos..pos + n] == data[pos..pos + n];
    }
  }

  lemma {:induction false} InfoStepExtends(data: seq<Byte>, extra: seq<Byte>, pos: nat, found: Found)
    requires InfoStep(data, pos, found) != Err(UnexpectedEof)
    ensures InfoStep(data + extra, pos, found) == InfoStep(data, pos, found)
  {
    IdAtExtends(data, extra, pos);
    var id := IdAt(data, pos);
    if id.Ok? {
      VintAtExtends(data, extra, id.value.next);
      var size := VintAt(data, id.value.next);
      if size.Ok? && (id.value.value == TIMECODE_SCALE_ID || id.value.value == DURATION_ID) && size.value.value <= 8 {
        ReadAtExtends(data, extra, size.value.next, size.value.value);
      }
    }
  }

  lemma {:induction false} ScanInfoExtends(data: seq<Byte>, extra: seq<Byte>, pos: nat, end: nat, found: Found)
    requires ScanInfo(data, pos, end, found) != Err(UnexpectedEof)
    decreases end - pos
    ensures ScanInfo(data + extra, pos, end, found) == ScanInfo(data, pos, end, found)
  {
    if pos < end {
      var step := InfoStep(data, pos, found);
      InfoStepExtends(data, extra, pos, found);
      if step.Ok? && !step.value.found.Complete() {
        ScanInfoExtends(data, extra, step.value.pos, end, step.value.found);
      }
    }
  }

  lemma {:induction false} SegmentStepExtends(data: seq<Byte>, extra: seq<Byte>, pos: nat, found: Found)
    requires SegmentStep(data, pos, found) != Err(UnexpectedEof)
    ensures SegmentStep(data + extra, pos, found) == SegmentStep(data, pos, found)
  {
    IdAtExtends(data, extra, pos);
    var id := IdAt(data, pos);
    if id.Ok? {
      VintAtExtends(data, extra, id.value.next);
      var size := VintAt(data, id.value.next);
      if size.Ok? && id.value.value == INFO_ID {
        ScanInfoExtends(data, extra, size.value.next, size.value.next + size.value.value, found);
      }
    }
  }

  lemma {:induction false} ScanSegmentExtends(data: seq<Byte>, extra: seq<Byte>, pos: nat, end: nat, found: Found)
    requires ScanSegment(data, pos, end, found) != Err(UnexpectedEof)
    decreases end - pos
    ensures ScanSegment(data + extra, pos, end, found) == ScanSegment(data, pos, end, found)
  {
    if pos < end {
      var step := SegmentStep(data, pos, found);
      SegmentStepExtends(data, extra, pos, found);
      if step.Ok? && !step.value.found.Complete() {
        ScanSegmentExtends(data, extra, step.value.pos, end, step.value.found);
      }
    }
  }

  lemma {:induction false} SegmentSpanExtends(data: seq<Byte>, extra: seq<Byte>)
    requires SegmentSpan(data) != Err(UnexpectedEof)
    ensures SegmentSpan(data + extra) == SegmentSpan(data)
  {
    ReadAtExtends(data, extra, 0, 4);
    if BytesToU64(data[..4]) == EBML_HEADER_ID {
      VintAtExtends(data, extra, 4);
      var header := VintAt(data, 4);
      if header.Ok? {
        var segmentPos := header.value.next + header.value.value;
        IdAtExtends(data, extra, segmentPos);
        var segmentId := IdAt(data, segmentPos);
        if segmentId.Ok? && segmentId.value.value == SEGMENT_ID {
          VintAtExtends(data, extra, segmentId.value.next);
        }
      }
    }
  }

  /** The walk reads forward only as far as it needs: any answer but
      end-of-file, a record or an error, stays the same whatever bytes
      follow. */
  lemma {:induction false} AnswerIgnoresTrailingBytes(data: seq<Byte>, extra: seq<Byte>)
    requires MetadataOf(data) != Err(UnexpectedEof)
    ensures MetadataOf(data + extra) == MetadataOf(data)
  {
    SegmentSpanExtends(data, extra);
    var span := SegmentSpan(data);
    if span.Ok? {
      ScanSegmentExtends(data, extra, span.value.start, span.value.end, Found(None, None));
    }
  }

  // Where the scans stop.

  /** A value once found is never lost. */
  predicate Keeps(before: Found, after: Found)
  {
    && (before.scale.Some? ==> after.scale.Some?)
    && (before.duration.Some? ==> after.duration.Some?)
  }

  /** The Info scan ends at or past the end of the Info element unless both
      values are known, and keeps the values it started with. */
  lemma {:induction false} ScanInfoStops(data: seq<Byte>, pos: nat, end: nat, found: Found)
    decreases end - pos
    ensures var r := ScanInfo(data, pos, end, found);
      r.Ok? ==> (r.value.found.Complete() || r.value.pos >= end) && Keeps(found, r.value.found)
  {
    if pos < end {
      var step := InfoStep(data, pos, found);
      if step.Ok? && !step.value.found.Complete() {
        ScanInfoStops(data, step.value.pos, end, step.value.found);
      }
    }
  }

  /** The same for the Segment scan and the end of the Segment. */
  lemma {:induction false} ScanSegmentStops(data: seq<Byte>, pos: nat, end: nat, found: Found)
    decreases end - pos
    ensures var r := ScanSegment(data, pos, end, found);
      r.Ok? ==> (r.value.found.Complete() || r.value.pos >= end) && Keeps(found, r.value.found)
  {
    if pos < end {
      var step := SegmentStep(data, pos, found);
      var id := IdAt(data, pos);
      if id.Ok? && id.value.value == INFO_ID {
        var size := VintAt(data, id.value.next);
        if size.Ok? {
          ScanInfoStops(data, size.value.next, size.value.next + size.value.value, found);
        }
      }
      if step.Ok? && !step.value.found.Complete() {
        ScanSegmentStops(data, step.value.pos, end, step.value.found);
      }
    }
  }

  // Files laid out as in module MkvLayout.

  /** Elements other than Info leave the values as they are. */
  lemma {:induction false} SegmentFoldOfOthers(cs: seq<SegmentChild>, found: Found)
    requires forall i :: 0 <= i < |cs| ==> cs[i].Other?
    ensures SegmentFold(cs, found) == found
  {
    if cs != [] {
      SegmentFoldOfOthers(cs[1..], found);
    }
  }

  /** A Segment without an Info element is missing its TimecodeScale. */
  lemma {:induction false} NoInfoIsMissingScale(data: seq<Byte>, f: MkvFile)
    requires f.WellFormed() && IsAt(data, 0, f.Encode()) && f.tail == []
    requires forall i :: 0 <= i < |f.segment| ==> f.segment[i].Other?
    ensures MetadataOf(data) == Err(MissingTimecodeScale)
  {
    SegmentFoldOfOthers(f.segment, Found(None, None));
    MetadataOfFile(data, f);
  }

  /** The folds of the three layouts below, apart from any file. */
  lemma {:induction false} ScaleAloneFold(cs: seq<SegmentChild>, scale: Element)
    requires |cs| == 1 && cs[0].Info? && cs[0].children == [scale] && scale.id == TIMECODE_SCALE_ID
    ensures SegmentFold(cs, Found(None, None)) == Found(Some(BytesToU64(scale.payload)), None)
  {
    var g := Found(Some(BytesToU64(scale.payload)), None);
    assert InfoFold([scale], Found(None, None)) == g by {
      assert InfoFold([scale][1..], g) == g;
    }
    assert SegmentFold(cs[1..], g) == g;
  }

  lemma {:induction false} AcrossInfoFold(cs: seq<SegmentChild>, scale: Element, duration: Element)
    requires |cs| >= 2 && cs[0].Info? && cs[1].Info?
    requires cs[0].children == [scale] && scale.id == TIMECODE_SCALE_ID
    requires cs[1].children == [duration] && duration.id == DURATION_ID
    ensures SegmentFold(cs, Found(None, None)) == Found(Some(BytesToU64(scale.payload)), Some(BytesToF64(duration.payload)))
  {
    var g := Found(Some(BytesToU64(scale.payload)), None);
    var h := Found(Some(BytesToU64(scale.payload)), Some(BytesToF64(duration.payload)));
    assert InfoFold([scale], Found(None, None)) == g by {
      assert InfoFold([scale][1..], g) == g;
    }
    assert InfoFold([duration], g) == h;
    assert SegmentFold(cs[1..], g) == h;
  }

  lemma {:induction false} LaterScaleFold(cs: seq<SegmentChild>, earlier: Element, later: Element, duration: Element)
    requires |cs| >= 1 && cs[0].Info? && cs[0].children == [earlier, later, duration]
    requires earlier.id == TIMECODE_SCALE_ID && later.id == TIMECODE_SCALE_ID && duration.id == DURATION_ID
    ensures SegmentFold(cs, Found(None, None)) == Found(Some(BytesToU64(later.payload)), Some(BytesToF64(duration.payload)))
  {
    var children := [earlier, later, duration];
    var g := Found(Some(BytesToU64(earlier.payload)), None);
    var g2 := Found(Some(BytesToU64(later.payload)), None);
    var h := Found(Some(BytesToU64(later.payload)), Some(BytesToF64(duration.payload)));
    assert children[1..] == [later, duration] && children[1..][1..] == [duration];
    assert InfoFold([duration], g2) == h;
    assert InfoFold([later, duration], g) == h;
    assert InfoFold(children, Found(None, None)) == h;
  }

  /** An Info element holding only a TimecodeScale, at the end of the
      Segment, leaves the Duration missing. */
  lemma {:induction false} ScaleAloneIsMissingDuration(data: seq<Byte>, f: MkvFile, scale: Element)
    requires f.WellFormed() && IsAt(data, 0, f.Encode()) && f.tail == []
    requires |f.segment| == 1 && f.segment[0].Info? && f.segment[0].children == [scale]
    requires scale.id == TIMECODE_SCALE_ID
    ensures MetadataOf(data) == Err(MissingDuration)
  {
    ScaleAloneFold(f.segment, scale);
    MetadataOfFile(data, f);
  }

  /** No Info element of the run has a Duration child. */
  ghost predicate NoDurationChild(cs: seq<SegmentChild>)
  {
    forall i, j :: 0 <= i < |cs| && cs[i].Info? && 0 <= j < |cs[i].children| ==> cs[i].children[j].id != DURATION_ID
  }

  /** Some Info element of the run has a TimecodeScale child. */
  ghost predicate HasScaleChild(cs: seq<SegmentChild>)
  {
    exists i, j :: 0 <= i < |cs| && cs[i].Info? && 0 <= j < |cs[i].children| && cs[i].children[j].id == TIMECODE_SCALE_ID
  }

  /** Info children without a Duration leave the Duration missing, and the
      scale is known afterwards exactly when it was before or one of them
      is a TimecodeScale. */
  lemma {:induction false} InfoFoldWithoutDuration(es: seq<Element>, found: Found)
    requires forall j :: 0 <= j < |es| ==> es[j].id != DURATION_ID
    requires found.duration.None?
    decreases |es|
    ensures InfoFold(es, found).duration.None?
    ensures InfoFold(es, found).scale.Some? <==>
      found.scale.Some? || exists j :: 0 <= j < |es| && es[j].id == TIMECODE_SCALE_ID
  {
    if es != [] {
      var f := InfoValue(es[0].id, es[0].payload, found);
      InfoValueSets(es[0].id, es[0].payload, found);
      InfoFoldWithoutDuration(es[1..], f);
      if exists j :: 0 <= j < |es| && es[j].id == TIMECODE_SCALE_ID {
        var j :| 0 <= j < |es| && es[j].id == TIMECODE_SCALE_ID;
        if j > 0 {
          assert es[1..][j - 1].id == TIMECODE_SCALE_ID;
        }
      }
      if exists j :: 0 <= j < |es[1..]| && es[1..][j].id == TIMECODE_SCALE_ID {
        var j :| 0 <= j < |es[1..]| && es[1..][j].id == TIMECODE_SCALE_ID;
        assert es[j + 1].id == TIMECODE_SCALE_ID;
      }
    }
  }

  /** The same over the children of the Segment. */
  lemma {:induction false} SegmentFoldWithoutDuration(cs: seq<SegmentChild>, found: Found)
    requires NoDurationChild(cs) && found.duration.None?
    decreases |cs|
    ensures SegmentFold(cs, found).duration.None?
    ensures SegmentFold(cs, found).scale.Some? <==> found.scale.Some? || HasScaleChild(cs)
  {
    if cs != [] {
      var c := cs[0];
      if c.Info? {
        assert forall j :: 0 <= j < |c.children| ==> c.children[j].id != DURATION_ID by {
          forall j | 0 <= j < |c.children|
            ensures c.children[j].id != DURATION_ID
          {
            assert cs[0].children[j].id != DURATION_ID;
          }
        }
        InfoFoldWithoutDuration(c.children, found);
      }
      var f := ApplySegmentChild(c, found);
      assert NoDurationChild(cs[1..]) by {
        forall i, j | 0 <= i < |cs[1..]| && cs[1..][i].Info? && 0 <= j < |cs[1..][i].children|
          ensures cs[1..][i].children[j].id != DURATION_ID
        {
          assert cs[1..][i] == cs[i + 1];
        }
      }
      SegmentFoldWithoutDuration(cs[1..], f);
      if HasScaleChild(cs) {
        var i, j :| 0 <= i < |cs| && cs[i].Info? && 0 <= j < |cs[i].children| && cs[i].children[j].id == TIMECODE_SCALE_ID;
        if i > 0 {
          assert cs[1..][i - 1] == cs[i];
        }
      }
      if HasScaleChild(cs[1..]) {
        var i, j :| 0 <= i < |cs[1..]| && cs[1..][i].Info? && 0 <= j < |cs[1..][i].children| && cs[1..][i].children[j].id == TIMECODE_SCALE_ID;
        assert cs[i + 1] == cs[1..][i];
      }
    }
  }

  /** In a file whose Segment has no Duration anywhere, the answer is
      "Missing Duration" when some Info element holds a TimecodeScale, and
      "Missing TimecodeScale" otherwise: never a record. */
  lemma {:induction false} NoDurationIsMissing(data: seq<Byte>, f: MkvFile)
    requires f.WellFormed() && IsAt(data, 0, f.Encode()) && f.tail == []
    requires NoDurationChild(f.segment)
    ensures HasScaleChild(f.segment) ==> MetadataOf(data) == Err(MissingDuration)
    ensures !HasScaleChild(f.segment) ==> MetadataOf(data) == Err(MissingTimecodeScale)
  {
    SegmentFoldWithoutDuration(f.segment, Found(None, None));
    MetadataOfFile(data, f);
  }

  /** The values carry over from one Info element to the next: a
      TimecodeScale in the first and a Duration in the second make a
      record, and whatever follows the second is never read. */
  lemma {:induction false} ValuesCombineAcrossInfo(data: seq<Byte>, f: MkvFile, scale: Element, duration: Element)
    requires f.WellFormed() && IsAt(data, 0, f.Encode())
    requires |f.segment| >= 2 && f.segment[0].Info? && f.segment[1].Info?
    requires f.segment[0].children == [scale] && scale.id == TIMECODE_SCALE_ID
    requires f.segment[1].children == [duration] && duration.id == DURATION_ID
    ensures MetadataOf(data) == Ok(MkvMetadata(BytesToU64(scale.payload), BytesToF64(duration.payload)))
  {
    AcrossInfoFold(f.segment, scale, duration);
    MetadataOfFile(data, f);
  }

  /** A later TimecodeScale replaces an earlier one. */
  lemma {:induction false} LaterScaleWins(data: seq<Byte>, f: MkvFile, earlier: Element, later: Element, duration: Element)
    requires f.WellFormed() && IsAt(data, 0, f.Encode())
    requires |f.segment| >= 1 && f.segment[0].Info? && f.segment[0].children == [earlier, later, duration]
    requires earlier.id == TIMECODE_SCALE_ID && later.id == TIMECODE_SCALE_ID && duration.id == DURATION_ID
    ensures MetadataOf(data) == Ok(MkvMetadata(BytesToU64(later.payload), BytesToF64(duration.payload)))
  {
    LaterScaleFold(f.segment, earlier, later, duration);
    MetadataOfFile(data, f);
  }
}
