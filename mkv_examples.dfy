/** Concrete files: a minimal one the walk accepts, built from the layout
    of module MkvLayout, and the fixture the metadata test of the Rust code
    leaves commented out, which the walk rejects. */
module MkvExamples {
  import opened Wrappers
  import opened Ebml
  import opened EbmlEncoding
  import opened Mkv
  import opened MkvLayout

  /** An empty EBML header, then a Segment of 19 bytes holding one Info
      element of 14 bytes: TimecodeScale 1000000 in three bytes and a
      four-byte Duration, the single-precision pattern of 5000.0. */
  const ExampleFile: seq<Byte> :=
    [0x1A, 0x45, 0xDF, 0xA3, 0x80] +
    [0x18, 0x53, 0x80, 0x67, 0x93] +
    [0x15, 0x49, 0xA9, 0x66, 0x8E] +
    [0x2A, 0xD7, 0xB1, 0x83, 0x0F, 0x42, 0x40] +
    [0x44, 0x89, 0x84, 0x45, 0x9C, 0x40, 0x00]

  function ExampleScale(): Element
  {
    Element(TIMECODE_SCALE_ID, [0x2A, 0xD7, 0xB1], [0x83], [0x0F, 0x42, 0x40])
  }

  function ExampleDuration(): Element
  {
    Element(DURATION_ID, [0x44, 0x89], [0x84], [0x45, 0x9C, 0x40, 0x00])
  }

  /** ExampleFile as a layout. */
  function ExampleLayout(): MkvFile
  {
    MkvFile(Element(EBML_HEADER_ID, [0x1A, 0x45, 0xDF, 0xA3], [0x80], []),
            [0x18, 0x53, 0x80, 0x67], [0x93],
            [Info([0x15, 0x49, 0xA9, 0x66], [0x8E], [ExampleScale(), ExampleDuration()])], [])
  }

  lemma {:induction false} ExampleElements()
    ensures ExampleScale().WellFormed() && ExampleDuration().WellFormed()
  {
    assert IdAt([0x2A, 0xD7, 0xB1], 0) == Ok(Decoded(TIMECODE_SCALE_ID, 3));
    assert VintAt([0x83], 0) == Ok(Decoded(3, 1));
    assert IdAt([0x44, 0x89], 0) == Ok(Decoded(DURATION_ID, 2));
    assert VintAt([0x84], 0) == Ok(Decoded(4, 1));
  }

  lemma {:induction false} ExampleChildren()
    ensures AllInfoChildren([ExampleScale(), ExampleDuration()])
    ensures EncodeAll([ExampleScale(), ExampleDuration()]) == ExampleScale().Encode() + ExampleDuration().Encode()
  {
    var cs := [ExampleScale(), ExampleDuration()];
    ExampleElements();
    assert cs[1..] == [ExampleDuration()] && cs[1..][1..] == [];
  }

  lemma {:induction false} ExampleLayoutWellFormed()
    ensures ExampleLayout().WellFormed()
  {
    var f := ExampleLayout();
    ExampleChildren();
    assert f.segment[1..] == [];
    EncodeSegmentLength(f.segment);
    assert VintAt([0x93], 0) == Ok(Decoded(19, 1));
    assert VintAt([0x8E], 0) == Ok(Decoded(14, 1));
  }

  lemma {:induction false} ExampleLayoutEncodes()
    ensures ExampleLayout().Encode() == ExampleFile
  {
    var f := ExampleLayout();
    ExampleChildren();
    var info := f.segment[0].AsElement();
    assert f.segment[1..] == [];
    assert EncodeSegment(f.segment) == info.Encode() + [];
  }

  /** The u64 fold of up to four bytes, one byte at a time. */
  lemma {:induction false} FoldBytes(a: Byte, b: Byte, c: Byte, d: Byte)
    ensures BytesToU64([a, b, c]) == (a * 256 + b) * 256 + c
    ensures BytesToU64([a, b, c, d]) == ((a * 256 + b) * 256 + c) * 256 + d
  {
    assert [a] == [] + [a] && [a, b] == [a] + [b] && [a, b, c] == [a, b] + [c] && [a, b, c, d] == [a, b, c] + [d];
    BytesToU64Empty();
    BytesToU64Append([], a);
    BytesToU64Append([a], b);
    BytesToU64Append([a, b], c);
    BytesToU64Append([a, b, c], d);
  }

  lemma {:induction false} ExampleValues()
    ensures BytesToU64([0x0F, 0x42, 0x40]) == 1000000
    ensures BytesToF64([0x45, 0x9C, 0x40, 0x00]) == Single(0x459C4000)
  {
    FoldBytes(0x0F, 0x42, 0x40, 0);
    FoldBytes(0x45, 0x9C, 0x40, 0x00);
  }

  lemma {:induction false} ExampleFileMetadata()
    ensures MetadataOf(ExampleFile) == Ok(MkvMetadata(1000000, Single(0x459C4000)))
  {
    var f := ExampleLayout();
    ExampleLayoutWellFormed();
    ExampleLayoutEncodes();
    var cs := [ExampleScale(), ExampleDuration()];
    assert InfoFold(cs, Found(None, None)) == Found(Some(BytesToU64([0x0F, 0x42, 0x40])), Some(BytesToF64([0x45, 0x9C, 0x40, 0x00])));
    ExampleValues();
    MetadataOfFile(ExampleFile, f);
  }

  /** The bytes of the fixture the metadata test leaves commented out: its
      Segment declares one byte of content, 0x00, which is not an ID. */
  const CommentedFixture: seq<Byte> := [
    0x1A, 0x45, 0xDF, 0xA3, 0x81, 0x00,
    0x18, 0x53, 0x80, 0x67, 0x81, 0x00,
    0x15, 0x49, 0xA9, 0x66, 0x81, 0x00,
    0x2A, 0xD7, 0xB1, 0x81, 0x01,
    0x44, 0x89, 0x84, 0x00, 0x00, 0x00, 0x01]

  lemma {:induction false} CommentedFixtureHeader()
    ensures ReadAt(CommentedFixture, 0, 4) == Ok([0x1A, 0x45, 0xDF, 0xA3])
    ensures VintAt(CommentedFixture, 4) == Ok(Decoded(1, 5))
  {
    var data := CommentedFixture;
    assert data[0..4] == [data[0], data[1], data[2], data[3]];
  }

  lemma {:induction false} CommentedFixtureSegment()
    ensures IdAt(CommentedFixture, 6) == Ok(Decoded(SEGMENT_ID, 10))
    ensures VintAt(CommentedFixture, 10) == Ok(Decoded(1, 11))
    ensures IdAt(CommentedFixture, 11) == Err(InvalidElementId)
  {
  }

  /** The walk stops at the first child of the Segment. */
  lemma {:induction false} CommentedFixtureIsRejected()
    ensures SegmentSpan(CommentedFixture) == Ok(Span(11, 12))
    ensures MetadataOf(CommentedFixture) == Err(InvalidElementId)
  {
    CommentedFixtureHeader();
    CommentedFixtureSegment();
    FoldBytes(0x1A, 0x45, 0xDF, 0xA3);
    SegmentSpanAt(CommentedFixture, Decoded(1, 5), 6, Decoded(SEGMENT_ID, 10), Decoded(1, 11));
  }
}
