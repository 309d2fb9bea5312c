/** Matroska files as values: the EBML header element, then the Segment
    whose children are Info elements and elements of any other kind. The
    functions here lay such a file out as bytes and fold over its children
    the way the walk of module Mkv is meant to; the lemmas prove that the
    walk returns the fold's result on every such file. */
module MkvLayout {
  import opened Wrappers
  import opened Ebml
  import opened EbmlEncoding
  import opened Mkv

  /** The five IDs of the walk belong to the ID class of their length. */
  lemma {:induction false} MatroskaIdLengths()
    ensures IsIdOfLength(EBML_HEADER_ID, 4) && IsIdOfLength(SEGMENT_ID, 4)
    ensures IsIdOfLength(INFO_ID, 4)
    ensures IsIdOfLength(TIMECODE_SCALE_ID, 3) && IsIdOfLength(DURATION_ID, 2)
  {
    Pow2Small();
    Pow2Add(7, 7);
    Pow2Add(14, 1);
    Pow2Add(14, 7);
    Pow2Add(21, 1);
    Pow2Add(14, 14);
    Pow2Add(28, 1);
  }

  /** An element: its ID, the bytes that hold the ID and the payload's
      size, and the payload. */
  datatype Element = Element(id: nat, idBytes: seq<Byte>, sizeBytes: seq<Byte>, payload: seq<Byte>) {
    /** The ID decoder reads exactly `idBytes` as the ID and the size
        decoder reads exactly `sizeBytes` as the payload's length. */
    predicate WellFormed() {
      && IdAt(idBytes, 0) == Ok(Decoded(id, |idBytes|))
      && VintAt(sizeBytes, 0) == Ok(Decoded(|payload|, |sizeBytes|))
    }

    function Encode(): seq<Byte>
    {
      idBytes + sizeBytes + payload
    }

    /** The number of bytes the element takes. */
    function Size(): nat
    {
      |idBytes| + |sizeBytes| + |payload|
    }
  }

  /** The element an ID and a size of the given lengths are written for by
      the encoders. */
  function CanonicalElement(id: nat, idLength: nat, sizeLength: nat, payload: seq<Byte>): Element
  {
    Element(id, EncodeId(id, idLength), EncodeSize(|payload|, sizeLength), payload)
  }

  /** The encoders write well-formed elements: for every ID of its length
      class and every payload whose size fits the size field. */
  lemma {:induction false} CanonicalIsWellFormed(id: nat, idLength: nat, sizeLength: nat, payload: seq<Byte>)
    requires IsIdOfLength(id, idLength) && 1 <= sizeLength <= 8 && |payload| < Pow2(7 * sizeLength)
    ensures CanonicalElement(id, idLength, sizeLength, payload).WellFormed()
  {
    IdRoundTrip(id, idLength);
    SizeRoundTrip(|payload|, sizeLength);
  }

  /** Conversely, every well-formed element is the one the encoders write
      for the lengths of its fields, and those lengths are in range. */
  lemma {:induction false} WellFormedIsCanonical(e: Element)
    requires e.WellFormed()
    ensures IsIdOfLength(e.id, |e.idBytes|) && 1 <= |e.sizeBytes| <= 8 && |e.payload| < Pow2(7 * |e.sizeBytes|)
    ensures e == CanonicalElement(e.id, |e.idBytes|, |e.sizeBytes|, e.payload)
  {
    IdEncodingUnique(e.idBytes, e.id);
    SizeEncodingUnique(e.sizeBytes, |e.payload|);
    IdAtIsOfLength(e.idBytes, 0);
    VintValueBound(e.sizeBytes, 0);
  }

  /** Where an element occurs, the decoders read its ID and size and the
      payload follows them. */
  lemma {:induction false} ElementAt(data: seq<Byte>, pos: nat, e: Element)
    requires e.WellFormed() && IsAt(data, pos, e.Encode())
    ensures IdAt(data, pos) == Ok(Decoded(e.id, pos + |e.idBytes|))
    ensures VintAt(data, pos + |e.idBytes|) == Ok(Decoded(|e.payload|, pos + |e.idBytes| + |e.sizeBytes|))
    ensures IsAt(data, pos + |e.idBytes| + |e.sizeBytes|, e.payload)
  {
    IsAtSplit3(data, pos, e.idBytes, e.sizeBytes, e.payload);
    IdAtLocal(data, pos, e.idBytes, Decoded(e.id, |e.idBytes|));
    VintAtLocal(data, pos + |e.idBytes|, e.sizeBytes, Decoded(|e.payload|, |e.sizeBytes|));
  }

  /** Elements written one after the other. */
  function EncodeAll(es: seq<Element>): seq<Byte>
  {
    if es == [] then [] else es[0].Encode() + EncodeAll(es[1..])
  }

  function SizeAll(es: seq<Element>): nat
  {
    if es == [] then 0 else es[0].Size() + SizeAll(es[1..])
  }

  lemma {:induction false} EncodeAllLength(es: seq<Element>)
    ensures |EncodeAll(es)| == SizeAll(es)
  {
    if es != [] {
      EncodeAllLength(es[1..]);
    }
  }

  /** A child of an Info element the walk can read: TimecodeScale and
      Duration payloads fit the 8-byte buffer. */
  predicate IsInfoChild(e: Element)
  {
    e.WellFormed() && ((e.id == TIMECODE_SCALE_ID || e.id == DURATION_ID) ==> |e.payload| <= 8)
  }

  predicate AllInfoChildren(es: seq<Element>)
  {
    es == [] || (IsInfoChild(es[0]) && AllInfoChildren(es[1..]))
  }

  /** The children of an Info element in order, each setting what it
      carries, stopping as soon as both values are known. */
  function InfoFold(children: seq<Element>, found: Found): Found
  {
    if children == [] then found
    else
      var f := InfoValue(children[0].id, children[0].payload, found);
      if f.Complete() then f else InfoFold(children[1..], f)
  }

  /** A child of the Segment: an Info element given by the bytes of its
      ID and size fields and by its children, or any other element. */
  datatype SegmentChild =
    | Info(idBytes: seq<Byte>, sizeBytes: seq<Byte>, children: seq<Element>)
    | Other(element: Element)
  {
    function AsElement(): Element
    {
      match this
      case Info(idBytes, sizeBytes, children) => Element(INFO_ID, idBytes, sizeBytes, EncodeAll(children))
      case Other(element) => element
    }

    predicate WellFormed() {
      && AsElement().WellFormed()
      && (Info? ==> AllInfoChildren(children))
      && (Other? ==> element.id != INFO_ID)
    }
  }

  predicate AllSegmentChildren(cs: seq<SegmentChild>)
  {
    cs == [] || (cs[0].WellFormed() && AllSegmentChildren(cs[1..]))
  }

  function ApplySegmentChild(c: SegmentChild, found: Found): Found
  {
    match c
    case Info(_, _, children) => InfoFold(children, found)
    case Other(_) => found
  }

  /** The children of the Segment in order, stopping as soon as both values
      are known; the values found so far carry over from one Info element
      to the next. */
  function SegmentFold(children: seq<SegmentChild>, found: Found): Found
  {
    if children == [] then found
    else
      var f := ApplySegmentChild(children[0], found);
      if f.Complete() then f else SegmentFold(children[1..], f)
  }

  function EncodeSegment(cs: seq<SegmentChild>): seq<Byte>
  {
    if cs == [] then [] else cs[0].AsElement().Encode() + EncodeSegment(cs[1..])
  }

  function SegmentSize(cs: seq<SegmentChild>): nat
  {
    if cs == [] then 0 else cs[0].AsElement().Size() + SegmentSize(cs[1..])
  }

  lemma {:induction false} EncodeSegmentLength(cs: seq<SegmentChild>)
    ensures |EncodeSegment(cs)| == SegmentSize(cs)
  {
    if cs != [] {
      EncodeSegmentLength(cs[1..]);
    }
  }

  /** A file: the EBML header element, then the Segment given by the
      bytes of its ID and size fields, holding `segment` followed by
      `tail`, bytes that need not be elements. */
  datatype MkvFile = MkvFile(header: Element, segmentIdBytes: seq<Byte>, segmentSizeBytes: seq<Byte>,
                             segment: seq<SegmentChild>, tail: seq<Byte>)
  {
    function SegmentElement(): Element
    {
      Element(SEGMENT_ID, segmentIdBytes, segmentSizeBytes, EncodeSegment(segment) + tail)
    }

    /** The EBML header and the Segment element around the children. */
    predicate EnvelopeWellFormed() {
      && header.WellFormed() && header.id == EBML_HEADER_ID && |header.idBytes| == 4
      && SegmentElement().WellFormed()
    }

    predicate WellFormed() {
      EnvelopeWellFormed() && AllSegmentChildren(segment)
    }

    function Encode(): seq<Byte>
    {
      header.Encode() + SegmentElement().Encode()
    }

    /** Where the Segment's children start. */
    function SegmentBody(): nat
    {
      header.Size() + |segmentIdBytes| + |segmentSizeBytes|
    }
  }

  // The Info scan.

  /** The Info step in terms of what the decoders read at `pos`. */
  lemma {:induction false} InfoStepOfHeader(data: seq<Byte>, pos: nat, found: Found, id: Decoded, size: Decoded, payload: seq<Byte>)
    requires IdAt(data, pos) == Ok(id) && VintAt(data, id.next) == Ok(size) && |payload| == size.value
    requires id.value == TIMECODE_SCALE_ID || id.value == DURATION_ID ==> size.value <= 8 && ReadAt(data, size.next, size.value) == Ok(payload)
    ensures InfoStep(data, pos, found) == Ok(ScanState(size.next + size.value, InfoValue(id.value, payload, found)))
  {
  }

  /** One child of an Info element, read where it is encoded. */
  lemma {:induction false} InfoStepOn(data: seq<Byte>, pos: nat, e: Element, found: Found)
    requires IsInfoChild(e) && IsAt(data, pos, e.Encode())
    ensures InfoStep(data, pos, found) == Ok(ScanState(pos + e.Size(), InfoValue(e.id, e.payload, found)))
  {
    ElementAt(data, pos, e);
    var body := pos + |e.idBytes| + |e.sizeBytes|;
    IsAtSlice(data, body, e.payload);
    assert ReadAt(data, body, |e.payload|) == Ok(e.payload);
    InfoStepOfHeader(data, pos, found, Decoded(e.id, pos + |e.idBytes|), Decoded(|e.payload|, body), e.payload);
  }

  /** An encoded TimecodeScale or Duration child with a payload of more than
      8 bytes stops the Info scan with `FieldTooLarge`. */
  lemma {:induction false} InfoStepOnTooLarge(data: seq<Byte>, pos: nat, e: Element, found: Found)
    requires e.WellFormed() && (e.id == TIMECODE_SCALE_ID || e.id == DURATION_ID) && |e.payload| > 8
    requires IsAt(data, pos, e.Encode())
    ensures InfoStep(data, pos, found) == Err(FieldTooLarge(|e.payload|))
  {
    ElementAt(data, pos, e);
    InfoStepTooLarge(data, pos, found, Decoded(e.id, pos + |e.idBytes|), Decoded(|e.payload|, pos + |e.idBytes| + |e.sizeBytes|));
  }

  /** The Info steps over a run of children at `pos`, each child ending
      where the next begins, up to the first that completes the values. */
  ghost predicate InfoStepsAt(data: seq<Byte>, pos: nat, cs: seq<Element>, found: Found)
    decreases |cs|
  {
    cs == [] ||
    var g := InfoValue(cs[0].id, cs[0].payload, found);
    && InfoStep(data, pos, found) == Ok(ScanState(pos + cs[0].Size(), g))
    && (g.Complete() || InfoStepsAt(data, pos + cs[0].Size(), cs[1..], g))
  }

  /** InfoStepsAt from its first step and the steps after it. */
  lemma {:induction false} InfoStepsCons(data: seq<Byte>, pos: nat, cs: seq<Element>, found: Found)
    requires cs != []
    requires var g := InfoValue(cs[0].id, cs[0].payload, found);
      && InfoStep(data, pos, found) == Ok(ScanState(pos + cs[0].Size(), g))
      && (g.Complete() || InfoStepsAt(data, pos + cs[0].Size(), cs[1..], g))
    ensures InfoStepsAt(data, pos, cs, found)
  {
  }

  /** Each child of a run of Info children is encoded right after the one
      before it. */
  ghost predicate InfoChildrenAt(data: seq<Byte>, pos: nat, cs: seq<Element>)
    decreases |cs|
  {
    cs == [] ||
    (&& IsInfoChild(cs[0]) && IsAt(data, pos, cs[0].Encode())
     && InfoChildrenAt(data, pos + cs[0].Size(), cs[1..]))
  }

  /** An encoded run of Info children has each child where it belongs. */
  lemma {:induction false} InfoChildrenOf(data: seq<Byte>, pos: nat, cs: seq<Element>)
    requires AllInfoChildren(cs) && IsAt(data, pos, EncodeAll(cs))
    decreases |cs|
    ensures InfoChildrenAt(data, pos, cs)
  {
    if cs != [] {
      var e := cs[0];
      IsAtSplit(data, pos, e.Encode(), EncodeAll(cs[1..]), pos + e.Size());
      InfoChildrenOf(data, pos + e.Size(), cs[1..]);
    }
  }

  /** Info children placed one after the other are read one after the
      other. */
  lemma {:induction false} InfoStepsOverChildren(data: seq<Byte>, pos: nat, cs: seq<Element>, found: Found)
    requires InfoChildrenAt(data, pos, cs)
    decreases |cs|
    ensures InfoStepsAt(data, pos, cs, found)
  {
    if cs != [] {
      InfoStepOn(data, pos, cs[0], found);
      var g := InfoValue(cs[0].id, cs[0].payload, found);
      if !g.Complete() {
        InfoStepsOverChildren(data, pos + cs[0].Size(), cs[1..], g);
      }
      InfoStepsCons(data, pos, cs, found);
    }
  }

  /** Encoded Info children are read one after the other. */
  lemma {:induction false} InfoStepsOver(data: seq<Byte>, pos: nat, cs: seq<Element>, found: Found)
    requires AllInfoChildren(cs) && IsAt(data, pos, EncodeAll(cs))
    ensures InfoStepsAt(data, pos, cs, found)
  {
    InfoChildrenOf(data, pos, cs);
    InfoStepsOverChildren(data, pos, cs, found);
  }

  /** One step of the Info scan. */
  lemma {:induction false} ScanInfoStep(data: seq<Byte>, pos: nat, end: nat, found: Found, st: ScanState)
    requires pos < end && InfoStep(data, pos, found) == Ok(st)
    ensures ScanInfo(data, pos, end, found) == if st.found.Complete() then Ok(st) else ScanInfo(data, st.pos, end, st.found)
  {
  }

  /** The Info scan from `pos` with `found` ends with `f` once `f` has both
      values, and otherwise reaches `next` with `f`. */
  ghost predicate InfoScanReaches(data: seq<Byte>, pos: nat, end: nat, found: Found, next: nat, f: Found)
  {
    if f.Complete() then ScanInfo(data, pos, end, found).Ok? && ScanInfo(data, pos, end, found).value.found == f
    else ScanInfo(data, pos, end, found) == ScanInfo(data, next, end, f)
  }

  /** One step of the Info scan followed by the rest of it. */
  lemma {:induction false} InfoScanChain(data: seq<Byte>, pos: nat, end: nat, found: Found, st: ScanState,
                                         restNext: nat, restFound: Found, next: nat, f: Found)
    requires ScanInfo(data, pos, end, found) == if st.found.Complete() then Ok(st) else ScanInfo(data, st.pos, end, st.found)
    requires st.found.Complete() ==> f == st.found
    requires !st.found.Complete() ==> InfoScanReaches(data, st.pos, end, st.found, restNext, restFound)
    requires !st.found.Complete() ==> next == restNext && f == restFound
    ensures InfoScanReaches(data, pos, end, found, next, f)
  {
  }

  /** The Info scan over the steps of a run of children: once the fold has
      both values the scan has them too, and otherwise the scan goes on
      just after the run with the fold's values. */
  lemma {:induction false} ScanInfoSteps(data: seq<Byte>, pos: nat, end: nat, cs: seq<Element>, found: Found)
    requires InfoStepsAt(data, pos, cs, found) && pos + SizeAll(cs) <= end
    requires !found.Complete()
    decreases |cs|
    ensures InfoScanReaches(data, pos, end, found, pos + SizeAll(cs), InfoFold(cs, found))
  {
    if cs != [] {
      var st := ScanState(pos + cs[0].Size(), InfoValue(cs[0].id, cs[0].payload, found));
      ScanInfoStep(data, pos, end, found, st);
      if !st.found.Complete() {
        ScanInfoSteps(data, st.pos, end, cs[1..], st.found);
      }
      InfoScanChain(data, pos, end, found, st, st.pos + SizeAll(cs[1..]), InfoFold(cs[1..], st.found),
                    pos + SizeAll(cs), InfoFold(cs, found));
    }
  }

  /** An Info scan that reaches its end has found what it reached it with. */
  lemma {:induction false} InfoScanEnds(data: seq<Byte>, pos: nat, end: nat, found: Found, f: Found)
    requires InfoScanReaches(data, pos, end, found, end, f)
    ensures var r := ScanInfo(data, pos, end, found);
      r.Ok? && r.value.found == f && (f.Complete() || r.value.pos == end)
  {
  }

  /** The Info scan over exactly the bytes of a run of encoded children
      finds what their fold finds, and ends at their end unless the fold
      completes. */
  lemma {:induction false} ScanInfoOfChildren(data: seq<Byte>, pos: nat, cs: seq<Element>, found: Found)
    requires AllInfoChildren(cs) && IsAt(data, pos, EncodeAll(cs)) && !found.Complete()
    ensures var r := ScanInfo(data, pos, pos + SizeAll(cs), found);
      var f := InfoFold(cs, found);
      r.Ok? && r.value.found == f && (f.Complete() || r.value.pos == pos + SizeAll(cs))
  {
    InfoStepsOver(data, pos, cs, found);
    ScanInfoSteps(data, pos, pos + SizeAll(cs), cs, found);
    InfoScanEnds(data, pos, pos + SizeAll(cs), found, InfoFold(cs, found));
  }

  // The Segment scan.

  /** A child of the Segment other than Info is skipped. */
  lemma {:induction false} SegmentStepOther(data: seq<Byte>, pos: nat, e: Element, found: Found)
    requires e.WellFormed() && e.id != INFO_ID && IsAt(data, pos, e.Encode())
    ensures SegmentStep(data, pos, found) == Ok(ScanState(pos + e.Size(), found))
  {
    ElementAt(data, pos, e);
  }

  /** An Info child of the Segment is handed to the Info scan. */
  lemma {:induction false} SegmentStepIsInfoScan(data: seq<Byte>, pos: nat, found: Found, id: Decoded, size: Decoded)
    requires IdAt(data, pos) == Ok(id) && id.value == INFO_ID && VintAt(data, id.next) == Ok(size)
    ensures SegmentStep(data, pos, found) == ScanInfo(data, size.next, size.next + size.value, found)
  {
  }

  /** An Info element read by the decoders at `pos` whose payload holds a
      run of encoded children yields their fold. */
  lemma {:induction false} SegmentStepInfoAt(data: seq<Byte>, pos: nat, found: Found, id: Decoded, size: Decoded, cs: seq<Element>)
    requires IdAt(data, pos) == Ok(id) && id.value == INFO_ID && VintAt(data, id.next) == Ok(size)
    requires AllInfoChildren(cs) && IsAt(data, size.next, EncodeAll(cs)) && size.value == SizeAll(cs)
    requires !found.Complete()
    ensures var f := InfoFold(cs, found);
      var r := SegmentStep(data, pos, found);
      r.Ok? && r.value.found == f && (f.Complete() || r.value.pos == size.next + size.value)
  {
    SegmentStepIsInfoScan(data, pos, found, id, size);
    ScanInfoOfChildren(data, size.next, cs, found);
  }

  /** An encoded Info child of the Segment yields its fold, and ends where
      the element does unless the fold completes. */
  lemma {:induction false} SegmentStepInfo(data: seq<Byte>, pos: nat, c: SegmentChild, found: Found)
    requires c.Info? && c.WellFormed() && IsAt(data, pos, c.AsElement().Encode())
    requires !found.Complete()
    ensures var f := InfoFold(c.children, found);
      var r := SegmentStep(data, pos, found);
      r.Ok? && r.value.found == f && (f.Complete() || r.value.pos == pos + c.AsElement().Size())
  {
    var e := c.AsElement();
    ElementAt(data, pos, e);
    EncodeAllLength(c.children);
    var body := pos + |e.idBytes| + |e.sizeBytes|;
    SegmentStepInfoAt(data, pos, found, Decoded(INFO_ID, pos + |e.idBytes|), Decoded(|e.payload|, body), c.children);
  }

  /** The Segment scan's step at `pos` reads the child `c` whole: it applies
      the child's value and, unless that completes the values, ends after it. */
  ghost predicate SegmentChildAt(data: seq<Byte>, pos: nat, c: SegmentChild, found: Found)
  {
    var g := ApplySegmentChild(c, found);
    var r := SegmentStep(data, pos, found);
    && 0 < c.AsElement().Size() && r.Ok? && r.value.found == g
    && (g.Complete() || r.value.pos == pos + c.AsElement().Size())
  }

  /** The Segment steps over a run of children at `pos`, as InfoStepsAt;
      the step that completes the values may stop inside its child. */
  ghost predicate SegmentStepsAt(data: seq<Byte>, pos: nat, cs: seq<SegmentChild>, found: Found)
    decreases |cs|
  {
    cs == [] ||
    var g := ApplySegmentChild(cs[0], found);
    && SegmentChildAt(data, pos, cs[0], found)
    && (g.Complete() || SegmentStepsAt(data, pos + cs[0].AsElement().Size(), cs[1..], g))
  }

  /** SegmentStepsAt from its first step and the steps after it. */
  lemma {:induction false} SegmentStepsCons(data: seq<Byte>, pos: nat, cs: seq<SegmentChild>, found: Found)
    requires cs != [] && SegmentChildAt(data, pos, cs[0], found)
    requires var g := ApplySegmentChild(cs[0], found);
      g.Complete() || SegmentStepsAt(data, pos + cs[0].AsElement().Size(), cs[1..], g)
    ensures SegmentStepsAt(data, pos, cs, found)
  {
  }

  /** The first step over an encoded child of the Segment. */
  lemma {:induction false} SegmentChildStep(data: seq<Byte>, pos: nat, c: SegmentChild, found: Found)
    requires c.WellFormed() && IsAt(data, pos, c.AsElement().Encode()) && !found.Complete()
    ensures SegmentChildAt(data, pos, c, found)
  {
    if c.Info? {
      SegmentStepInfo(data, pos, c, found);
    } else {
      SegmentStepOther(data, pos, c.element, found);
    }
  }

  /** Each child of a run of Segment children is encoded right after the
      one before it. */
  ghost predicate SegmentChildrenAt(data: seq<Byte>, pos: nat, cs: seq<SegmentChild>)
    decreases |cs|
  {
    cs == [] ||
    (&& cs[0].WellFormed() && IsAt(data, pos, cs[0].AsElement().Encode())
     && SegmentChildrenAt(data, pos + cs[0].AsElement().Size(), cs[1..]))
  }

  /** An encoded run of Segment children has each child where it belongs. */
  lemma {:induction false} SegmentChildrenOf(data: seq<Byte>, pos: nat, cs: seq<SegmentChild>)
    requires AllSegmentChildren(cs) && IsAt(data, pos, EncodeSegment(cs))
    decreases |cs|
    ensures SegmentChildrenAt(data, pos, cs)
  {
    if cs != [] {
      var e := cs[0].AsElement();
      IsAtSplit(data, pos, e.Encode(), EncodeSegment(cs[1..]), pos + e.Size());
      SegmentChildrenOf(data, pos + e.Size(), cs[1..]);
    }
  }

  /** Children of the Segment placed one after the other are read one after
      the other. */
  lemma {:induction false} SegmentStepsOverChildren(data: seq<Byte>, pos: nat, cs: seq<SegmentChild>, found: Found)
    requires SegmentChildrenAt(data, pos, cs) && !found.Complete()
    decreases |cs|
    ensures SegmentStepsAt(data, pos, cs, found)
  {
    if cs != [] {
      SegmentChildStep(data, pos, cs[0], found);
      var g := ApplySegmentChild(cs[0], found);
      if !g.Complete() {
        SegmentStepsOverChildren(data, pos + cs[0].AsElement().Size(), cs[1..], g);
      }
      SegmentStepsCons(data, pos, cs, found);
    }
  }

  /** Encoded children of the Segment are read one after the other. */
  lemma {:induction false} SegmentStepsOver(data: seq<Byte>, pos: nat, cs: seq<SegmentChild>, found: Found)
    requires AllSegmentChildren(cs) && IsAt(data, pos, EncodeSegment(cs))
    requires !found.Complete()
    ensures SegmentStepsAt(data, pos, cs, found)
  {
    SegmentChildrenOf(data, pos, cs);
    SegmentStepsOverChildren(data, pos, cs, found);
  }

  /** One step of the Segment scan. */
  lemma {:induction false} ScanSegmentStep(data: seq<Byte>, pos: nat, end: nat, found: Found, st: ScanState)
    requires pos < end && SegmentStep(data, pos, found) == Ok(st)
    ensures ScanSegment(data, pos, end, found) == if st.found.Complete() then Ok(st) else ScanSegment(data, st.pos, end, st.found)
  {
  }

  /** As InfoScanReaches, for the Segment scan. */
  ghost predicate SegmentScanReaches(data: seq<Byte>, pos: nat, end: nat, found: Found, next: nat, f: Found)
  {
    if f.Complete() then ScanSegment(data, pos, end, found).Ok? && ScanSegment(data, pos, end, found).value.found == f
    else ScanSegment(data, pos, end, found) == ScanSegment(data, next, end, f)
  }

  lemma {:induction false} SegmentScanChain(data: seq<Byte>, pos: nat, end: nat, found: Found, st: ScanState,
                                            restNext: nat, restFound: Found, next: nat, f: Found)
    requires ScanSegment(data, pos, end, found) == if st.found.Complete() then Ok(st) else ScanSegment(data, st.pos, end, st.found)
    requires st.found.Complete() ==> f == st.found
    requires !st.found.Complete() ==> SegmentScanReaches(data, st.pos, end, st.found, restNext, restFound)
    requires !st.found.Complete() ==> next == restNext && f == restFound
    ensures SegmentScanReaches(data, pos, end, found, next, f)
  {
  }

  /** The Segment scan over the steps of a run of children, as
      ScanInfoSteps. */
  lemma {:induction false} ScanSegmentSteps(data: seq<Byte>, pos: nat, end: nat, cs: seq<SegmentChild>, found: Found)
    requires SegmentStepsAt(data, pos, cs, found) && pos + SegmentSize(cs) <= end
    requires !found.Complete()
    decreases |cs|
    ensures SegmentScanReaches(data, pos, end, found, pos + SegmentSize(cs), SegmentFold(cs, found))
  {
    if cs != [] {
      var st := SegmentStep(data, pos, found).value;
      ScanSegmentStep(data, pos, end, found, st);
      if !st.found.Complete() {
        ScanSegmentSteps(data, st.pos, end, cs[1..], st.found);
      }
      SegmentScanChain(data, pos, end, found, st, st.pos + SegmentSize(cs[1..]), SegmentFold(cs[1..], st.found),
                       pos + SegmentSize(cs), SegmentFold(cs, found));
    }
  }

  /** A Segment scan that reaches its end has found what it reached it
      with. */
  lemma {:induction false} SegmentScanEnds(data: seq<Byte>, pos: nat, end: nat, found: Found, next: nat, f: Found)
    requires SegmentScanReaches(data, pos, end, found, next, f) && (f.Complete() || next == end)
    ensures ScanSegment(data, pos, end, found).Ok? && ScanSegment(data, pos, end, found).value.found == f
  {
    if !f.Complete() {
      assert ScanSegment(data, end, end, f) == Ok(ScanState(end, f));
    }
  }

  /** The Segment scan over a run of encoded children finds what their
      fold finds, provided the scan ends with the children or the fold
      completes among them. */
  lemma {:induction false} ScanSegmentOfChildren(data: seq<Byte>, pos: nat, end: nat, cs: seq<SegmentChild>, found: Found)
    requires AllSegmentChildren(cs) && IsAt(data, pos, EncodeSegment(cs)) && !found.Complete()
    requires pos + SegmentSize(cs) <= end && (end == pos + SegmentSize(cs) || SegmentFold(cs, found).Complete())
    ensures var r := ScanSegment(data, pos, end, found);
      r.Ok? && r.value.found == SegmentFold(cs, found)
  {
    SegmentStepsOver(data, pos, cs, found);
    ScanSegmentSteps(data, pos, end, cs, found);
    SegmentScanEnds(data, pos, end, found, pos + SegmentSize(cs), SegmentFold(cs, found));
  }

  // The file.

  /** The EBML header of a laid-out file passes the magic-number check and
      its size is read from offset 4. */
  lemma {:induction false} HeaderAt(data: seq<Byte>, h: Element)
    requires h.WellFormed() && h.id == EBML_HEADER_ID && |h.idBytes| == 4 && IsAt(data, 0, h.Encode())
    ensures ReadAt(data, 0, 4).Ok? && BytesToU64(ReadAt(data, 0, 4).value) == EBML_HEADER_ID
    ensures VintAt(data, 4) == Ok(Decoded(|h.payload|, 4 + |h.sizeBytes|))
  {
    ElementAt(data, 0, h);
    IsAtSplit3(data, 0, h.idBytes, h.sizeBytes, h.payload);
    IsAtSlice(data, 0, h.idBytes);
    IdIsBigEndian(h.idBytes, 0);
    assert h.idBytes[0..4] == h.idBytes;
    BytesToU64IsBeValue(h.idBytes);
  }

  /** The checks before the Segment scan, in terms of what the decoders
      read. */
  lemma {:induction false} SegmentSpanAt(data: seq<Byte>, header: Decoded, segmentPos: nat, segmentId: Decoded, segmentSize: Decoded)
    requires ReadAt(data, 0, 4).Ok? && BytesToU64(ReadAt(data, 0, 4).value) == EBML_HEADER_ID
    requires VintAt(data, 4) == Ok(header) && segmentPos == header.next + header.value
    requires IdAt(data, segmentPos) == Ok(segmentId) && segmentId.value == SEGMENT_ID
    requires VintAt(data, segmentId.next) == Ok(segmentSize)
    ensures SegmentSpan(data) == Ok(Span(segmentSize.next, segmentSize.next + segmentSize.value))
  {
  }

  /** What the decoders read in a laid-out file before the Segment's
      children: the magic number, the header's size, the Segment's ID and
      the Segment's size; the children follow. */
  lemma {:induction false} FileLayoutAt(data: seq<Byte>, f: MkvFile)
    requires f.EnvelopeWellFormed() && IsAt(data, 0, f.Encode())
    ensures ReadAt(data, 0, 4).Ok? && BytesToU64(ReadAt(data, 0, 4).value) == EBML_HEADER_ID
    ensures VintAt(data, 4) == Ok(Decoded(|f.header.payload|, 4 + |f.header.sizeBytes|))
    ensures IdAt(data, f.header.Size()) == Ok(Decoded(SEGMENT_ID, f.header.Size() + |f.segmentIdBytes|))
    ensures VintAt(data, f.header.Size() + |f.segmentIdBytes|) == Ok(Decoded(|EncodeSegment(f.segment)| + |f.tail|, f.SegmentBody()))
    ensures IsAt(data, f.SegmentBody(), EncodeSegment(f.segment))
  {
    var h := f.header;
    var s := f.SegmentElement();
    IsAtSplit(data, 0, h.Encode(), s.Encode(), h.Size());
    HeaderAt(data, h);
    ElementAt(data, h.Size(), s);
    IsAtSplit(data, f.SegmentBody(), EncodeSegment(f.segment), f.tail, f.SegmentBody() + |EncodeSegment(f.segment)|);
  }

  /** In a laid-out file the checks before the Segment scan pass, and the
      scan covers the Segment's payload, which starts with its children. */
  lemma {:induction false} FileSpanAt(data: seq<Byte>, f: MkvFile)
    requires f.EnvelopeWellFormed() && IsAt(data, 0, f.Encode())
    ensures SegmentSpan(data) == Ok(Span(f.SegmentBody(), f.SegmentBody() + (|EncodeSegment(f.segment)| + |f.tail|)))
    ensures IsAt(data, f.SegmentBody(), EncodeSegment(f.segment))
  {
    FileLayoutAt(data, f);
    SegmentSpanAt(data, Decoded(|f.header.payload|, 4 + |f.header.sizeBytes|), f.header.Size(),
                  Decoded(SEGMENT_ID, f.header.Size() + |f.segmentIdBytes|),
                  Decoded(|EncodeSegment(f.segment)| + |f.tail|, f.SegmentBody()));
  }

  /** The walk's result once the Segment scan is known. */
  lemma {:induction false} MetadataOfScan(data: seq<Byte>, span: Span, st: ScanState)
    requires SegmentSpan(data) == Ok(span)
    requires ScanSegment(data, span.start, span.end, Found(None, None)) == Ok(st)
    ensures MetadataOf(data) == Finish(st.found)
  {
  }

  /** The walk over bytes that start with a laid-out file returns what the
      fold over its Segment children finds, reported by Finish: whenever
      the Segment holds elements only, and whatever follows the children
      once both values have been found. Bytes after the Segment are never
      read. */
  lemma {:induction false} MetadataOfFile(data: seq<Byte>, f: MkvFile)
    requires f.WellFormed() && IsAt(data, 0, f.Encode())
    ensures var fold := SegmentFold(f.segment, Found(None, None));
      f.tail == [] || fold.Complete() ==> MetadataOf(data) == Finish(fold)
  {
    var fold := SegmentFold(f.segment, Found(None, None));
    if f.tail == [] || fold.Complete() {
      FileSpanAt(data, f);
      var span := Span(f.SegmentBody(), f.SegmentBody() + (|EncodeSegment(f.segment)| + |f.tail|));
      EncodeSegmentLength(f.segment);
      ScanSegmentOfChildren(data, span.start, span.end, f.segment, Found(None, None));
      MetadataOfScan(data, span, ScanSegment(data, span.start, span.end, Found(None, None)).value);
    }
  }
}
