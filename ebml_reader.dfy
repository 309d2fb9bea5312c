/** The stream side of the primitive decoders: a reader over the file's
    bytes with a current position, and `read_vint` / `read_element_id` as
    the step-by-step loops of the Rust code, each proved to compute the
    corresponding function of module Ebml. */
module EbmlReader {
  import opened Wrappers
  import opened Ebml

  /** In-memory stand-in for the buffered file reader: the bytes of the file
      and the stream position. The position may lie past the end after a
      seek; only reads fail there. */
  class Reader {
    const data: seq<Byte>
    var pos: nat

    constructor (bytes: seq<Byte>)
      ensures data == bytes && pos == 0
    {
      data := bytes;
      pos := 0;
    }

    /** `read_exact` of `n` bytes. */
    method ReadExact(n: nat) returns (r: Result<seq<Byte>, MkvError>)
      modifies this
      ensures r == ReadAt(data, old(pos), n)
      ensures pos == if r.Ok? then old(pos) + n else old(pos)
    {
      if n == 0 {
        r := Ok([]);
      } else if pos + n <= |data| {
        r := Ok(data[pos..pos + n]);
        pos := pos + n;
      } else {
        r := Err(UnexpectedEof);
      }
    }

    /** `seek(SeekFrom::Current(offset))`: only moves the position; the
        offset is a decoded size, below 2^56, so the i64 cast keeps it. */
    method Seek(offset: nat)
      modifies this
      ensures pos == old(pos) + offset
    {
      pos := pos + offset;
    }

    /** `read_vint`: find the marker by testing bits 0x80, 0x40, ... of the
        first byte, clear the marker and the bits above it, then append the
        remaining bytes big-endian. */
    method ReadVint() returns (r: Result<nat, MkvError>)
      modifies this
      ensures var d := VintAt(data, old(pos));
        (d.Ok? ==> r == Ok(d.value.value) && pos == d.value.next) &&
        (d.Err? ==> r == Err(d.error))
      ensures r == Err(InvalidVint) ==> pos == old(pos) + 1
    {
      var firstByte :- ReadExact(1);
      var first := firstByte[0];
      assert first == data[old(pos)];
      var length: nat := 0;
      var value: nat := 0;
      var marker := 0x80;
      Pow2Small();
      for i := 0 to 8
        invariant i < 8 ==> marker == Pow2(7 - i)
        invariant first < Pow2(8 - i)
        invariant length == 0 && pos == old(pos) + 1
      {
        // `first_byte & (0x80 >> i) != 0`, with no higher bit set
        if (first / marker) % 2 == 1 {
          BitBelowBound(first, marker);
          VintLengthOfRange(first, i + 1);
          length := i + 1;
          // `first_byte & !(0xFF << (8 - length))`: the low 8 - length bits
          value := first % marker;
          ModOfRange(first, marker);
          break;
        }
        BitBelowBound(first, marker);
        marker := marker / 2;
      }
      if length == 0 {
        return Err(InvalidVint);
      }
      VintLengthRange(first);
      assert length == VintLength(first) && value == first - VintMarker(first);
      var rest :- ReadExact(length - 1);
      assert forall k :: 0 <= k < |rest| ==> rest[k] == data[old(pos) + 1 + k];
      ghost var top := value;
      for k := 0 to |rest|
        invariant BeFold(value, data, old(pos) + 1 + k, old(pos) + length)
               == BeFold(top, data, old(pos) + 1, old(pos) + length)
      {
        value := value * 256 + rest[k];
      }
      r := Ok(value);
    }

    /** `read_element_id`: the class of the ID is the first of the bits 0x80,
        0x40, 0x20, 0x10 that is set; the marker stays in the value and the
        remaining bytes are appended one read at a time. */
    method ReadElementId() returns (r: Result<nat, MkvError>)
      modifies this
      ensures var d := IdAt(data, old(pos));
        (d.Ok? ==> r == Ok(d.value.value) && pos == d.value.next) &&
        (d.Err? ==> r == Err(d.error))
    {
      var idByte :- ReadExact(1);
      var elementId: nat := idByte[0];
      assert elementId == data[old(pos)];
      var bytesToRead: nat;
      BitBelowBound(elementId, 0x80);
      if (elementId / 0x80) % 2 == 1 {
        bytesToRead := 0;
      } else {
        BitBelowBound(elementId, 0x40);
        if (elementId / 0x40) % 2 == 1 {
          bytesToRead := 1;
        } else {
          BitBelowBound(elementId, 0x20);
          if (elementId / 0x20) % 2 == 1 {
            bytesToRead := 2;
          } else {
            BitBelowBound(elementId, 0x10);
            if (elementId / 0x10) % 2 == 1 {
              bytesToRead := 3;
            } else {
              return Err(InvalidElementId);
            }
          }
        }
      }
      assert IdLength(data[old(pos)]) == bytesToRead + 1;
      ghost var end := old(pos) + 1 + bytesToRead;
      for j := 0 to bytesToRead
        invariant pos == old(pos) + 1 + j <= |data|
        invariant end <= |data| ==>
          BeFold(elementId, data, pos, end) == BeFold(data[old(pos)], data, old(pos) + 1, end)
      {
        var b :- ReadExact(1);
        elementId := elementId * 256 + b[0];
      }
      r := Ok(elementId);
    }
  }

  /** A bit test at the top of the remaining range: with `b < 2 * m`, bit
      `m` of `b` is set exactly when `b >= m`. */
  lemma {:induction false} BitBelowBound(b: nat, m: nat)
    requires 0 < m && b < 2 * m
    ensures (b / m) % 2 == 1 <==> b >= m
  {
    if b >= m {
      assert b / m == 1;
    } else {
      assert b / m == 0;
    }
  }
}
