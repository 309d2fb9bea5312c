/** The encoding side of EBML (RFC 8794): writing an unsigned value as
    big-endian bytes, an element size as a vint and an element ID with its
    marker kept. Each writer is the inverse of a decoder of module Ebml, and
    the decoders read the same wherever their bytes are placed. */
module EbmlEncoding {
  import opened Wrappers
  import opened Ebml

  /** `s` occurs in `data` starting at `pos`. */
  predicate IsAt(data: seq<Byte>, pos: nat, s: seq<Byte>)
  {
    pos + |s| <= |data| && forall i :: 0 <= i < |s| ==> data[pos + i] == s[i]
  }

  /** The slice of `data` at `pos` with the length of `s` is `s`. */
  lemma {:induction false} IsAtSlice(data: seq<Byte>, pos: nat, s: seq<Byte>)
    requires IsAt(data, pos, s)
    ensures data[pos..pos + |s|] == s
  {
    forall i | 0 <= i < |s|
      ensures data[pos..pos + |s|][i] == s[i]
    {
      assert s[i] == data[pos + i];
    }
  }

  /** An occurrence of `a + b` is one of `a` followed by one of `b`, which
      starts at `mid`. */
  lemma {:induction false} IsAtSplit(data: seq<Byte>, pos: nat, a: seq<Byte>, b: seq<Byte>, mid: nat)
    requires IsAt(data, pos, a + b) && mid == pos + |a|
    ensures IsAt(data, pos, a) && IsAt(data, mid, b)
  {
    forall i | 0 <= i < |a|
      ensures data[pos + i] == a[i]
    {
      assert (a + b)[i] == a[i];
    }
    forall i | 0 <= i < |b|
      ensures data[mid + i] == b[i]
    {
      assert (a + b)[|a| + i] == b[i];
    }
  }

  /** The same for three pieces. */
  lemma {:induction false} IsAtSplit3(data: seq<Byte>, pos: nat, a: seq<Byte>, b: seq<Byte>, c: seq<Byte>)
    requires IsAt(data, pos, a + b + c)
    ensures IsAt(data, pos, a) && IsAt(data, pos + |a|, b) && IsAt(data, pos + |a| + |b|, c)
  {
    IsAtSplit(data, pos, a + b, c, pos + |a| + |b|);
    IsAtSplit(data, pos, a, b, pos + |a|);
  }

  lemma {:induction false} BeFoldLocal(acc: nat, data: seq<Byte>, pos: nat, s: seq<Byte>, from: nat, to: nat)
    requires IsAt(data, pos, s) && from <= to <= |s|
    decreases (to as int) - (from as int)
    ensures BeFold(acc, data, pos + from, pos + to) == BeFold(acc, s, from, to)
  {
    if from < to {
      assert s[from] == data[pos + from];
      BeFoldLocal(acc * 256 + s[from], data, pos, s, from + 1, to);
    }
  }

  /** The decoders look only at the bytes they consume: a size read from a
      string reads the same from any string holding it at `pos`. */
  lemma {:induction false} VintAtLocal(data: seq<Byte>, pos: nat, s: seq<Byte>, d: Decoded)
    requires IsAt(data, pos, s) && VintAt(s, 0) == Ok(d)
    ensures VintAt(data, pos) == Ok(Decoded(d.value, pos + d.next))
  {
    var first := s[0];
    var len := VintLength(first);
    assert s[0] == data[pos];
    BeFoldLocal(first - VintMarker(first), data, pos, s, 1, len);
  }

  /** The same for an element ID. */
  lemma {:induction false} IdAtLocal(data: seq<Byte>, pos: nat, s: seq<Byte>, d: Decoded)
    requires IsAt(data, pos, s) && IdAt(s, 0) == Ok(d)
    ensures IdAt(data, pos) == Ok(Decoded(d.value, pos + d.next))
  {
    var len := IdLength(s[0]);
    BeFoldLocal(s[0], data, pos, s, 1, len);
  }

  /** The low `n` bytes of `v`, big-endian: the last byte written last. */
  function BeEncode(v: nat, n: nat): (r: seq<Byte>)
    ensures |r| == n
  {
    if n == 0 then [] else BeEncode(v / 256, n - 1) + [v % 256]
  }

  /** Reading back what BeEncode wrote gives the value. */
  lemma {:induction false} BeEncodeRoundTrip(v: nat, n: nat)
    requires v < Pow256(n)
    ensures BeValue(BeEncode(v, n)) == v
  {
    if n > 0 {
      var s := BeEncode(v, n);
      BeEncodeRoundTrip(v / 256, n - 1);
      assert s[..n - 1] == BeEncode(v / 256, n - 1);
    }
  }

  /** Writing back what BeValue read gives the bytes. */
  lemma {:induction false} BeValueRoundTrip(s: seq<Byte>)
    ensures BeEncode(BeValue(s), |s|) == s
  {
    if s != [] {
      var init := s[..|s| - 1];
      BeValueRoundTrip(init);
      ByteDigits(BeValue(init), s[|s| - 1]);
      assert s == init + [s[|s| - 1]];
    }
  }

  /** Appending a byte to a big-endian number, and taking it off again. */
  lemma {:induction false} ByteDigits(q: nat, b: Byte)
    ensures (q * 256 + b) / 256 == q && (q * 256 + b) % 256 == b
  {
  }

  /** A marker and the value bits below it fit the bytes of the encoding. */
  lemma {:induction false} MarkerFits(len: nat)
    requires 1 <= len
    ensures Pow2(7 * len + 1) == 2 * Pow2(7 * len) <= Pow256(len)
  {
    Pow2Add(7 * len, 1);
    Pow2Small();
    Pow256IsPow2(len);
    Pow2Monotone(7 * len + 1, 8 * len);
  }

  /** A size vint of `len` bytes for a value that fits its `7 * len` data
      bits: the big-endian bytes of the value with the marker bit 2^(7 len)
      set. */
  function EncodeSize(v: nat, len: nat): (r: seq<Byte>)
    ensures |r| == len
  {
    BeEncode(Pow2(7 * len) + v, len)
  }

  /** Decoding a size written by EncodeSize gives the value and its
      length. */
  lemma {:induction false} SizeRoundTrip(v: nat, len: nat)
    requires 1 <= len <= 8 && v < Pow2(7 * len)
    ensures VintAt(EncodeSize(v, len), 0) == Ok(Decoded(v, len))
  {
    MarkerFits(len);
    BeEncodeRoundTrip(Pow2(7 * len) + v, len);
    VintOfValue(EncodeSize(v, len));
  }

  /** Wherever EncodeSize's bytes occur, the size decoder reads the value
      back. */
  lemma {:induction false} SizeAtEncoded(data: seq<Byte>, pos: nat, v: nat, len: nat)
    requires 1 <= len <= 8 && v < Pow2(7 * len) && IsAt(data, pos, EncodeSize(v, len))
    ensures VintAt(data, pos) == Ok(Decoded(v, pos + len))
  {
    SizeRoundTrip(v, len);
    VintAtLocal(data, pos, EncodeSize(v, len), Decoded(v, len));
  }

  /** An element ID of `len` bytes: its first byte has its marker at bit
      `8 - len`, so the value lies in [2^(7 len), 2^(7 len + 1)). */
  predicate IsIdOfLength(id: nat, len: nat)
  {
    1 <= len <= 4 && Pow2(7 * len) <= id < Pow2(7 * len + 1)
  }

  /** An element ID is written as its own big-endian bytes. */
  function EncodeId(id: nat, len: nat): (r: seq<Byte>)
    ensures |r| == len
  {
    BeEncode(id, len)
  }

  /** Decoding an ID written by EncodeId gives the ID and its length. */
  lemma {:induction false} IdRoundTrip(id: nat, len: nat)
    requires IsIdOfLength(id, len)
    ensures IdAt(EncodeId(id, len), 0) == Ok(Decoded(id, len))
  {
    MarkerFits(len);
    BeEncodeRoundTrip(id, len);
    IdOfValue(EncodeId(id, len));
  }

  /** Wherever EncodeId's bytes occur, the ID decoder reads the ID back. */
  lemma {:induction false} IdAtEncoded(data: seq<Byte>, pos: nat, id: nat, len: nat)
    requires IsIdOfLength(id, len) && IsAt(data, pos, EncodeId(id, len))
    ensures IdAt(data, pos) == Ok(Decoded(id, pos + len))
  {
    IdRoundTrip(id, len);
    IdAtLocal(data, pos, EncodeId(id, len), Decoded(id, len));
  }

  /** Conversely, every ID the decoder accepts is of the class its length
      says. */
  lemma {:induction false} IdAtIsOfLength(data: seq<Byte>, pos: nat)
    requires IdAt(data, pos).Ok?
    ensures IsIdOfLength(IdAt(data, pos).value.value, IdAt(data, pos).value.next - pos)
  {
    IdIsSizeWithMarker(data, pos);
    VintValueBound(data, pos);
    var len := IdAt(data, pos).value.next - pos;
    Pow2Add(7 * len, 1);
    Pow2Small();
  }

  /** A size the decoder reads from exactly the bytes `s` is the one
      EncodeSize writes: the encoding of a size of a given length is
      unique. */
  lemma {:induction false} SizeEncodingUnique(s: seq<Byte>, v: nat)
    requires VintAt(s, 0) == Ok(Decoded(v, |s|))
    ensures s == EncodeSize(v, |s|)
  {
    VintIsBigEndian(s, 0);
    assert s[0..|s|] == s;
    BeValueRoundTrip(s);
  }

  /** The same for element IDs. */
  lemma {:induction false} IdEncodingUnique(s: seq<Byte>, id: nat)
    requires IdAt(s, 0) == Ok(Decoded(id, |s|))
    ensures s == EncodeId(id, |s|)
  {
    IdIsBigEndian(s, 0);
    assert s[0..|s|] == s;
    BeValueRoundTrip(s);
  }
}
