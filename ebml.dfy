/** The primitive decoders of the EBML reader (RFC 8794): variable-size
    integers (section 4), Element IDs (section 5) and Element Data Sizes
    (section 6), stated as functions of a byte string and a position.
    The class in EbmlReader runs them step by step on a stream. */
module Ebml {
  import opened Wrappers

  type Byte = b: int | 0 <= b < 256

  /** Everything an extraction can fail with. `UnexpectedEof` is the I/O
      error of a short `read_exact`; `FieldTooLarge` stands for the panic of
      slicing the 8-byte buffer by a larger declared size. */
  datatype MkvError =
    | UnexpectedEof
    | InvalidVint
    | InvalidElementId
    | InvalidMkvFile
    | InvalidSegment
    | FieldTooLarge(size: nat)
    | MissingTimecodeScale
    | MissingDuration

  /** What a decoder yields: the value and the position just after it. */
  datatype Decoded = Decoded(value: nat, next: nat)

  const U64_MODULUS: nat := 0x1_0000_0000_0000_0000

  function Pow2(n: nat): (r: nat)
    ensures r >= 1
  {
    if n == 0 then 1 else 2 * Pow2(n - 1)
  }

  lemma {:induction false} Pow2Add(a: nat, b: nat)
    ensures Pow2(a + b) == Pow2(a) * Pow2(b)
  {
    if a > 0 {
      Pow2Add(a - 1, b);
    }
  }

  lemma {:induction false} Pow2Monotone(a: nat, b: nat)
    requires a <= b
    ensures Pow2(a) <= Pow2(b)
  {
    if a < b {
      Pow2Monotone(a, b - 1);
    }
  }

  lemma {:induction false} Pow2Of8()
    ensures Pow2(8) == 256
  {
    Pow2Small();
  }

  function Pow256(n: nat): (r: nat)
    ensures r >= 1
  {
    if n == 0 then 1 else 256 * Pow256(n - 1)
  }

  /** Eight bytes span the u64 range. */
  lemma {:induction false} Pow256Of8()
    ensures Pow256(8) == U64_MODULUS
  {
    assert Pow256(2) == 65536;
    assert Pow256(4) == 65536 * 65536;
    assert Pow256(8) == 4294967296 * 4294967296;
  }

  lemma {:induction false} Pow256IsPow2(n: nat)
    ensures Pow256(n) == Pow2(8 * n)
  {
    if n > 0 {
      Pow256IsPow2(n - 1);
      Pow2Add(8 * (n - 1), 8);
      Pow2Of8();
    }
  }

  lemma {:induction false} Pow256Monotone(a: nat, b: nat)
    requires a <= b
    ensures Pow256(a) <= Pow256(b)
  {
    if a < b {
      Pow256Monotone(a, b - 1);
    }
  }

  /** The unbounded big-endian value of a byte string. */
  function BeValue(s: seq<Byte>): (r: nat)
    ensures r < Pow256(|s|)
  {
    if s == [] then 0
    else BeValue(s[..|s| - 1]) * 256 + s[|s| - 1]
  }

  /** `bytes_to_u64`: the fold `(acc << 8) | b` over the bytes in a u64,
      whose shift drops the bits pushed past bit 63. */
  function BytesToU64(s: seq<Byte>): (r: nat)
    ensures r < U64_MODULUS
  {
    if s == [] then 0
    else (BytesToU64(s[..|s| - 1]) * 256 + s[|s| - 1]) % U64_MODULUS
  }

  /** Up to 8 bytes nothing is dropped: the u64 fold is the big-endian value,
      below 256 to the power of the length. */
  lemma {:induction false} BytesToU64IsBeValue(s: seq<Byte>)
    requires |s| <= 8
    ensures BytesToU64(s) == BeValue(s) < Pow256(|s|)
  {
    if s != [] {
      BytesToU64IsBeValue(s[..|s| - 1]);
      Pow256Monotone(|s|, 8);
      Pow256Of8();
    }
  }

  /** Appending a byte to at most seven bytes yields `acc * 256 + b`. */
  lemma {:induction false} BytesToU64Append(s: seq<Byte>, b: Byte)
    requires |s| < 8
    ensures BytesToU64(s + [b]) == BytesToU64(s) * 256 + b
  {
    assert (s + [b])[..|s|] == s;
    BytesToU64IsBeValue(s + [b]);
    BytesToU64IsBeValue(s);
  }

  lemma {:induction false} BytesToU64Empty()
    ensures BytesToU64([]) == 0
  {
  }

  /** Prefixing a byte `a` adds `a` times 256 to the power of the rest's length. */
  lemma {:induction false} BeValuePrepend(a: Byte, s: seq<Byte>)
    ensures BeValue([a] + s) == a * Pow256(|s|) + BeValue(s)
  {
    if s == [] {
      assert [a] + s == [a];
      assert [a][..0] == [];
    } else {
      var init := s[..|s| - 1];
      var last := s[|s| - 1];
      assert ([a] + s)[..|s|] == [a] + init;
      assert ([a] + s)[|s|] == last;
      BeValuePrepend(a, init);
      ShiftStep(a, BeValue(init), Pow256(|init|), Pow256(|s|));
    }
  }

  /** `(a p + v) 256 = a P + 256 v` where `P = 256 p`, one digit of a
      big-endian shift. */
  lemma {:induction false} ShiftStep(a: nat, v: nat, p: nat, q: nat)
    requires q == 256 * p
    ensures (a * p + v) * 256 == a * q + v * 256
  {
  }

  /** A slice with at least one byte is its first byte then the rest. */
  lemma {:induction false} SliceCons(data: seq<Byte>, from: nat, to: nat)
    requires from < to <= |data|
    ensures data[from..to] == [data[from]] + data[from + 1..to]
  {
  }

  /** The powers of two below 2^10, for the marker arithmetic. */
  lemma {:induction false} Pow2Small()
    ensures Pow2(0) == 1 && Pow2(1) == 2 && Pow2(2) == 4 && Pow2(3) == 8 && Pow2(4) == 16
    ensures Pow2(5) == 32 && Pow2(6) == 64 && Pow2(7) == 128 && Pow2(8) == 256 && Pow2(9) == 512
  {
    assert Pow2(1) == 2;
    assert Pow2(2) == 4;
    assert Pow2(3) == 8;
    assert Pow2(4) == 16;
    assert Pow2(5) == 32;
    assert Pow2(6) == 64;
    assert Pow2(7) == 128;
    assert Pow2(8) == 256;
  }

  /** The length of a variable-size integer as its first byte announces it
      (RFC 8794, section 4.1): one more than the number of zero bits before the
      first set bit, and 0 when no bit is set. */
  function VintLength(b: Byte): (n: nat)
    ensures n <= 8
    ensures n == 0 <==> b == 0
  {
    if b >= 0x80 then 1
    else if b >= 0x40 then 2
    else if b >= 0x20 then 3
    else if b >= 0x10 then 4
    else if b >= 0x08 then 5
    else if b >= 0x04 then 6
    else if b >= 0x02 then 7
    else if b >= 0x01 then 8
    else 0
  }

  /** The length `read_element_id` gives an ID whose first byte is `b`: the
      same marker rule as for sizes, limited to the four classes `0x80`,
      `0x40`, `0x20` and `0x10`; 0 for a first byte below `0x10`. */
  function IdLength(b: Byte): (n: nat)
    ensures n <= 4
    ensures n == 0 <==> b < 0x10
    ensures n >= 1 ==> n == VintLength(b)
  {
    if b >= 0x80 then 1
    else if b >= 0x40 then 2
    else if b >= 0x20 then 3
    else if b >= 0x10 then 4
    else 0
  }

  /** The marker bit of a size whose first byte is `b`: its leading set
      bit. */
  function VintMarker(b: Byte): (m: nat)
    ensures m <= b
  {
    if b >= 0x80 then 0x80
    else if b >= 0x40 then 0x40
    else if b >= 0x20 then 0x20
    else if b >= 0x10 then 0x10
    else if b >= 0x08 then 0x08
    else if b >= 0x04 then 0x04
    else if b >= 0x02 then 0x02
    else if b >= 0x01 then 0x01
    else 0
  }

  /** The first byte of a vint of length `n` has its marker at bit `8 - n`:
      it lies in [2^(8-n), 2^(9-n)). */
  lemma {:induction false} VintLengthRange(b: Byte)
    ensures var n := VintLength(b); n >= 1 ==> VintMarker(b) == Pow2(8 - n) <= b < Pow2(9 - n)
  {
    Pow2Small();
  }

  /** The length is the one whose marker range holds `b`. */
  lemma {:induction false} VintLengthOfRange(b: Byte, n: nat)
    requires 1 <= n <= 8
    requires Pow2(8 - n) <= b < Pow2(9 - n)
    ensures VintLength(b) == n
  {
    var m := VintLength(b);
    VintLengthRange(b);
    if m < n {
      Pow2Monotone(9 - n, 8 - m);
    } else if m > n {
      Pow2Monotone(9 - m, 8 - n);
    }
  }

  /** `read_exact` of `n` bytes at `pos`: empty reads always succeed. */
  function ReadAt(data: seq<Byte>, pos: nat, n: nat): (r: Result<seq<Byte>, MkvError>)
    ensures r.Ok? <==> n == 0 || pos + n <= |data|
    ensures r.Ok? ==> |r.value| == n
    ensures n == 0 ==> r == Ok([])
    ensures n > 0 && pos + n <= |data| ==> r == Ok(data[pos..pos + n])
    ensures r.Err? ==> r.error == UnexpectedEof
  {
    if n == 0 then Ok([])
    else if pos + n <= |data| then Ok(data[pos..pos + n])
    else Err(UnexpectedEof)
  }

  /** The loop `value = (value << 8) | b` over `data[from..to]`, starting
      from `acc`. */
  function BeFold(acc: nat, data: seq<Byte>, from: nat, to: nat): nat
    requires from <= to <= |data|
    decreases (to as int) - (from as int)
  {
    if from == to then acc else BeFold(acc * 256 + data[from], data, from + 1, to)
  }

  /** The fold shifts `acc` past the folded bytes and adds their value. */
  lemma {:induction false} BeFoldValue(acc: nat, data: seq<Byte>, from: nat, to: nat)
    requires from <= to <= |data|
    decreases (to as int) - (from as int)
    ensures BeFold(acc, data, from, to) == acc * Pow256(to - from) + BeValue(data[from..to])
  {
    if from == to {
      assert data[from..to] == [];
    } else {
      var b := data[from];
      var rest := data[from + 1..to];
      BeFoldValue(acc * 256 + b, data, from + 1, to);
      SliceCons(data, from, to);
      BeValuePrepend(b, rest);
      FoldStep(acc, b, Pow256(to - (from + 1)), Pow256(to - from));
    }
  }

  /** `(256 acc + b) p = acc P + b p` where `P = 256 p`. */
  lemma {:induction false} FoldStep(acc: nat, b: nat, p: nat, q: nat)
    requires q == 256 * p
    ensures (acc * 256 + b) * p == acc * q + b * p
  {
  }

  /** `read_vint` at `pos`: a size-mode variable-size integer, whose marker
      bit and the zero bits before it are cleared from the value. As the
      marker is the highest bit set, clearing it is a subtraction. */
  function VintAt(data: seq<Byte>, pos: nat): (r: Result<Decoded, MkvError>)
    ensures r.Ok? ==> pos < r.value.next <= pos + 8 && r.value.next <= |data|
    ensures r.Err? ==> r.error in {UnexpectedEof, InvalidVint}
  {
    if pos >= |data| then Err(UnexpectedEof)
    else
      var first := data[pos];
      var len := VintLength(first);
      if len == 0 then Err(InvalidVint)
      else if pos + len > |data| then Err(UnexpectedEof)
      else Ok(Decoded(BeFold(first - VintMarker(first), data, pos + 1, pos + len), pos + len))
  }

  /** `read_element_id` at `pos`: an ID-mode read, which keeps the marker. */
  function IdAt(data: seq<Byte>, pos: nat): (r: Result<Decoded, MkvError>)
    ensures r.Ok? ==> pos < r.value.next <= pos + 4 && r.value.next <= |data|
    ensures r.Err? ==> r.error in {UnexpectedEof, InvalidElementId}
  {
    if pos >= |data| then Err(UnexpectedEof)
    else
      var len := IdLength(data[pos]);
      if len == 0 then Err(InvalidElementId)
      else if pos + len > |data| then Err(UnexpectedEof)
      else Ok(Decoded(BeFold(data[pos], data, pos + 1, pos + len), pos + len))
  }

  lemma {:induction false} ModOfRange(x: nat, m: nat)
    requires 0 < m <= x < 2 * m
    ensures x % m == x - m
  {
  }

  /** A first byte whose leading set bit is bit `i` from the top makes the
      size `i + 1` bytes long; its value is the first byte without the marker,
      followed big-endian by the next `i` bytes. */
  lemma {:induction false} VintDecodes(data: seq<Byte>, pos: nat, i: nat)
    requires i < 8 && pos + i + 1 <= |data|
    requires Pow2(7 - i) <= data[pos] < Pow2(8 - i)
    ensures var top: nat := data[pos] - Pow2(7 - i);
      VintAt(data, pos) == Ok(Decoded(top * Pow256(i) + BeValue(data[pos + 1..pos + i + 1]), pos + i + 1))
  {
    var first := data[pos];
    VintLengthOfRange(first, i + 1);
    VintLengthRange(first);
    var acc := first - Pow2(7 - i);
    assert VintAt(data, pos) == Ok(Decoded(BeFold(acc, data, pos + 1, pos + i + 1), pos + i + 1));
    BeFoldValue(acc, data, pos + 1, pos + i + 1);
  }

  /** A first byte 0x00 has no marker: the read fails. */
  lemma {:induction false} VintZero(data: seq<Byte>, pos: nat)
    requires pos < |data| && data[pos] == 0
    ensures VintAt(data, pos) == Err(InvalidVint)
  {
  }

  /** The two ways a size read fails: an invalid encoding exactly at a first
      byte 0x00, end-of-file exactly when the first byte or its continuation
      is missing. */
  lemma {:induction false} VintErrors(data: seq<Byte>, pos: nat)
    ensures VintAt(data, pos) == Err(InvalidVint) <==> pos < |data| && data[pos] == 0
    ensures VintAt(data, pos) == Err(UnexpectedEof) <==>
      pos >= |data| || (data[pos] != 0 && pos + VintLength(data[pos]) > |data|)
  {
  }

  /** The two ways an ID read fails: an invalid ID exactly at a first byte
      below 0x10, end-of-file exactly when the first byte or the rest of the
      ID is missing. */
  lemma {:induction false} IdErrors(data: seq<Byte>, pos: nat)
    ensures IdAt(data, pos) == Err(InvalidElementId) <==> pos < |data| && data[pos] < 0x10
    ensures IdAt(data, pos) == Err(UnexpectedEof) <==>
      pos >= |data| || (data[pos] >= 0x10 && pos + IdLength(data[pos]) > |data|)
  {
  }

  /** A size of `n` bytes carries 7 * n value bits. */
  lemma {:induction false} VintValueBound(data: seq<Byte>, pos: nat)
    requires VintAt(data, pos).Ok?
    ensures var d := VintAt(data, pos).value;
      d.value < Pow2(7 * (d.next - pos))
  {
    var len := VintLength(data[pos]);
    VintLengthRange(data[pos]);
    var top := data[pos] - Pow2(8 - len);
    BeFoldValue(top, data, pos + 1, pos + len);
    BeValuePrepend(top, data[pos + 1..pos + len]);
    MaskedValueBound(top, data[pos + 1..pos + len], len);
  }

  lemma {:induction false} MaskedValueBound(top: Byte, rest: seq<Byte>, len: nat)
    requires 1 <= len <= 8 && |rest| == len - 1
    requires top < Pow2(8 - len)
    ensures BeValue([top] + rest) < Pow2(7 * len)
  {
    var p := Pow256(len - 1);
    BeValuePrepend(top, rest);
    DigitBelow(top, Pow2(8 - len), BeValue(rest), p);
    assert Pow2(8 - len) * p == Pow2(7 * len) by {
      Pow256IsPow2(len - 1);
      Pow2Add(8 - len, 8 * (len - 1));
      assert 8 - len + 8 * (len - 1) == 7 * len;
    }
  }

  /** A leading digit below `x` followed by digits below `p` stays below
      `x * p`. */
  lemma {:induction false} DigitBelow(top: nat, x: nat, rest: nat, p: nat)
    requires top < x && rest < p
    ensures top * p + rest < x * p
  {
    assert (top + 1) * p == top * p + p;
    MulMono(top + 1, x, p);
  }

  lemma {:induction false} MulMono(a: nat, b: nat, c: nat)
    requires a <= b
    ensures a * c <= b * c
  {
  }

  lemma {:induction false} VintExamples()
    ensures VintAt([0x81], 0) == Ok(Decoded(1, 1))
    ensures VintAt([0x40, 0x01], 0) == Ok(Decoded(1, 2))
    ensures VintAt([0x20, 0x00, 0x01], 0) == Ok(Decoded(1, 3))
  {
    Pow2Small();
    VintDecodes([0x81], 0, 0);
    VintDecodes([0x40, 0x01], 0, 1);
    VintDecodes([0x20, 0x00, 0x01], 0, 2);
  }

  /** Every one-byte size `0x80 | n` decodes to `n` and consumes one byte. */
  lemma {:induction false} VintOneByte(n: nat)
    requires n < 0x80
    ensures VintAt([0x80 + n], 0) == Ok(Decoded(n, 1))
  {
    Pow2Small();
    VintDecodes([0x80 + n], 0, 0);
  }

  /** An ID whose first byte has its leading set bit at bit `i` from the top
      (`i` < 4) is `i + 1` bytes long and its value is those bytes unchanged,
      marker included. */
  lemma {:induction false} IdDecodes(data: seq<Byte>, pos: nat, i: nat)
    requires i < 4 && pos + i + 1 <= |data|
    requires Pow2(7 - i) <= data[pos] < Pow2(8 - i)
    ensures IdAt(data, pos)
         == Ok(Decoded(data[pos] * Pow256(i) + BeValue(data[pos + 1..pos + i + 1]), pos + i + 1))
  {
    VintLengthOfRange(data[pos], i + 1);
    BeFoldValue(data[pos], data, pos + 1, pos + i + 1);
  }

  /** An element ID is the big-endian value of its own bytes. */
  lemma {:induction false} IdIsBigEndian(data: seq<Byte>, pos: nat)
    requires IdAt(data, pos).Ok?
    ensures IdAt(data, pos).value.value == BeValue(data[pos..IdAt(data, pos).value.next])
  {
    var next := IdAt(data, pos).value.next;
    BeFoldValue(data[pos], data, pos + 1, next);
    BeValuePrepend(data[pos], data[pos + 1..next]);
    assert data[pos..next] == [data[pos]] + data[pos + 1..next];
  }

  /** A first byte below 0x10 is not an ID. */
  lemma {:induction false} IdBelowMarkers(data: seq<Byte>, pos: nat)
    requires pos < |data| && data[pos] < 0x10
    ensures IdAt(data, pos) == Err(InvalidElementId)
  {
  }

  /** The two modes differ only in the marker: wherever an ID decodes, the
      same bytes decode as a size of the same length, and the ID is that size
      plus the marker bit `2^(7n)` of an `n`-byte encoding. */
  lemma {:induction false} IdIsSizeWithMarker(data: seq<Byte>, pos: nat)
    requires IdAt(data, pos).Ok?
    ensures var id := IdAt(data, pos).value;
      var size := VintAt(data, pos);
      size.Ok? && size.value.next == id.next &&
      id.value == Pow2(7 * (id.next - pos)) + size.value.value
  {
    var i := IdLength(data[pos]) - 1;
    var first := data[pos];
    var rest := BeValue(data[pos + 1..pos + i + 1]);
    var p := Pow256(i);
    var marker := Pow2(7 - i);
    VintLengthRange(first);
    IdDecodes(data, pos, i);
    VintDecodes(data, pos, i);
    assert Pow2(7 * (i + 1)) == marker * p by {
      Pow256IsPow2(i);
      Pow2Add(7 - i, 8 * i);
      assert 7 - i + 8 * i == 7 * (i + 1);
    }
    MulSubDistrib(first, marker, p);
  }

  /** The marker of an `n`-byte vint, 2^(7n), is the first byte's marker
      bit followed by `n - 1` zero bytes. */
  lemma {:induction false} MarkerSplit(len: nat)
    requires 1 <= len <= 8
    ensures Pow2(7 * len) == Pow2(8 - len) * Pow256(len - 1)
    ensures Pow2(7 * len + 1) == Pow2(9 - len) * Pow256(len - 1)
  {
    Pow256IsPow2(len - 1);
    Pow2Add(8 - len, 8 * (len - 1));
    Pow2Add(9 - len, 8 * (len - 1));
    assert 8 - len + 8 * (len - 1) == 7 * len;
  }

  /** A size is the big-endian value of its bytes less the marker. */
  lemma {:induction false} VintIsBigEndian(data: seq<Byte>, pos: nat)
    requires VintAt(data, pos).Ok?
    ensures var d := VintAt(data, pos).value;
      d.value + Pow2(7 * (d.next - pos)) == BeValue(data[pos..d.next])
  {
    var first := data[pos];
    var len := VintLength(first);
    VintLengthRange(first);
    var i := len - 1;
    var rest := data[pos + 1..pos + i + 1];
    var p := Pow256(i);
    var marker := Pow2(7 - i);
    VintDecodes(data, pos, i);
    var value := (first - marker) * p + BeValue(rest);
    assert VintAt(data, pos) == Ok(Decoded(value, pos + len));
    assert BeValue(data[pos..pos + len]) == first * p + BeValue(rest) by {
      assert data[pos..pos + len] == [first] + rest;
      BeValuePrepend(first, rest);
    }
    assert Pow2(7 * len) == marker * p by {
      MarkerSplit(len);
    }
    MulSubDistrib(first, marker, p);
  }

  /** With `r < p`, the digit `b` of `b * p + r` is bounded as the whole is. */
  lemma {:induction false} DigitBounds(b: nat, r: nat, p: nat, lo: nat, hi: nat)
    requires r < p && lo * p <= b * p + r < hi * p
    ensures lo <= b < hi
  {
    assert (b + 1) * p == b * p + p;
    if b + 1 <= lo {
      MulMono(b + 1, lo, p);
    }
    if hi <= b {
      MulMono(hi, b, p);
    }
  }

  /** The first byte of `s` carries the marker of length `|s|` exactly when
      `BeValue(s)` lies in [2^(7|s|), 2^(7|s|+1)). */
  lemma {:induction false} MarkerOfValue(s: seq<Byte>)
    requires 1 <= |s| <= 8
    requires Pow2(7 * |s|) <= BeValue(s) < Pow2(7 * |s| + 1)
    ensures Pow2(8 - |s|) <= s[0] < Pow2(9 - |s|)
  {
    var len := |s|;
    var rest := s[1..];
    assert s == [s[0]] + rest;
    BeValuePrepend(s[0], rest);
    MarkerSplit(len);
    DigitBounds(s[0], BeValue(rest), Pow256(len - 1), Pow2(8 - len), Pow2(9 - len));
  }

  /** Bytes whose big-endian value has the marker of their length decode as
      a size of that length. */
  lemma {:induction false} VintOfValue(s: seq<Byte>)
    requires 1 <= |s| <= 8
    requires Pow2(7 * |s|) <= BeValue(s) < Pow2(7 * |s| + 1)
    ensures VintAt(s, 0) == Ok(Decoded(BeValue(s) - Pow2(7 * |s|), |s|))
  {
    MarkerOfValue(s);
    VintLengthOfRange(s[0], |s|);
    assert s[0..|s|] == s;
    VintIsBigEndian(s, 0);
  }

  /** The same bytes, when at most four, decode as an ID of that length. */
  lemma {:induction false} IdOfValue(s: seq<Byte>)
    requires 1 <= |s| <= 4
    requires Pow2(7 * |s|) <= BeValue(s) < Pow2(7 * |s| + 1)
    ensures IdAt(s, 0) == Ok(Decoded(BeValue(s), |s|))
  {
    MarkerOfValue(s);
    VintLengthOfRange(s[0], |s|);
    Pow2Monotone(4, 8 - |s|);
    Pow2Small();
    assert s[0..|s|] == s;
    IdIsBigEndian(s, 0);
  }

  lemma {:induction false} MulSubDistrib(a: int, b: int, c: int)
    ensures a * c == (a - b) * c + b * c
  {
  }

  lemma {:induction false} IdExamples()
    ensures IdAt([0x40, 0x00], 0) == Ok(Decoded(0x4000, 2))
    ensures IdAt([0x20, 0x00, 0x00], 0) == Ok(Decoded(0x200000, 3))
  {
    Pow2Small();
    assert Pow256(2) == 0x10000;
    IdDecodes([0x40, 0x00], 0, 1);
    IdDecodes([0x20, 0x00, 0x00], 0, 2);
    assert [0x00, 0x00][..1] == [0x00];
    assert BeValue([0x00, 0x00]) == 0;
  }

  /** The unit test that expects the single byte 0x1A to be a complete ID
      disagrees with the code: 0x1A has its leading set bit at 0x10, so three
      more bytes are needed and the read fails at the end of input. */
  lemma {:induction false} IdSingle0x1AIsTruncated()
    ensures IdAt([0x1A], 0) == Err(UnexpectedEof)
  {
  }
}
