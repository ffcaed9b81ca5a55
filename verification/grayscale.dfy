/** Quantisation of an 8-bit grayscale image to 16 levels and packing of two
    4-bit samples per byte, as done by `convert_to_4bit_grayscale`, together
    with a reference unpacker that states what the packing preserves. */
module Grayscale {
  import opened Bytes
  import opened Sequences
  import opened Wrappers

  /** `TARGET_WIDTH` and `TARGET_HEIGHT`: the default size images are resized to. */
  const TargetWidth: nat := 300
  const TargetHeight: nat := 396

  /** `g` has `height` rows of `width` samples each. */
  predicate IsGrid(g: seq<seq<byte>>, width: nat, height: nat) {
    |g| == height && forall y :: 0 <= y < |g| ==> |g[y]| == width
  }

  /** A sample fits in four bits. */
  predicate IsNibble(v: byte) {
    v < 16
  }

  /** Every row has an even number of samples and every sample fits in four bits. */
  predicate IsPackable(q: seq<seq<byte>>) {
    (forall y :: 0 <= y < |q| ==> |q[y]| % 2 == 0) &&
    (forall y, x :: 0 <= y < |q| && 0 <= x < |q[y]| ==> IsNibble(q[y][x]))
  }

  /** The quantisation `gray // 16`: each 8-bit sample is replaced by the index
      of the 16-wide band of gray values that contains it. */
  function Quantize(gray: seq<seq<byte>>): (q: seq<seq<byte>>)
    ensures |q| == |gray|
    ensures forall y :: 0 <= y < |q| ==> |q[y]| == |gray[y]|
    ensures forall y, x :: 0 <= y < |q| && 0 <= x < |q[y]| ==>
      IsNibble(q[y][x]) && q[y][x] as int * 16 <= gray[y][x] as int < q[y][x] as int * 16 + 16
  {
    seq(|gray|, y requires 0 <= y < |gray| =>
      seq(|gray[y]|, x requires 0 <= x < |gray[y]| => gray[y][x] / 16))
  }

  /** The high nibble of a byte, `b >> 4`. */
  function High(b: byte): (v: byte)
    ensures IsNibble(v)
  {
    b / 16
  }

  /** The low nibble of a byte, `b & 0xF`. */
  function Low(b: byte): (v: byte)
    ensures IsNibble(v)
  {
    b % 16
  }

  /** `(hi << 4) | lo`: the first pixel in the high nibble, the second in the low. */
  function PackPair(hi: byte, lo: byte): (b: byte)
    requires IsNibble(hi) && IsNibble(lo)
    ensures High(b) == hi && Low(b) == lo
  {
    hi * 16 + lo
  }

  /** On 8-bit values, the source's shift-or and shift/mask are the arithmetic used here:
      `(hi << 4) | lo == hi * 16 + lo`, `b >> 4 == b / 16`, `b & 0xF == b % 16`. */
  lemma NibbleArithmeticIsBitwise(hi: bv8, lo: bv8, b: bv8)
    requires hi < 16 && lo < 16
    ensures (hi << 4) | lo == hi * 16 + lo
    ensures b >> 4 == b / 16 && b & 0xF == b % 16
  {
  }

  /** The source's `(pixel1 << 4) | pixel2` on 8-bit nibbles is `PackPair` of the same values. */
  lemma ShiftOrIsPackPair(hi: bv8, lo: bv8)
    requires hi < 16 && lo < 16
    ensures ((hi << 4) | lo) as int == PackPair(hi as int as byte, lo as int as byte) as int
  {
    NibbleArithmeticIsBitwise(hi, lo, 0);
  }

  /** `b >> 4` on an 8-bit value is `High` of the same value. */
  lemma ShiftIsHigh(b: bv8)
    ensures (b >> 4) as int == High(b as int as byte) as int
  {
    NibbleArithmeticIsBitwise(0, 0, b);
  }

  /** `b & 0xF` on an 8-bit value is `Low` of the same value. */
  lemma MaskIsLow(b: bv8)
    ensures (b & 0xF) as int == Low(b as int as byte) as int
  {
    NibbleArithmeticIsBitwise(0, 0, b);
  }

  /** A byte is determined by its two nibbles. */
  lemma NibblesDetermineByte(a: byte, b: byte)
    requires High(a) == High(b) && Low(a) == Low(b)
    ensures a == b
  {
    assert a as int == 16 * (High(a) as int) + Low(a) as int;
    assert b as int == 16 * (High(b) as int) + Low(b) as int;
  }

  /** One row packed pair by pair, left to right. */
  function PackRow(row: seq<byte>): (r: seq<byte>)
    requires |row| % 2 == 0
    requires forall x :: 0 <= x < |row| ==> IsNibble(row[x])
    ensures |r| == |row| / 2
    decreases |row|
  {
    if row == [] then [] else [PackPair(row[0], row[1])] + PackRow(row[2..])
  }

  /** Byte `j` of a packed row holds sample `2 * j` in its high nibble and sample
      `2 * j + 1` in its low nibble. */
  lemma {:induction false} PackRowAt(row: seq<byte>, j: nat)
    requires |row| % 2 == 0
    requires forall x :: 0 <= x < |row| ==> IsNibble(row[x])
    requires j < |row| / 2
    ensures High(PackRow(row)[j]) == row[2 * j] && Low(PackRow(row)[j]) == row[2 * j + 1]
    decreases j
  {
    if j > 0 {
      PackRowAt(row[2..], j - 1);
      assert PackRow(row)[j] == PackRow(row[2..])[j - 1];
    }
  }

  /** Reference unpacker for one row: each byte gives its high nibble, then its low nibble. */
  function UnpackRow(bytes: seq<byte>): (row: seq<byte>)
    ensures |row| == 2 * |bytes|
    ensures forall x :: 0 <= x < |row| ==> IsNibble(row[x])
  {
    if bytes == [] then [] else [High(bytes[0]), Low(bytes[0])] + UnpackRow(bytes[1..])
  }

  /** Unpacking a packed row gives the row back. */
  lemma {:induction false} UnpackPackRow(row: seq<byte>)
    requires |row| % 2 == 0
    requires forall x :: 0 <= x < |row| ==> IsNibble(row[x])
    ensures UnpackRow(PackRow(row)) == row
    decreases |row|
  {
    if row != [] {
      var p := PackRow(row);
      assert p[1..] == PackRow(row[2..]);
      UnpackPackRow(row[2..]);
      assert row == [row[0], row[1]] + row[2..];
    }
  }

  /** Packing an unpacked row gives the bytes back: every byte is some pair of samples. */
  lemma {:induction false} PackUnpackRow(bytes: seq<byte>)
    ensures PackRow(UnpackRow(bytes)) == bytes
  {
    if bytes != [] {
      var u := UnpackRow(bytes);
      assert u[2..] == UnpackRow(bytes[1..]);
      PackUnpackRow(bytes[1..]);
      NibblesDetermineByte(PackPair(u[0], u[1]), bytes[0]);
      assert bytes == [bytes[0]] + bytes[1..];
    }
  }

  /** The packed rows, one per row of the image. */
  function PackRows(q: seq<seq<byte>>): (rows: seq<seq<byte>>)
    requires IsPackable(q)
    ensures |rows| == |q|
  {
    seq(|q|, i requires 0 <= i < |q| => PackRow(q[i]))
  }

  /** The packed image: the packed rows in row-major order (the flattened result). */
  function PackImage(q: seq<seq<byte>>): (r: seq<byte>)
    requires IsPackable(q)
  {
    Concat(PackRows(q))
  }

  /** A packed image of `height` rows of `width` samples has `height * (width / 2)` bytes. */
  lemma PackImageLength(q: seq<seq<byte>>, width: nat)
    requires IsGrid(q, width, |q|) && IsPackable(q)
    ensures |PackImage(q)| == GridSize(|q|, width / 2) == |q| * (width / 2)
  {
    ConcatUniformLength(PackRows(q), width / 2);
    GridSizeIsProduct(|q|, width / 2);
  }

  /** Byte `y * (width / 2) + x / 2` of the packed image is samples `(y, x)` and
      `(y, x + 1)` packed, for every even `x`: the first in the high nibble, the
      second in the low one. */
  lemma PackImageAt(q: seq<seq<byte>>, width: nat, y: nat, x: nat)
    requires IsGrid(q, width, |q|) && IsPackable(q)
    requires y < |q| && x < width && x % 2 == 0
    ensures x + 1 < width
    ensures RowMajor(y, x / 2, width / 2) == y * (width / 2) + x / 2
    ensures RowMajor(y, x / 2, width / 2) < |PackImage(q)|
    ensures PackImage(q)[RowMajor(y, x / 2, width / 2)] == PackPair(q[y][x], q[y][x + 1])
  {
    assert |q[y]| == width && width % 2 == 0;
    var k := RowMajor(y, x / 2, width / 2);
    ConcatUniformAt(PackRows(q), width / 2, y, x / 2);
    PackRowAt(q[y], x / 2);
    NibblesDetermineByte(PackImage(q)[k], PackPair(q[y][x], q[y][x + 1]));
    RowMajorSplit(y, x / 2, width / 2);
  }

  /** Reference unpacker for a whole image of `height` rows of `width` samples. */
  function UnpackImage(data: seq<byte>, width: nat, height: nat): (q: seq<seq<byte>>)
    requires |data| == GridSize(height, width / 2)
    ensures IsGrid(q, 2 * (width / 2), height) && IsPackable(q)
  {
    if height == 0 then []
    else
      [UnpackRow(data[..width / 2])] + UnpackImage(data[width / 2..], width, height - 1)
  }

  /** Unpacking the packed image recovers the quantised image exactly. */
  lemma {:induction false} UnpackPackImage(q: seq<seq<byte>>, width: nat)
    requires IsGrid(q, width, |q|) && IsPackable(q) && width % 2 == 0
    ensures |PackImage(q)| == GridSize(|q|, width / 2)
    ensures UnpackImage(PackImage(q), width, |q|) == q
  {
    ConcatUniformLength(PackRows(q), width / 2);
    if q != [] {
      var half := width / 2;
      var rows := PackRows(q);
      assert rows[1..] == PackRows(q[1..]);
      assert PackImage(q) == rows[0] + PackImage(q[1..]);
      UnpackPackRow(q[0]);
      UnpackPackImage(q[1..], width);
      assert q == [q[0]] + q[1..];
    }
  }

  /** Every byte sequence of the right length is the packing of exactly one image of nibbles. */
  lemma {:induction false} PackUnpackImage(data: seq<byte>, width: nat, height: nat)
    requires |data| == GridSize(height, width / 2)
    ensures PackImage(UnpackImage(data, width, height)) == data
    decreases height
  {
    if height != 0 {
      var half := width / 2;
      var row, rest := data[..half], data[half..];
      var u := UnpackImage(data, width, height);
      var tail := UnpackImage(rest, width, height - 1);
      assert u == [UnpackRow(row)] + tail;
      PackUnpackImage(rest, width, height - 1);
      PackUnpackRow(row);
      assert PackRows(u) == [row] + PackRows(tail);
      assert PackRows(u)[1..] == PackRows(tail);
      assert data == row + rest;
    }
  }

  /** What `convert_to_4bit_grayscale` returns: the flattened packed bytes,
      the width and the height. */
  datatype Converted = Converted(data: seq<byte>, width: nat, height: nat)

  /** numpy's IndexError: the odd-width branch writes column `width // 2` of an
      array that has only `width // 2` columns. */
  datatype ConvertError = IndexOutOfBounds

  /** The rows of a two-dimensional array, top to bottom. */
  function Rows(a: array2<byte>): (rows: seq<seq<byte>>)
    reads a
    ensures |rows| == a.Length0
    ensures forall i :: 0 <= i < a.Length0 ==> |rows[i]| == a.Length1
  {
    seq(a.Length0, i requires 0 <= i < a.Length0 reads a =>
      seq(a.Length1, j requires 0 <= j < a.Length1 reads a => a[i, j]))
  }

  /** numpy's `flatten`: the rows of the array laid end to end. */
  function Flatten(a: array2<byte>): (s: seq<byte>)
    reads a
  {
    Concat(Rows(a))
  }

  /** The flattened array has one byte per cell, and cell `(r, c)` lands at the
      row-major index `r * Length1 + c`. */
  lemma FlattenAt(a: array2<byte>, r: nat, c: nat)
    requires r < a.Length0 && c < a.Length1
    ensures |Flatten(a)| == a.Length0 * a.Length1
    ensures RowMajor(r, c, a.Length1) < |Flatten(a)|
    ensures Flatten(a)[RowMajor(r, c, a.Length1)] == a[r, c]
  {
    ConcatUniformLength(Rows(a), a.Length1);
    GridSizeIsProduct(a.Length0, a.Length1);
    ConcatUniformAt(Rows(a), a.Length1, r, c);
  }

  /** An array whose cell `(i, j)` holds samples `2 * j` and `2 * j + 1` of row `i`
      packed, for every cell, flattens to the packed image. */
  lemma FlattenPacked(result: array2<byte>, q: seq<seq<byte>>, width: nat)
    requires IsGrid(q, width, result.Length0) && IsPackable(q) && result.Length1 == width / 2
    requires forall i, j :: 0 <= i < result.Length0 && 0 <= j < result.Length1 ==>
      result[i, j] == PackPair(q[i][2 * j], q[i][2 * j + 1])
    ensures Flatten(result) == PackImage(q)
  {
    var rows := Rows(result);
    forall i | 0 <= i < |q|
      ensures rows[i] == PackRows(q)[i]
    {
      forall j | 0 <= j < width / 2
        ensures rows[i][j] == PackRow(q[i])[j]
      {
        PackRowAt(q[i], j);
        NibblesDetermineByte(rows[i][j], PackRow(q[i])[j]);
      }
    }
    assert rows == PackRows(q);
  }

  /** The inner loop of `convert_to_4bit_grayscale` over row `y`: for each even `x`,
      cell `(y, x // 2)` receives samples `x` and `x + 1` packed. On an odd width the
      last step indexes past the row, which the source reports as an IndexError; the
      cells written before it stay written. */
  method PackRowInto(result: array2<byte>, quantized: seq<seq<byte>>, y: nat, width: nat)
    returns (ok: bool)
    requires y < result.Length0 && result.Length1 == width / 2
    requires y < |quantized| && |quantized[y]| == width
    requires forall x :: 0 <= x < width ==> IsNibble(quantized[y][x])
    modifies result
    ensures ok <==> width % 2 == 0
    ensures ok ==> forall j :: 0 <= j < result.Length1 ==>
      result[y, j] == PackPair(quantized[y][2 * j], quantized[y][2 * j + 1])
    ensures forall i, j :: 0 <= i < result.Length0 && i != y && 0 <= j < result.Length1 ==>
      result[i, j] == old(result[i, j])
  {
    var x := 0;
    while x < width
      invariant x % 2 == 0 && x <= width
      invariant forall j :: 0 <= j < x / 2 ==>
        result[y, j] == PackPair(quantized[y][2 * j], quantized[y][2 * j + 1])
      invariant forall i, j :: 0 <= i < result.Length0 && i != y && 0 <= j < result.Length1 ==>
        result[i, j] == old(result[i, j])
    {
      if x + 1 < width {
        var pixel1 := quantized[y][x];
        var pixel2 := quantized[y][x + 1];
        result[y, x / 2] := PackPair(pixel1, pixel2);
      } else {
        return false;
      }
      x := x + 2;
    }
    return true;
  }

  /** `convert_to_4bit_grayscale` on an image already resized to
      `targetWidth` x `targetHeight` and converted to 8-bit gray. */
  method ConvertTo4BitGrayscale(gray: seq<seq<byte>>, targetWidth: nat, targetHeight: nat)
    returns (r: Result<Converted, ConvertError>)
    requires IsGrid(gray, targetWidth, targetHeight)
    ensures r.Failure? <==> targetWidth % 2 == 1 && targetHeight > 0
    ensures r.Success? ==>
      r.value.width == targetWidth && r.value.height == targetHeight &&
      IsPackable(Quantize(gray)) && r.value.data == PackImage(Quantize(gray)) &&
      |r.value.data| == targetHeight * (targetWidth / 2)
  {
    var quantized := Quantize(gray);
    var half := targetWidth / 2;
    var result := new byte[targetHeight, half]((_, _) => 0);
    for y := 0 to targetHeight
      invariant y > 0 ==> targetWidth % 2 == 0
      invariant forall i, j :: 0 <= i < y && 0 <= j < half ==>
        result[i, j] == PackPair(quantized[i][2 * j], quantized[i][2 * j + 1])
    {
      var ok := PackRowInto(result, quantized, y, targetWidth);
      if !ok {
        return Failure(IndexOutOfBounds);
      }
    }
    FlattenPacked(result, quantized, targetWidth);
    PackImageLength(quantized, targetWidth);
    var data := Flatten(result);
    return Success(Converted(data, targetWidth, targetHeight));
  }
}
