/** The interference overlay: one pass over a width x height RGBA byte buffer
    that paints each pixel by the wave sum at that pixel. The sum itself (sines
    of distances to every emitter) is a parameter of the pass. */
module FieldRenderer {

  /** One channel value of the canvas image buffer. */
  newtype byte = v: int | 0 <= v < 256

  /** Below this absolute sum a pixel is a destructive-interference pixel. */
  const DestructiveThreshold: real := 0.1
  /** Above this absolute sum a pixel is a constructive-interference pixel. */
  const ConstructiveThreshold: real := 1.9

  function Abs(v: real): real
  {
    if v < 0.0 then -v else v
  }

  /** The four bytes (red, green, blue, alpha) a pixel holds after the pass:
      opaque blue, opaque red, or the fully transparent zeros the fresh buffer
      started with. */
  function PixelBytes(v: real): (b: seq<byte>)
    ensures |b| == 4
  {
    if Abs(v) < DestructiveThreshold then [0, 0, 255, 255]
    else if Abs(v) > ConstructiveThreshold then [255, 0, 0, 255]
    else [0, 0, 0, 0]
  }

  /** Each of the three colours is chosen exactly in its band of the
      absolute sum: opaque blue below 0.1, opaque red above 1.9, transparent
      zeros from 0.1 to 1.9. */
  lemma PixelColours(v: real)
    ensures PixelBytes(v) == [0, 0, 255, 255] <==> Abs(v) < DestructiveThreshold
    ensures PixelBytes(v) == [255, 0, 0, 255] <==> Abs(v) > ConstructiveThreshold
    ensures PixelBytes(v) == [0, 0, 0, 0] <==> DestructiveThreshold <= Abs(v) <= ConstructiveThreshold
  {
    var b := PixelBytes(v);
    if Abs(v) < DestructiveThreshold {
      assert b[0] == 0 && b[2] == 255;
    } else if Abs(v) > ConstructiveThreshold {
      assert b[0] == 255;
    } else {
      assert b[3] == 0;
    }
  }

  lemma MulMonotone(a: nat, b: nat, w: nat)
    requires a <= b
    ensures a * w <= b * w
  {
  }

  /** Offset of the red byte of pixel (x, y) in a buffer of h rows of w pixels:
      a multiple of 4 whose whole 4-byte slot lies inside the buffer. */
  function PixelIndex(w: nat, h: nat, x: nat, y: nat): (i: nat)
    requires x < w && y < h
    ensures i % 4 == 0 && i + 3 < w * h * 4
  {
    MulMonotone(y + 1, h, w);
    (y * w + x) * 4
  }

  /** Distinct pixels own disjoint 4-byte slots. */
  lemma PixelSlotsDisjoint(w: nat, h: nat, x1: nat, y1: nat, x2: nat, y2: nat)
    requires x1 < w && y1 < h && x2 < w && y2 < h
    requires x1 != x2 || y1 != y2
    ensures PixelIndex(w, h, x1, y1) + 3 < PixelIndex(w, h, x2, y2) ||
            PixelIndex(w, h, x2, y2) + 3 < PixelIndex(w, h, x1, y1)
  {
    if y1 < y2 {
      EarlierRowFirst(w, x1, y1, x2, y2);
    } else if y2 < y1 {
      EarlierRowFirst(w, x2, y2, x1, y1);
    }
  }

  /** Every pixel of an earlier row comes before every pixel of a later one. */
  lemma EarlierRowFirst(w: nat, x1: nat, y1: nat, x2: nat, y2: nat)
    requires x1 < w && y1 < y2
    ensures y1 * w + x1 < y2 * w + x2
  {
    MulMonotone(y1 + 1, y2, w);
    assert (y1 + 1) * w == y1 * w + w;
  }

  /** The bytes of the first n pixels of row y, left to right. */
  function RowBytes(n: nat, y: nat, sum: (int, int) -> real): (b: seq<byte>)
    ensures |b| == n * 4
    decreases n
  {
    if n == 0 then [] else RowBytes(n - 1, y, sum) + PixelBytes(sum(n - 1, y))
  }

  /** The buffer the pass leaves: h rows of w pixels, top row first, four
      bytes per pixel. */
  function Field(w: nat, h: nat, sum: (int, int) -> real): seq<byte>
    decreases h
  {
    if h == 0 then [] else Field(w, h - 1, sum) + RowBytes(w, h - 1, sum)
  }

  /** The finished buffer holds exactly w * h * 4 bytes. */
  lemma {:induction false} FieldLength(w: nat, h: nat, sum: (int, int) -> real)
    ensures |Field(w, h, sum)| == h * w * 4
    decreases h
  {
    if h > 0 {
      FieldLength(w, h - 1, sum);
      assert h * w * 4 == (h - 1) * w * 4 + w * 4;
    }
  }

  /** Row y, for y below h, ends inside an h-row buffer. */
  lemma RowFits(w: nat, h: nat, y: nat, sum: (int, int) -> real)
    requires y < h
    ensures |Field(w, y, sum)| + w * 4 <= h * w * 4
  {
    FieldLength(w, y, sum);
    MulMonotone(y + 1, h, w);
    assert (y + 1) * w * 4 == y * w * 4 + w * 4;
  }

  /** Pixel x of row y holds its classification in the slot at x * 4 of
      the row's bytes. */
  lemma RowBytesAt(n: nat, y: nat, sum: (int, int) -> real, x: nat)
    requires x < n
    ensures x * 4 + 4 <= |RowBytes(n, y, sum)|
    ensures RowBytes(n, y, sum)[x * 4..x * 4 + 4] == PixelBytes(sum(x, y))
  {
    var last := PixelBytes(sum(x, y));
    assert RowBytes(x + 1, y, sum) == RowBytes(x, y, sum) + last;
    assert last[0..4] == last;
    SlotInRight(RowBytes(x, y, sum), last, 0, last);
    SlotSurvivesPixels(x + 1, n, y, sum, x * 4, last);
  }

  /** A slot among the first m pixels of a row keeps its bytes as the row
      grows to n pixels. */
  lemma {:induction false} SlotSurvivesPixels(m: nat, n: nat, y: nat, sum: (int, int) -> real, i: nat, slot: seq<byte>)
    requires m <= n && i + 4 <= |RowBytes(m, y, sum)| && RowBytes(m, y, sum)[i..i + 4] == slot
    ensures i + 4 <= |RowBytes(n, y, sum)| && RowBytes(n, y, sum)[i..i + 4] == slot
    decreases n - m
  {
    if m < n {
      RowPrefixSlot(m, y, sum, i);
      SlotSurvivesPixels(m + 1, n, y, sum, i, slot);
    }
  }

  /** Appending pixel m to a row leaves the slots of the first m pixels
      alone. */
  lemma RowPrefixSlot(m: nat, y: nat, sum: (int, int) -> real, i: nat)
    requires i + 4 <= |RowBytes(m, y, sum)|
    ensures i + 4 <= |RowBytes(m + 1, y, sum)|
    ensures RowBytes(m + 1, y, sum)[i..i + 4] == RowBytes(m, y, sum)[i..i + 4]
  {
    var last := PixelBytes(sum(m, y));
    assert RowBytes(m + 1, y, sum) == RowBytes(m, y, sum) + last;
    SlotInLeft(RowBytes(m, y, sum), last, i, RowBytes(m, y, sum)[i..i + 4]);
  }

  /** A slot among the first k rows keeps its bytes as the buffer grows to h
      rows. */
  lemma {:induction false} SlotSurvivesRows(w: nat, k: nat, h: nat, sum: (int, int) -> real, i: nat, slot: seq<byte>)
    requires k <= h && i + 4 <= |Field(w, k, sum)| && Field(w, k, sum)[i..i + 4] == slot
    ensures i + 4 <= |Field(w, h, sum)| && Field(w, h, sum)[i..i + 4] == slot
    decreases h - k
  {
    if k < h {
      assert Field(w, k + 1, sum) == Field(w, k, sum) + RowBytes(w, k, sum);
      SlotInLeft(Field(w, k, sum), RowBytes(w, k, sum), i, slot);
      SlotSurvivesRows(w, k + 1, h, sum, i, slot);
    }
  }

  /** Pixel (x, y) of an h-row buffer holds the bytes of its classification
      in the four-byte slot starting at (y * w + x) * 4. */
  lemma FieldSlot(w: nat, h: nat, sum: (int, int) -> real, x: nat, y: nat)
    requires x < w && y < h
    ensures var i := (y * w + x) * 4;
      i + 4 <= |Field(w, h, sum)| && Field(w, h, sum)[i..i + 4] == PixelBytes(sum(x, y))
  {
    LastRowSlot(w, y, sum, x);
    SlotSurvivesRows(w, y + 1, h, sum, (y * w + x) * 4, PixelBytes(sum(x, y)));
  }

  /** Pixel (x, y) sits in the row that extends the first y rows to y + 1. */
  lemma LastRowSlot(w: nat, y: nat, sum: (int, int) -> real, x: nat)
    requires x < w
    ensures var i := (y * w + x) * 4;
      i + 4 <= |Field(w, y + 1, sum)| && Field(w, y + 1, sum)[i..i + 4] == PixelBytes(sum(x, y))
  {
    var i := (y * w + x) * 4;
    var upper := Field(w, y, sum);
    var row := RowBytes(w, y, sum);
    assert Field(w, y + 1, sum) == upper + row;
    FieldLength(w, y, sum);
    PixelOffset(w, x, y);
    RowBytesAt(w, y, sum, x);
    SlotInRight(upper, row, x * 4, PixelBytes(sum(x, y)));
  }

  /** A four-byte slot of `a` keeps its bytes when `b` is appended. */
  lemma SlotInLeft(a: seq<byte>, b: seq<byte>, i: nat, slot: seq<byte>)
    requires i + 4 <= |a| && a[i..i + 4] == slot
    ensures i + 4 <= |a + b| && (a + b)[i..i + 4] == slot
  {
    assert (a + b)[i..i + 4] == a[i..i + 4];
  }

  /** A four-byte slot of `b` moves up by |a| when `b` follows `a`. */
  lemma SlotInRight(a: seq<byte>, b: seq<byte>, i: nat, slot: seq<byte>)
    requires i + 4 <= |b| && b[i..i + 4] == slot
    ensures |a| + i + 4 <= |a + b| && (a + b)[|a| + i..|a| + i + 4] == slot
  {
    assert (a + b)[|a| + i..|a| + i + 4] == b[i..i + 4];
  }

  /** The slot of pixel (x, y) in the finished buffer holds opaque blue when
      the absolute sum there is below 0.1, opaque red when it is above 1.9,
      and otherwise the initial transparent zeros. */
  lemma FieldPixel(w: nat, h: nat, sum: (int, int) -> real, x: nat, y: nat)
    requires x < w && y < h
    ensures var i := PixelIndex(w, h, x, y);
      |Field(w, h, sum)| == w * h * 4 &&
      (Abs(sum(x, y)) < 0.1 ==> Field(w, h, sum)[i..i + 4] == [0, 0, 255, 255]) &&
      (Abs(sum(x, y)) > 1.9 ==> Field(w, h, sum)[i..i + 4] == [255, 0, 0, 255]) &&
      (0.1 <= Abs(sum(x, y)) <= 1.9 ==> Field(w, h, sum)[i..i + 4] == [0, 0, 0, 0])
  {
    FieldLength(w, h, sum);
    FieldSlot(w, h, sum, x, y);
  }

  /** n transparent bytes: the content of a freshly created image buffer. */
  function Zeros(n: nat): (z: seq<byte>)
    ensures |z| == n
  {
    seq(n, _ => 0)
  }

  /** Writing the four bytes b over the first four zeros after `done`. */
  lemma WriteSlot(done: seq<byte>, m: nat, b: seq<byte>)
    requires |b| == 4 && 4 <= m
    ensures (done + Zeros(m))[|done| := b[0]][|done| + 1 := b[1]][|done| + 2 := b[2]][|done| + 3 := b[3]]
            == done + b + Zeros(m - 4)
  {
  }

  /** Leaving the four zeros after `done` alone. */
  lemma KeepSlot(done: seq<byte>, m: nat)
    requires 4 <= m
    ensures done + Zeros(m) == done + [0, 0, 0, 0] + Zeros(m - 4)
  {
  }

  lemma PixelOffset(w: nat, x: nat, y: nat)
    ensures (y * w + x) * 4 == y * w * 4 + x * 4
  {
  }

  /** Appending pixel x of row y extends the first x pixels to the first x + 1. */
  lemma RowStep(above: seq<byte>, x: nat, y: nat, sum: (int, int) -> real)
    ensures above + RowBytes(x, y, sum) + PixelBytes(sum(x, y)) == above + RowBytes(x + 1, y, sum)
  {
    assert RowBytes(x + 1, y, sum) == RowBytes(x, y, sum) + PixelBytes(sum(x, y));
  }

  /** The classification of one pixel, written into the still transparent
      slot at `index` right after the `done` bytes: blue or red bytes, or
      nothing at all. */
  method PaintPixel(data: array<byte>, index: nat, s: real, ghost done: seq<byte>, ghost rest: nat)
    requires data[..] == done + Zeros(rest) && index == |done| && 4 <= rest
    modifies data
    ensures data[..] == done + PixelBytes(s) + Zeros(rest - 4)
  {
    ghost var before := data[..];
    if Abs(s) < DestructiveThreshold {
      data[index] := 0;
      data[index + 1] := 0;
      data[index + 2] := 255;
      data[index + 3] := 255;
      assert data[..] == before[index := 0][index + 1 := 0][index + 2 := 255][index + 3 := 255];
      WriteSlot(done, rest, PixelBytes(s));
    } else if Abs(s) > ConstructiveThreshold {
      data[index] := 255;
      data[index + 1] := 0;
      data[index + 2] := 0;
      data[index + 3] := 255;
      assert data[..] == before[index := 255][index + 1 := 0][index + 2 := 0][index + 3 := 255];
      WriteSlot(done, rest, PixelBytes(s));
    } else {
      KeepSlot(done, rest);
    }
  }

  /** The inner loop of the pass, over the w pixels of row y: the rows
      before it are done and every byte after them is still zero; afterwards
      row y is done as well. */
  method PaintRow(data: array<byte>, w: nat, h: nat, y: nat, sum: (int, int) -> real)
    requires y < h
    requires |Field(w, y, sum)| + w * 4 <= data.Length
    requires data[..] == Field(w, y, sum) + Zeros(data.Length - |Field(w, y, sum)|)
    modifies data
    ensures |Field(w, y + 1, sum)| <= data.Length
    ensures data[..] == Field(w, y + 1, sum) + Zeros(data.Length - |Field(w, y + 1, sum)|)
  {
    var x := 0;
    ghost var above := Field(w, y, sum);
    ghost var start := |above|;
    FieldLength(w, y, sum);
    ghost var done := above;
    ghost var rest := data.Length - start;
    while x < w
      invariant 0 <= x <= w
      invariant done == above + RowBytes(x, y, sum)
      invariant |done| == start + x * 4 && rest == data.Length - start - x * 4
      invariant data[..] == done + Zeros(rest)
    {
      var index := PixelIndex(w, h, x, y);
      PixelOffset(w, x, y);
      PaintPixel(data, index, sum(x, y), done, rest);
      RowStep(above, x, y, sum);
      done := done + PixelBytes(sum(x, y));
      rest := rest - 4;
      x := x + 1;
    }
    assert done == Field(w, y + 1, sum);
  }

  /** `createImageData(w, h)` as the HTML Canvas 2D Context standard defines
      it: a zero width or height raises an IndexSizeError (here: null);
      otherwise a fresh buffer of w * h * 4 bytes, every one of them zero
      (transparent black). */
  method CreateImageData(w: nat, h: nat) returns (data: array?<byte>)
    ensures data == null <==> w == 0 || h == 0
    ensures data != null ==> fresh(data) && data[..] == Zeros(w * h * 4)
  {
    if w == 0 || h == 0 {
      data := null;
    } else {
      data := new byte[w * h * 4](_ => 0);
    }
  }

  /** The nested loops of the pass over a still transparent buffer of h rows
      of w pixels: painting it row by row, top to bottom, leaves `Field`. */
  method PaintField(data: array<byte>, w: nat, h: nat, sum: (int, int) -> real)
    requires data[..] == Zeros(w * h * 4)
    modifies data
    ensures data[..] == Field(w, h, sum)
  {
    assert data[..] == Field(w, 0, sum) + Zeros(data.Length - |Field(w, 0, sum)|);
    var y := 0;
    while y < h
      invariant 0 <= y <= h
      invariant |Field(w, y, sum)| <= data.Length
      invariant data[..] == Field(w, y, sum) + Zeros(data.Length - |Field(w, y, sum)|)
    {
      RowFits(w, h, y, sum);
      PaintRow(data, w, h, y, sum);
      y := y + 1;
    }
    FieldLength(w, h, sum);
    assert data[..] == Field(w, h, sum) + Zeros(0);
  }

  /** The classification pass: allocate a transparent buffer and paint it.
      When the allocation throws, the pass stops there and nothing is painted
      (null). */
  method DrawInterference(w: nat, h: nat, sum: (int, int) -> real) returns (data: array?<byte>)
    ensures data == null <==> w == 0 || h == 0
    ensures data != null ==> fresh(data) && data[..] == Field(w, h, sum)
  {
    data := CreateImageData(w, h);
    if data != null {
      PaintField(data, w, h, sum);
    }
  }
}
