/**
  The grayscale canvas helpers of `pgm.c`: clearing the whole canvas or a
  rectangle of it, and the maximum sample and text header of a binary PGM
  (`P5`) image.
 */
module Pgm {
  import opened Wrappers
  import opened Bytes
  import opened Decimal
  import opened Arith

  /** `pgm_clear`: the first `width * height` bytes become 0, the rest of the buffer is untouched. */
  method Clear(img: array<byte>, width: nat, height: nat)
    requires width * height <= img.Length
    modifies img
    ensures forall i :: 0 <= i < width * height ==> img[i] == 0
    ensures forall i :: width * height <= i < img.Length ==> img[i] == old(img[i])
  {
    forall i | 0 <= i < width * height {
      img[i] := 0;
    }
  }

  /**
    Every index `pgm_clear_region` writes, `y * width + x` for the rows and
    columns of the region, lies inside a buffer of `len` bytes. The source
    does not clip; a region that does not fit is an out-of-bounds write.
   */
  predicate RegionFits(len: nat, width: nat, rw: nat, rh: nat, rx: nat, ry: nat)
  {
    rw == 0 || rh == 0 || (ry + rh - 1) * width + rx + rw <= len
  }

  /**
    Index `k` is one the region's loops write: it lies in the span
    `[y * width + rx, y * width + rx + rw)` of some row `ry <= y < ry + rh`.
   */
  predicate InRegion(k: int, width: nat, rw: nat, rh: nat, rx: nat, ry: nat)
  {
    rh > 0 &&
    (InRegion(k, width, rw, rh - 1, rx, ry) ||
     (ry + rh - 1) * width + rx <= k < (ry + rh - 1) * width + rx + rw)
  }

  /** The spans of the rows before the last one of a fitting region also fit. */
  lemma RowInBounds(len: nat, width: nat, rw: nat, rh: nat, rx: nat, ry: nat, y: nat)
    requires RegionFits(len, width, rw, rh, rx, ry)
    requires ry <= y < ry + rh && rw > 0
    ensures y * width + rx + rw <= len
  {
    MulLe(y, ry + rh - 1, width);
  }

  lemma FewerRowsFit(len: nat, width: nat, rw: nat, rh: nat, rx: nat, ry: nat, n: nat)
    requires RegionFits(len, width, rw, rh, rx, ry) && n <= rh
    ensures RegionFits(len, width, rw, n, rx, ry)
  {
    if rw > 0 && n > 0 {
      RowInBounds(len, width, rw, rh, rx, ry, ry + n - 1);
    }
  }

  /** The buffer after clearing the first `rh` rows of the region, row by row. */
  function ClearedRegion(s: seq<byte>, width: nat, rw: nat, rh: nat, rx: nat, ry: nat): (r: seq<byte>)
    requires RegionFits(|s|, width, rw, rh, rx, ry)
    ensures |r| == |s|
  {
    if rw == 0 || rh == 0 then s
    else
      FewerRowsFit(|s|, width, rw, rh, rx, ry, rh - 1);
      Fill(ClearedRegion(s, width, rw, rh - 1, rx, ry), (ry + rh - 1) * width + rx, rw, 0)
  }

  /** Clearing sets exactly the region's pixels to 0 and leaves every other pixel as it was. */
  lemma {:induction false} ClearedRegionAt(s: seq<byte>, width: nat, rw: nat, rh: nat, rx: nat, ry: nat, k: nat)
    requires RegionFits(|s|, width, rw, rh, rx, ry) && k < |s|
    ensures ClearedRegion(s, width, rw, rh, rx, ry)[k] == if InRegion(k, width, rw, rh, rx, ry) then 0 else s[k]
  {
    if rh > 0 {
      FewerRowsFit(|s|, width, rw, rh, rx, ry, rh - 1);
      ClearedRegionAt(s, width, rw, rh - 1, rx, ry, k);
    }
  }

  /**
    For a region that lies within the rows of the canvas, "in the region" is
    the rectangle `rx <= x < rx + rw`, `ry <= y < ry + rh` of pixel `(x, y)`.
   */
  lemma {:induction false} InRegionCoordinates(k: nat, width: nat, rw: nat, rh: nat, rx: nat, ry: nat)
    requires width > 0 && rx + rw <= width
    ensures InRegion(k, width, rw, rh, rx, ry) <==>
      (rx <= k % width < rx + rw && ry <= k / width < ry + rh)
  {
    if rh > 0 {
      InRegionCoordinates(k, width, rw, rh - 1, rx, ry);
      SpanCoordinates(k, width, ry + rh - 1, rx, rw);
    }
  }

  lemma SpanCoordinates(k: nat, width: nat, y: nat, rx: nat, rw: nat)
    requires width > 0 && rx + rw <= width
    ensures (y * width + rx <= k < y * width + rx + rw) <==>
      (k / width == y && rx <= k % width < rx + rw)
  {
    if y * width + rx <= k < y * width + rx + rw {
      DivUnique(k, width, y, k - y * width);
    }
  }

  /** Clearing a region twice is clearing it once. */
  lemma ClearRegionIdempotent(s: seq<byte>, width: nat, rw: nat, rh: nat, rx: nat, ry: nat)
    requires RegionFits(|s|, width, rw, rh, rx, ry)
    ensures var once := ClearedRegion(s, width, rw, rh, rx, ry);
      ClearedRegion(once, width, rw, rh, rx, ry) == once
  {
    var once := ClearedRegion(s, width, rw, rh, rx, ry);
    var twice := ClearedRegion(once, width, rw, rh, rx, ry);
    forall k | 0 <= k < |s|
      ensures twice[k] == once[k]
    {
      ClearedRegionAt(s, width, rw, rh, rx, ry, k);
      ClearedRegionAt(once, width, rw, rh, rx, ry, k);
    }
  }

  /** An empty region (no columns or no rows) changes nothing. */
  lemma ClearEmptyRegion(s: seq<byte>, width: nat, rw: nat, rh: nat, rx: nat, ry: nat)
    requires rw == 0 || rh == 0
    ensures RegionFits(|s|, width, rw, rh, rx, ry)
    ensures ClearedRegion(s, width, rw, rh, rx, ry) == s
  {
  }

  /** One more write of `v` extends a run by one index. */
  lemma FillStep(s: seq<byte>, start: nat, n: nat, v: byte)
    requires start + n < |s|
    ensures Fill(s, start, n + 1, v) == Fill(s, start, n, v)[start + n := v]
  {
  }

  /** Clearing row `y`, the row after the `n` already cleared, writes that row's span. */
  lemma ClearedRegionStep(s: seq<byte>, width: nat, rw: nat, rh: nat, rx: nat, ry: nat, n: nat, y: nat)
    requires RegionFits(|s|, width, rw, rh, rx, ry) && n < rh && y == ry + n && rw > 0
    ensures RegionFits(|s|, width, rw, n, rx, ry) && RegionFits(|s|, width, rw, n + 1, rx, ry)
    ensures 0 <= y * width && y * width + rx + rw <= |s|
    ensures ClearedRegion(s, width, rw, n + 1, rx, ry)
      == Fill(ClearedRegion(s, width, rw, n, rx, ry), y * width + rx, rw, 0)
  {
    FewerRowsFit(|s|, width, rw, rh, rx, ry, n);
    FewerRowsFit(|s|, width, rw, rh, rx, ry, n + 1);
    RowInBounds(|s|, width, rw, rh, rx, ry, y);
  }

  /** `pgm_clear_region`: the outer loop over the rows of the region. */
  method ClearRegion(img: array<byte>, width: nat, height: nat, rw: nat, rh: nat, rx: nat, ry: nat)
    requires RegionFits(img.Length, width, rw, rh, rx, ry)
    modifies img
    ensures img[..] == ClearedRegion(old(img[..]), width, rw, rh, rx, ry)
  {
    if rw == 0 {
      return;
    }
    var maxY := ry + rh;
    var y := ry;
    while y < maxY
      invariant ry <= y <= maxY
      invariant RegionFits(img.Length, width, rw, y - ry, rx, ry)
      invariant img[..] == ClearedRegion(old(img[..]), width, rw, y - ry, rx, ry)
    {
      ClearNextRow(img, old(img[..]), width, rw, rh, rx, ry, y);
      y := y + 1;
    }
  }

  /** One iteration of the outer loop: row `y`, after the rows above it in the region. */
  method ClearNextRow(img: array<byte>, ghost orig: seq<byte>, width: nat, rw: nat, rh: nat, rx: nat, ry: nat, y: nat)
    requires |orig| == img.Length && RegionFits(|orig|, width, rw, rh, rx, ry)
    requires ry <= y < ry + rh && rw > 0
    requires RegionFits(|orig|, width, rw, y - ry, rx, ry)
    requires img[..] == ClearedRegion(orig, width, rw, y - ry, rx, ry)
    modifies img
    ensures RegionFits(|orig|, width, rw, y + 1 - ry, rx, ry)
    ensures img[..] == ClearedRegion(orig, width, rw, y + 1 - ry, rx, ry)
  {
    ClearedRegionStep(orig, width, rw, rh, rx, ry, y - ry, y);
    ClearRow(img, y * width, rx, rx + rw);
  }

  /** `pgm_clear_region`: the inner loop, zeroing columns `rx <= x < maxX` of the row starting at `row`. */
  method ClearRow(img: array<byte>, row: nat, rx: nat, maxX: nat)
    requires rx <= maxX && row + maxX <= img.Length
    modifies img
    ensures img[..] == Fill(old(img[..]), row + rx, maxX - rx, 0)
  {
    var x := rx;
    while x < maxX
      invariant rx <= x <= maxX
      invariant img[..] == Fill(old(img[..]), row + rx, x - rx, 0)
    {
      FillStep(old(img[..]), row + rx, x - rx, 0);
      img[row + x] := 0;
      x := x + 1;
    }
  }

  /**
    The `max_gray` scan of `pgm_write`: the largest of the `width * height`
    samples, which is 0 for an empty image.
   */
  method MaxGray(img: array<byte>, width: nat, height: nat) returns (maxGray: byte)
    requires width * height <= img.Length
    ensures forall i :: 0 <= i < width * height ==> img[i] <= maxGray
    ensures width * height > 0 ==> exists i :: 0 <= i < width * height && img[i] == maxGray
    ensures width * height == 0 ==> maxGray == 0
  {
    var imgLen := width * height;
    maxGray := 0;
    for i := 0 to imgLen
      invariant forall j :: 0 <= j < i ==> img[j] <= maxGray
      invariant i > 0 ==> exists j :: 0 <= j < i && img[j] == maxGray
      invariant i == 0 ==> maxGray == 0
    {
      if img[i] > maxGray {
        maxGray := img[i];
      }
    }
  }

  /** The header `pgm_write` prints: "P5", the dimensions, then the maximum gray, one per line. */
  function Header(width: nat, height: nat, maxGray: nat): string
  {
    "P5\n" + Digits(width) + " " + Digits(height) + "\n" + Digits(maxGray) + "\n"
  }

  datatype HeaderFields = HeaderFields(width: nat, height: nat, maxGray: nat, dataOffset: nat)

  /** The number of decimal digits in `s` from offset `i` on. */
  function DigitRun(s: string, i: nat): (n: nat)
    requires i <= |s|
    ensures i + n <= |s|
    ensures DigitsIn(s, i, i + n)
    ensures i + n < |s| ==> !IsDigit(s[i + n])
    decreases |s| - i
  {
    if i < |s| && IsDigit(s[i]) then 1 + DigitRun(s, i + 1) else 0
  }

  /**
    Reads the decimal field at offset `i` that ends with `sep`: its value and
    the offset just past the separator.
   */
  function Field(s: string, i: nat, sep: char): Option<(nat, nat)>
  {
    if i > |s| then None
    else
      var j := i + DigitRun(s, i);
      if j == i || j >= |s| || s[j] != sep then None else Some((ValueAt(s, i, j), j + 1))
  }

  /** Reads a `P5` header back: width, height, maximum gray, and where the samples start. */
  function ParseHeader(s: string): Option<HeaderFields>
  {
    if |s| < 3 || s[..3] != "P5\n" then None
    else match Field(s, 3, ' ')
      case None => None
      case Some((w, i)) =>
        match Field(s, i, '\n')
        case None => None
        case Some((h, j)) =>
          match Field(s, j, '\n')
          case None => None
          case Some((m, k)) => Some(HeaderFields(w, h, m, k))
  }

  lemma {:induction false} DigitRunOf(s: string, i: nat, d: string)
    requires i + |d| <= |s| && s[i..i + |d|] == d && AllDigits(d)
    requires i + |d| == |s| || !IsDigit(s[i + |d|])
    ensures DigitRun(s, i) == |d|
    decreases |d|
  {
    if d != [] {
      assert s[i] == d[0];
      assert s[i + 1..i + |d|] == d[1..];
      DigitRunOf(s, i + 1, d[1..]);
    }
  }

  /** A digit string followed by the separator is read back as its value. */
  lemma FieldOf(s: string, i: nat, d: string, sep: char)
    requires i + |d| < |s| && s[i..i + |d|] == d && s[i + |d|] == sep
    requires |d| >= 1 && AllDigits(d) && !IsDigit(sep)
    ensures DigitsIn(s, i, i + |d|)
    ensures Field(s, i, sep) == Some((ValueAt(s, i, i + |d|), i + |d| + 1))
  {
    DigitRunOf(s, i, d);
  }

  /** Where the fields of a laid-out header start. */
  lemma Layout(dw: string, dh: string, dm: string, samples: string)
    ensures var s := "P5\n" + dw + " " + dh + "\n" + dm + "\n" + samples;
      var i := 3 + |dw| + 1;
      var j := i + |dh| + 1;
      j + |dm| + 1 <= |s| && s[..3] == "P5\n"
      && s[3..3 + |dw|] == dw && s[3 + |dw|] == ' '
      && s[i..i + |dh|] == dh && s[i + |dh|] == '\n'
      && s[j..j + |dm|] == dm && s[j + |dm|] == '\n'
  {
  }

  /** A header laid out from three digit strings reads back as their values. */
  lemma ParseLaidOut(dw: string, dh: string, dm: string, samples: string)
    requires |dw| >= 1 && |dh| >= 1 && |dm| >= 1
    requires AllDigits(dw) && AllDigits(dh) && AllDigits(dm)
    ensures var hdr := "P5\n" + dw + " " + dh + "\n" + dm + "\n";
      ParseHeader(hdr + samples) == Some(HeaderFields(Value(dw), Value(dh), Value(dm), |hdr|))
  {
    var hdr := "P5\n" + dw + " " + dh + "\n" + dm + "\n";
    var i := 3 + |dw| + 1;
    var j := i + |dh| + 1;
    assert |hdr| == j + |dm| + 1;
    Layout(dw, dh, dm, samples);
    ParseFields(hdr + samples, dw, i, dh, j, dm, |hdr|);
    ValueAtOf(hdr + samples, 3, dw);
    ValueAtOf(hdr + samples, i, dh);
    ValueAtOf(hdr + samples, j, dm);
  }

  lemma ParseFields(s: string, dw: string, i: nat, dh: string, j: nat, dm: string, k: nat)
    requires |dw| >= 1 && |dh| >= 1 && |dm| >= 1
    requires AllDigits(dw) && AllDigits(dh) && AllDigits(dm)
    requires i == 3 + |dw| + 1 && j == i + |dh| + 1 && k == j + |dm| + 1 && k <= |s|
    requires s[..3] == "P5\n"
    requires s[3..3 + |dw|] == dw && s[3 + |dw|] == ' '
    requires s[i..i + |dh|] == dh && s[i + |dh|] == '\n'
    requires s[j..j + |dm|] == dm && s[j + |dm|] == '\n'
    ensures DigitsIn(s, 3, 3 + |dw|) && DigitsIn(s, i, i + |dh|) && DigitsIn(s, j, j + |dm|)
    ensures ParseHeader(s) == Some(HeaderFields(ValueAt(s, 3, 3 + |dw|), ValueAt(s, i, i + |dh|),
                                                ValueAt(s, j, j + |dm|), k))
  {
    FieldOf(s, 3, dw, ' ');
    FieldOf(s, i, dh, '\n');
    FieldOf(s, j, dm, '\n');
    ParseHeaderOf(s, ValueAt(s, 3, 3 + |dw|), i, ValueAt(s, i, i + |dh|), j, ValueAt(s, j, j + |dm|), k);
  }

  lemma ParseHeaderOf(s: string, w: nat, i: nat, h: nat, j: nat, m: nat, k: nat)
    requires |s| >= 3 && s[..3] == "P5\n"
    requires Field(s, 3, ' ') == Some((w, i))
    requires Field(s, i, '\n') == Some((h, j))
    requires Field(s, j, '\n') == Some((m, k))
    ensures ParseHeader(s) == Some(HeaderFields(w, h, m, k))
  {
  }

  /** A written header reads back as the dimensions and maximum it was written with. */
  lemma HeaderRoundTrip(width: nat, height: nat, maxGray: nat, samples: string)
    ensures ParseHeader(Header(width, height, maxGray) + samples)
      == Some(HeaderFields(width, height, maxGray, |Header(width, height, maxGray)|))
  {
    ParseLaidOut(Digits(width), Digits(height), Digits(maxGray), samples);
    ValueOfDigits(width);
    ValueOfDigits(height);
    ValueOfDigits(maxGray);
  }
}
