/**
 * The raster side of `make_qr_label`: size a 3-channel canvas for a QR
 * module matrix, fill it white, paint every module as a 25 x 25 block,
 * copy the 200 x 200 logo over it and work out where the caption goes.
 *
 * The canvas is an `array2<Pixel>` indexed [row, column] like OpenCV's
 * `Mat::at<Vec3b>(row, col)`. The module matrix comes from the encoder
 * (not part of this model) as a width and row-major bytes.
 */
module Render {

  /** One `Vec3b` pixel: blue, green, red channels. */
  datatype Pixel = Pixel(b: bv8, g: bv8, r: bv8)

  const White := Pixel(0xff, 0xff, 0xff)
  const Black := Pixel(0, 0, 0)

  /** Pixels per module side (`scale`). */
  const Scale := 25
  /** Quiet border around the code on every side (`spacing`). */
  const Spacing := 25
  /** Extra rows below the code kept for the caption. */
  const CaptionBand := 75
  /** Side of the logo after it has been resized at start-up. */
  const LogoSide := 200

  /** The encoder's output: `width` modules per side, `width * width` bytes. */
  datatype QrMatrix = QrMatrix(width: nat, data: seq<bv8>)
  {
    predicate Valid() { |data| == width * width }
  }

  /** The low bit of a module byte marks a dark module. */
  predicate IsDarkModule(m: bv8) { m & 1 != 0 }

  function ModuleColour(m: bv8): (p: Pixel)
    ensures p == Black || p == White
    ensures p == Black <==> IsDarkModule(m)
  {
    if IsDarkModule(m) then Black else White
  }

  /** Canvas width: the module square with a border of `Spacing` on the left and on the right. */
  function CanvasCols(w: nat): (cols: nat)
    ensures cols - Spacing == Spacing + w * Scale && cols >= 2 * Spacing
  {
    2 * Spacing + w * Scale
  }

  /** Canvas height: always the width plus the caption band. */
  function CanvasRows(w: nat): (rows: nat)
    ensures rows - CanvasCols(w) == CaptionBand
  {
    CanvasCols(w) + CaptionBand
  }

  /** C and C++ `a / 2`: truncates toward zero, also for negative `a`. */
  function Half(a: int): (q: int)
    ensures a >= 0 ==> 0 <= 2 * q <= a <= 2 * q + 1
    ensures a < 0 ==> 2 * q - 1 <= a <= 2 * q <= 0
  {
    if a >= 0 then a / 2 else -((-a) / 2)
  }

  /** The square the modules are painted into, in pixel coordinates. */
  predicate InQrArea(w: nat, y: int, x: int)
  {
    Spacing <= y < Spacing + w * Scale && Spacing <= x < Spacing + w * Scale
  }

  lemma ModuleIndexBound(w: nat, col: nat, row: nat)
    requires col < w && row < w
    ensures col * w + row < w * w
  {
    assert col * w <= (w - 1) * w;
  }

  lemma QuotientBelow(k: nat, w: nat)
    requires 0 < w && k < w * w
    ensures k / w < w
  {
  }

  /**
   * The index into the row-major module bytes of the module painted at pixel
   * (y, x). The slow index of the data selects the pixel ROW, as the source's
   * `col` loop does.
   */
  function ModuleIndex(w: nat, y: int, x: int): (k: nat)
    requires InQrArea(w, y, x)
    ensures k < w * w
  {
    ModuleIndexBound(w, (y - Spacing) / Scale, (x - Spacing) / Scale);
    ((y - Spacing) / Scale) * w + (x - Spacing) / Scale
  }

  /** The colour the painter gives pixel (y, x) inside the QR area. */
  function QrPixel(m: QrMatrix, y: int, x: int): (p: Pixel)
    requires m.Valid() && InQrArea(m.width, y, x)
    ensures p == Black || p == White
    ensures p == Black <==> IsDarkModule(m.data[ModuleIndex(m.width, y, x)])
  {
    ModuleColour(m.data[ModuleIndex(m.width, y, x)])
  }

  /**
   * Byte `col * width + row` of the matrix covers pixel rows
   * [25 + 25 col, 25 + 25 col + 25) and pixel columns
   * [25 + 25 row, 25 + 25 row + 25).
   */
  lemma BlockOfModule(m: QrMatrix, col: nat, row: nat, j: nat, i: nat)
    requires m.Valid() && col < m.width && row < m.width && j < Scale && i < Scale
    ensures InQrArea(m.width, Spacing + col * Scale + j, Spacing + row * Scale + i)
    ensures ModuleIndex(m.width, Spacing + col * Scale + j, Spacing + row * Scale + i) == col * m.width + row
    ensures QrPixel(m, Spacing + col * Scale + j, Spacing + row * Scale + i) == ModuleColour(m.data[col * m.width + row])
  {
    var y, x := Spacing + col * Scale + j, Spacing + row * Scale + i;
    assert (y - Spacing) / Scale == col;
    assert (x - Spacing) / Scale == row;
  }

  /**
   * Reading the painted code back: the top-left pixel of the block of byte k
   * is black exactly when byte k marks a dark module.
   */
  lemma PaintedModuleReadsBack(m: QrMatrix, k: nat)
    requires m.Valid() && k < |m.data|
    ensures InQrArea(m.width, Spacing + (k / m.width) * Scale, Spacing + (k % m.width) * Scale)
    ensures QrPixel(m, Spacing + (k / m.width) * Scale, Spacing + (k % m.width) * Scale) == Black
            <==> IsDarkModule(m.data[k])
  {
    var w := m.width;
    assert w > 0;
    var col, row := k / w, k % w;
    QuotientBelow(k, w);
    BlockOfModule(m, col, row, 0, 0);
  }

  /** Pixels in the border and the caption band are never in the QR area. */
  lemma BorderOutsideQrArea(w: nat, y: int, x: int)
    requires 0 <= y < CanvasRows(w) && 0 <= x < CanvasCols(w)
    requires y < Spacing || x < Spacing || y >= CanvasCols(w) - Spacing || x >= CanvasCols(w) - Spacing
    ensures !InQrArea(w, y, x)
  {
  }

  // ---------------------------------------------------------------- canvas

  /**
   * `Mat qr_img(rows, cols, CV_8UC3)` followed by the `memset` to 0xff: a
   * canvas that is 75 rows taller than it is wide, white everywhere.
   */
  method NewCanvas(w: nat) returns (img: array2<Pixel>)
    ensures fresh(img)
    ensures img.Length1 == 2 * Spacing + w * Scale && img.Length0 == img.Length1 + CaptionBand
    ensures forall y, x :: 0 <= y < img.Length0 && 0 <= x < img.Length1 ==> img[y, x] == White
  {
    img := new Pixel[CanvasRows(w), CanvasCols(w)];
    FillWhite(img);
  }

  /** The `memset(data, 0xff, ...)`: every byte of every pixel becomes 0xff. */
  method FillWhite(img: array2<Pixel>)
    modifies img
    ensures forall y, x :: 0 <= y < img.Length0 && 0 <= x < img.Length1 ==> img[y, x] == White
  {
    var y := 0;
    while y < img.Length0
      invariant 0 <= y <= img.Length0
      invariant forall y', x :: 0 <= y' < y && 0 <= x < img.Length1 ==> img[y', x] == White
    {
      var x := 0;
      while x < img.Length1
        invariant 0 <= x <= img.Length1
        invariant forall y', x' :: 0 <= y' < y && 0 <= x' < img.Length1 ==> img[y', x'] == White
        invariant forall x' :: 0 <= x' < x ==> img[y, x'] == White
      {
        img[y, x] := White;
        x := x + 1;
      }
      y := y + 1;
    }
  }

  // --------------------------------------------------------------- painter

  /**
   * The pixels the painter has written once the loops stand at
   * (col, row, i, j): all block rows before `col`, the blocks before `row` in
   * block row `col`, the columns before `i` of block (col, row) and the
   * first `j` pixels of its column `i`.
   */
  ghost predicate Painted(w: nat, col: int, row: int, i: int, j: int, y: int, x: int)
  {
    InQrArea(w, y, x) &&
    (y < Spacing + col * Scale ||
     (y < Spacing + col * Scale + Scale &&
      (x < Spacing + row * Scale + i || (x == Spacing + row * Scale + i && y < Spacing + col * Scale + j))))
  }

  /**
   * The nested loops of `make_qr_label` that walk the module bytes with a
   * cursor (`pSrc`) and paint each one as a Scale x Scale block, black for
   * a dark module and white otherwise. Every pixel of the QR area gets its
   * module's colour; nothing outside it is written. Returns how far the
   * cursor advanced.
   */
  method PaintModules(img: array2<Pixel>, m: QrMatrix) returns (consumed: nat)
    requires m.Valid()
    requires img.Length0 == CanvasRows(m.width) && img.Length1 == CanvasCols(m.width)
    modifies img
    ensures consumed == |m.data|
    ensures forall y, x :: 0 <= y < img.Length0 && 0 <= x < img.Length1 ==>
              img[y, x] == if InQrArea(m.width, y, x) then QrPixel(m, y, x) else old(img[y, x])
  {
    var w := m.width;
    var cursor := 0;
    var col := 0;
    while col < w
      invariant 0 <= col <= w
      invariant cursor == col * w
      invariant forall y, x :: 0 <= y < img.Length0 && 0 <= x < img.Length1 ==>
                  img[y, x] == if Painted(w, col, 0, 0, 0, y, x) then QrPixel(m, y, x) else old(img[y, x])
    {
      var row := 0;
      while row < w
        invariant 0 <= row <= w
        invariant cursor == col * w + row
        invariant forall y, x :: 0 <= y < img.Length0 && 0 <= x < img.Length1 ==>
                    img[y, x] == if Painted(w, col, row, 0, 0, y, x) then QrPixel(m, y, x) else old(img[y, x])
      {
        ModuleIndexBound(w, col, row);
        var dark := IsDarkModule(m.data[cursor]);
        var i := 0;
        while i < Scale
          invariant 0 <= i <= Scale
          invariant forall y, x :: 0 <= y < img.Length0 && 0 <= x < img.Length1 ==>
                      img[y, x] == if Painted(w, col, row, i, 0, y, x) then QrPixel(m, y, x) else old(img[y, x])
        {
          var j := 0;
          while j < Scale
            invariant 0 <= j <= Scale
            invariant forall y, x :: 0 <= y < img.Length0 && 0 <= x < img.Length1 ==>
                        img[y, x] == if Painted(w, col, row, i, j, y, x) then QrPixel(m, y, x) else old(img[y, x])
          {
            var py, px := Spacing + col * Scale + j, Spacing + row * Scale + i;
            BlockOfModule(m, col, row, j, i);
            if dark {
              img[py, px] := img[py, px].(b := 0);
              img[py, px] := img[py, px].(g := 0);
              img[py, px] := img[py, px].(r := 0);
            } else {
              img[py, px] := img[py, px].(b := 0xff);
              img[py, px] := img[py, px].(g := 0xff);
              img[py, px] := img[py, px].(r := 0xff);
            }
            j := j + 1;
          }
          i := i + 1;
        }
        cursor := cursor + 1;
        row := row + 1;
      }
      col := col + 1;
    }
    consumed := cursor;
  }

  // ------------------------------------------------------------------ logo

  /** `place_posx`, reused as `place_posy`: one offset for both axes. */
  function LogoOffset(cols: int): (p: int)
    ensures cols >= LogoSide ==> 0 <= 2 * p <= cols - LogoSide <= 2 * p + 1
    ensures cols < LogoSide ==> 2 * p - 1 <= cols - LogoSide <= 2 * p <= 0
  {
    Half(cols - LogoSide)
  }

  /** The logo block [p, p+200) x [p, p+200) lies inside a canvas of this size. */
  predicate LogoFits(rows: int, cols: int)
  {
    0 <= LogoOffset(cols) && LogoOffset(cols) + LogoSide <= rows && LogoOffset(cols) + LogoSide <= cols
  }

  /**
   * On a canvas of `CanvasCols(w)` columns the logo fits exactly when the
   * canvas is at least as wide as the logo.
   */
  lemma LogoFitsIff(w: nat)
    ensures LogoFits(CanvasRows(w), CanvasCols(w)) <==> CanvasCols(w) >= LogoSide
  {
    var cols := CanvasCols(w);
    if cols < LogoSide {
      assert LogoOffset(cols) + LogoSide > cols;
    }
  }

  /**
   * The single offset centres the block on the square cols x cols (the QR
   * area and its border), not on the taller canvas: the gaps left and right
   * differ by at most one pixel, and the gap below is the gap above plus the
   * caption band (plus that pixel).
   */
  lemma LogoCentredOnSquare(w: nat)
    requires CanvasCols(w) >= LogoSide
    ensures var p, cols := LogoOffset(CanvasCols(w)), CanvasCols(w);
            0 <= (cols - (p + LogoSide)) - p <= 1 &&
            CanvasRows(w) - (p + LogoSide) - p == CaptionBand + ((cols - (p + LogoSide)) - p)
  {
  }

  /** Whether pixel (y, x) is covered by the logo at offset p. */
  predicate InLogoBlock(p: int, y: int, x: int)
  {
    p <= y < p + LogoSide && p <= x < p + LogoSide
  }

  /**
   * `logo_img.copyTo(qr_img.rowRange(p, p + 200).colRange(p, p + 200))`.
   * OpenCV refuses a range outside the canvas with an error nothing
   * catches; the model reports that case as `placed == false` with the
   * canvas untouched.
   */
  method CompositeLogo(img: array2<Pixel>, logo: array2<Pixel>) returns (placed: bool)
    requires logo.Length0 == LogoSide && logo.Length1 == LogoSide
    requires img != logo
    modifies img
    ensures placed == LogoFits(img.Length0, img.Length1)
    ensures forall y, x :: 0 <= y < img.Length0 && 0 <= x < img.Length1 ==>
              img[y, x] == if placed && InLogoBlock(LogoOffset(img.Length1), y, x)
                           then logo[y - LogoOffset(img.Length1), x - LogoOffset(img.Length1)]
                           else old(img[y, x])
  {
    var p := Half(img.Length1 - logo.Length1);
    placed := 0 <= p && p + logo.Length1 <= img.Length0 && p + logo.Length0 <= img.Length1;
    if !placed {
      return;
    }
    var ly := 0;
    while ly < logo.Length0
      invariant 0 <= ly <= logo.Length0
      invariant forall y, x :: 0 <= y < img.Length0 && 0 <= x < img.Length1 ==>
                  img[y, x] == if InLogoBlock(p, y, x) && y < p + ly then logo[y - p, x - p] else old(img[y, x])
    {
      var lx := 0;
      while lx < logo.Length1
        invariant 0 <= lx <= logo.Length1
        invariant forall y, x :: 0 <= y < img.Length0 && 0 <= x < img.Length1 ==>
                    img[y, x] == if InLogoBlock(p, y, x) && (y < p + ly || (y == p + ly && x < p + lx))
                                 then logo[y - p, x - p] else old(img[y, x])
      {
        img[p + ly, p + lx] := logo[ly, lx];
        lx := lx + 1;
      }
      ly := ly + 1;
    }
  }

  // --------------------------------------------------------------- caption

  /**
   * Where `putText` is anchored (bottom-left of the text's baseline) for a
   * caption measured at textWidth x textHeight: centred horizontally and
   * half the text height above the bottom edge.
   */
  function CaptionAnchor(rows: int, cols: int, textWidth: nat, textHeight: nat): (anchor: (int, int))
    ensures var (x, y) := anchor;
            -1 <= (cols - (x + textWidth)) - x <= 1 &&
            (cols >= textWidth ==> 0 <= x && x + textWidth <= cols && (cols - (x + textWidth)) - x >= 0) &&
            (cols < textWidth ==> x <= 0 && (cols - (x + textWidth)) - x <= 0) &&
            0 <= rows - y && 2 * (rows - y) <= textHeight < 2 * (rows - y) + 2
  {
    (Half(cols - textWidth), rows - textHeight / 2)
  }

  // ----------------------------------------------------------------- label

  /** The finished canvas before the caption is drawn: logo over modules over white. */
  ghost function LabelPixel(m: QrMatrix, logo: array2<Pixel>, placed: bool, y: int, x: int): Pixel
    requires m.Valid() && logo.Length0 == LogoSide && logo.Length1 == LogoSide
    reads logo
  {
    var p := LogoOffset(CanvasCols(m.width));
    if placed && InLogoBlock(p, y, x) && 0 <= y - p < LogoSide && 0 <= x - p < LogoSide then logo[y - p, x - p]
    else if InQrArea(m.width, y, x) then QrPixel(m, y, x)
    else White
  }

  /** Nothing is drawn below the square: the caption band is white until the text goes in. */
  lemma CaptionBandBlank(m: QrMatrix, logo: array2<Pixel>, placed: bool, y: int, x: int)
    requires m.Valid() && logo.Length0 == LogoSide && logo.Length1 == LogoSide
    requires placed ==> CanvasCols(m.width) >= LogoSide
    requires CanvasCols(m.width) <= y
    ensures LabelPixel(m, logo, placed, y, x) == White
  {
    if placed {
      var cols := CanvasCols(m.width);
      assert 2 * LogoOffset(cols) <= cols - LogoSide;
    }
  }

  /** From eight modules up the logo lies inside the QR area, so the border stays white. */
  lemma BorderBlank(m: QrMatrix, logo: array2<Pixel>, placed: bool, y: int, x: int)
    requires m.Valid() && logo.Length0 == LogoSide && logo.Length1 == LogoSide
    requires m.width >= 8 && !InQrArea(m.width, y, x)
    ensures LabelPixel(m, logo, placed, y, x) == White
  {
    var cols := CanvasCols(m.width);
    assert cols >= 250;
    assert Spacing <= LogoOffset(cols) && LogoOffset(cols) + LogoSide <= cols - Spacing;
  }

  /**
   * With six or seven modules the logo fits the canvas but covers part of the
   * border. No QR code is that narrow (the smallest has 21 modules); this only
   * marks that the bound `m.width >= 8` of `BorderBlank` is tight.
   */
  lemma LogoCoversBorderWhenNarrow(w: nat)
    requires 6 <= w < 8
    ensures LogoFits(CanvasRows(w), CanvasCols(w)) && LogoOffset(CanvasCols(w)) < Spacing
  {
    LogoFitsIff(w);
  }

  /**
   * The rendering part of `make_qr_label` for one matrix: size and whiten the
   * canvas, paint the modules, copy the logo, and compute the caption anchor
   * for the measured text size.
   */
  method RenderLabel(m: QrMatrix, logo: array2<Pixel>, textWidth: nat, textHeight: nat)
    returns (img: array2<Pixel>, placed: bool, anchor: (int, int))
    requires m.Valid()
    requires logo.Length0 == LogoSide && logo.Length1 == LogoSide
    ensures fresh(img)
    ensures img.Length1 == CanvasCols(m.width) && img.Length0 == CanvasRows(m.width)
    ensures placed <==> CanvasCols(m.width) >= LogoSide
    ensures forall y, x :: 0 <= y < img.Length0 && 0 <= x < img.Length1 ==> img[y, x] == LabelPixel(m, logo, placed, y, x)
    ensures anchor == CaptionAnchor(img.Length0, img.Length1, textWidth, textHeight)
  {
    img := NewCanvas(m.width);
    var consumed := PaintModules(img, m);
    placed := CompositeLogo(img, logo);
    LogoFitsIff(m.width);
    anchor := CaptionAnchor(img.Length0, img.Length1, textWidth, textHeight);
  }
}
