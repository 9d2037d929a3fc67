/** The image structure of struct_image.rs at pixel type u8, where
    `from_u8` and `to_u8` are the identity (trait_pixel.rs:11-16): reshaping
    any colour type to RGB (`to_rgb`) and unpacking palette indices
    (`convert_from_indexed`). A byte is an int in 0..255; the Rust
    shift-and-mask on a u8 is written as division by a power of two and
    remainder, which is what `>>` and `&` with a mask of low bits compute on
    an unsigned byte. */
module PngImage {
  import opened Wrappers
  import opened PixelLayout

  type Byte = x: int | 0 <= x < 256

  /** png::ColorType. */
  datatype ColorType = Grayscale | Rgb | Indexed | GrayscaleAlpha | Rgba

  /** ImageStruct<u8>: pixels row by row; for Indexed, packed palette
      indices, with the PLTE and tRNS chunks alongside. */
  datatype Image = Image(width: nat, height: nat, colorType: ColorType, pixels: seq<Byte>,
                         plte: Option<seq<Byte>>, trns: Option<seq<Byte>>)

  /** The io::Error values of convert_from_indexed, by message. */
  datatype ImageError =
    | NotIndexed          // "only accepts ImageStructs with ColorType Indexed"
    | NoPalette           // "No palette found"
    | InvalidPaletteSize  // "Invalid number of colors in the palette!"
    | InvalidTrns         // "something is wrong with the tRNS chunk"

  function Pow2(n: nat): (p: nat)
    ensures p >= 1
  {
    if n == 0 then 1 else 2 * Pow2(n - 1)
  }

  // ---------------------------------------------------------------------------
  // Geometry of the packed indices

  /** Samples per byte from the number of palette colours (not from the
      PNG bit depth): 8, 4, 2 or 1 for 1-2, 3-4, 5-16 and 17-256 colours.
      The sample width 8/r is the narrowest that can address every colour:
      it is wide enough, and half of it is not. */
  function PixelsPerByte(colors: int): (r: Option<nat>)
    ensures r.Some? <==> 1 <= colors <= 256
    ensures r.Some? ==> r.value == 1 || r.value == 2 || r.value == 4 || r.value == 8
    ensures r.Some? ==> colors <= Pow2(8 / r.value)
    ensures r.Some? && r.value < 8 ==> Pow2(4 / r.value) < colors
  {
    assert Pow2(1) == 2 && Pow2(2) == 4;
    assert Pow2(4) == 16 && Pow2(8) == 256;
    if 1 <= colors <= 2 then Some(8)
    else if 3 <= colors <= 4 then Some(4)
    else if 5 <= colors <= 16 then Some(2)
    else if 17 <= colors <= 256 then Some(1)
    else None
  }

  predicate ValidPpb(ppb: nat)
  {
    ppb == 1 || ppb == 2 || ppb == 4 || ppb == 8
  }

  /** Padding after each row so the next row starts on a byte: the least
      number of samples that makes the row a whole number of bytes. */
  function Skip(width: nat, ppb: nat): (s: nat)
    requires ValidPpb(ppb)
    ensures s < ppb && (width + s) % ppb == 0
  {
    SkipPads(width, ppb);
    if width % ppb == 0 then 0 else ppb - width % ppb
  }

  lemma SkipPads(width: nat, ppb: nat)
    requires ValidPpb(ppb)
    ensures (width + (if width % ppb == 0 then 0 else ppb - width % ppb)) % ppb == 0
  {
    var q := width / ppb;
    var m := width % ppb;
    assert width == q * ppb + m;
    if m != 0 {
      assert width + (ppb - m) == (q + 1) * ppb + 0;
      ModUnique(width + (ppb - m), ppb, q + 1, 0);
    }
  }

  /** Sample position of pixel (r, c): r whole padded rows before it, then
      the column. */
  function SampleIndex(width: nat, ppb: nat, r: nat, c: nat): nat
    requires ValidPpb(ppb)
  {
    Times(r, width + Skip(width, ppb)) + c
  }

  /** Sample k of the packed data, most significant bits first within a
      byte: the byte is shifted right past the samples after it and masked
      to one sample width. */
  function SampleAt(pixels: seq<Byte>, ppb: nat, k: nat): (v: nat)
    requires ValidPpb(ppb) && k / ppb < |pixels|
    ensures v < Pow2(8 / ppb)
  {
    var bits := 8 / ppb;
    (pixels[k / ppb] / Pow2(bits * (ppb - 1 - k % ppb))) % Pow2(bits)
  }

  // ---------------------------------------------------------------------------
  // convert_from_indexed, as a definition over rows and columns

  /** What convert_from_indexed has settled before its loop. */
  datatype Setup = Setup(ppb: nat, palette: seq<Byte>, trns: Option<seq<Byte>>)

  /** The checks before the loop, in the order of the source: colour type,
      palette present, palette size. */
  function Prepare(img: Image): (r: Result<Setup, ImageError>)
    ensures r == Err(NotIndexed) <==> img.colorType != Indexed
    ensures r == Err(NoPalette) <==> img.colorType == Indexed && img.plte.None?
    ensures r == Err(InvalidPaletteSize) <==>
              img.colorType == Indexed && img.plte.Some? && !(3 <= |img.plte.value| <= 770)
    ensures r.Ok? || r == Err(NotIndexed) || r == Err(NoPalette) || r == Err(InvalidPaletteSize)
    ensures r.Ok? ==> ValidPpb(r.value.ppb) && r.value.palette == img.plte.value && r.value.trns == img.trns
    ensures r.Ok? ==> Some(r.value.ppb) == PixelsPerByte(|img.plte.value| / 3)
  {
    if img.colorType != Indexed then Err(NotIndexed)
    else if img.plte.None? then Err(NoPalette)
    else
      match PixelsPerByte(|img.plte.value| / 3)
      case None => Err(InvalidPaletteSize)
      case Some(ppb) => Ok(Setup(ppb, img.plte.value, img.trns))
  }

  /** The palette index of pixel (r, c). */
  function PixelIndex(img: Image, st: Setup, r: nat, c: nat): nat
    requires ValidPpb(st.ppb) && SampleIndex(img.width, st.ppb, r, c) / st.ppb < |img.pixels|
  {
    SampleAt(img.pixels, st.ppb, SampleIndex(img.width, st.ppb, r, c))
  }

  /** Pixel (r, c) can be read without a panic: its byte exists and its
      palette entry is complete. */
  predicate Readable(img: Image, st: Setup, r: nat, c: nat)
  {
    ValidPpb(st.ppb) &&
    SampleIndex(img.width, st.ppb, r, c) / st.ppb < |img.pixels| &&
    3 * PixelIndex(img, st, r, c) + 3 <= |st.palette|
  }

  predicate AllReadable(img: Image, st: Setup)
  {
    forall r: nat, c: nat :: 0 <= r < img.height && 0 <= c < img.width ==> Readable(img, st, r, c)
  }

  /** No tRNS, or one alpha value per palette colour. */
  predicate TrnsFits(st: Setup)
  {
    st.trns.None? || |st.trns.value| * 3 == |st.palette|
  }

  /** Where the Rust does not panic: every pixel the loop reaches can be
      read. With a tRNS of the wrong length the loop stops with an error at
      the first pixel, after reading it. */
  predicate CanConvert(img: Image)
  {
    match Prepare(img)
    case Err(_) => true
    case Ok(st) => Convertible(img, st)
  }

  /** The loop's part of CanConvert, once the checks before it have passed. */
  predicate Convertible(img: Image, st: Setup)
  {
    ValidPpb(st.ppb) &&
    if TrnsFits(st) then AllReadable(img, st)
    else (0 < img.width && 0 < img.height ==> Readable(img, st, 0, 0))
  }

  function Channels(st: Setup): nat
  {
    if st.trns.Some? then 4 else 3
  }

  /** What one pixel with palette index ci emits: the palette's three bytes
      for ci, then its alpha when there is a tRNS chunk. */
  function Chunk(st: Setup, ci: nat): (s: seq<Byte>)
    requires TrnsFits(st) && 3 * ci + 3 <= |st.palette|
    ensures |s| == Channels(st)
  {
    Color(st.palette, ci) + (if st.trns.Some? then [st.trns.value[ci]] else [])
  }

  /** Palette entry ci: its red, green and blue. */
  function Color(palette: seq<Byte>, ci: nat): (s: seq<Byte>)
    requires 3 * ci + 3 <= |palette|
  {
    palette[3 * ci .. 3 * ci + 3]
  }

  /** Pixel (r, c) can be read and group r*width + c of out, in groups of
      Channels values, is what it emits. */
  predicate EmitsAt(img: Image, st: Setup, out: seq<Byte>, r: nat, c: nat)
  {
    TrnsFits(st) && Readable(img, st, r, c) &&
    Times(Times(r, img.width) + c, Channels(st)) + Channels(st) <= |out| &&
    Slot(out, Channels(st), Times(r, img.width) + c) == Chunk(st, PixelIndex(img, st, r, c))
  }

  /** Pixel (r, c) can be read and group r*width + c of the RGB data y is
      its palette colour. */
  predicate ColorAt(img: Image, st: Setup, y: seq<Byte>, r: nat, c: nat)
  {
    Readable(img, st, r, c) &&
    Times(Times(r, img.width) + c, 3) + 3 <= |y| &&
    Slot(y, 3, Times(r, img.width) + c) == Color(st.palette, PixelIndex(img, st, r, c))
  }

  /** What pixel (r, c) emits, as a cell of the output grid: its chunk when
      it can be read and the tRNS chunk fits, nothing otherwise (those
      pixels are never emitted). */
  function Cell(img: Image, st: Setup): (nat, nat) -> seq<Byte>
  {
    (r: nat, c: nat) => Emitted(img, st, r, c)
  }

  function Emitted(img: Image, st: Setup, r: nat, c: nat): seq<Byte>
  {
    if TrnsFits(st) && Readable(img, st, r, c) then Chunk(st, PixelIndex(img, st, r, c)) else []
  }

  lemma CellIsChunk(img: Image, st: Setup, r: nat, c: nat)
    requires TrnsFits(st) && Readable(img, st, r, c)
    ensures Cell(img, st)(r, c) == Chunk(st, PixelIndex(img, st, r, c))
  {
  }

  /** Every pixel of a convertible image emits Channels values. */
  lemma CellsHaveChannels(img: Image, st: Setup)
    requires TrnsFits(st) && AllReadable(img, st)
    ensures CellsHave(Cell(img, st), img.width, img.height, Channels(st))
  {
    forall r: nat, c: nat | r < img.height && c < img.width
      ensures |Cell(img, st)(r, c)| == Channels(st)
    {
      assert Readable(img, st, r, c);
    }
  }

  /** convert_from_indexed: the checks, then every pixel in row order emits
      the palette entry of its index (and its alpha). The result is Rgba
      exactly when a tRNS chunk is present, carries no palette, has the
      input's width and height and Channels values per pixel. A tRNS of the
      wrong length is an error only when there is a pixel to read. Where
      each pixel lands is stated by FromIndexedPixels. */
  function FromIndexed(img: Image): (res: Result<Image, ImageError>)
    requires CanConvert(img)
    ensures res.Err? <==> Prepare(img).Err? ||
                          (!TrnsFits(Prepare(img).value) && img.width > 0 && img.height > 0)
    ensures res.Err? ==> res.error == (if Prepare(img).Err? then Prepare(img).error else InvalidTrns)
    ensures res.Ok? ==> res.value.width == img.width && res.value.height == img.height &&
                        res.value.plte.None? && res.value.trns.None?
    ensures res.Ok? ==> res.value.colorType == (if img.trns.Some? then Rgba else Rgb)
    ensures res.Ok? ==> |res.value.pixels| == Times(Times(img.height, img.width), Channels(Prepare(img).value))
  {
    match Prepare(img)
    case Err(e) => Err(e)
    case Ok(st) =>
      var ct := if img.trns.Some? then Rgba else Rgb;
      if img.width == 0 || img.height == 0 then
        EmptyTimes(img.height, img.width, Channels(st));
        Ok(Image(img.width, img.height, ct, [], None, None))
      else if !TrnsFits(st) then Err(InvalidTrns)
      else Ok(Image(img.width, img.height, ct, Unpack(img, st), None, None))
  }

  /** Every pixel's emission, in row order. */
  function Unpack(img: Image, st: Setup): (s: seq<Byte>)
    requires TrnsFits(st) && AllReadable(img, st)
    ensures |s| == Times(Times(img.height, img.width), Channels(st))
  {
    CellsHaveChannels(img, st);
    GridLength(Cell(img, st), img.width, img.height, Channels(st));
    Flatten(Grid(Cell(img, st), img.width, img.height))
  }

  /** Pixel (r, c) emits its chunk into group r*width + c. */
  lemma UnpackSlot(img: Image, st: Setup, r: nat, c: nat)
    requires TrnsFits(st) && AllReadable(img, st) && r < img.height && c < img.width
    ensures EmitsAt(img, st, Unpack(img, st), r, c)
  {
    assert Readable(img, st, r, c);
    var cell := Cell(img, st);
    CellsHaveChannels(img, st);
    GridSlot(cell, img.width, img.height, Channels(st), r, c);
    CellIsChunk(img, st, r, c);
    assert Unpack(img, st) == Flatten(Grid(cell, img.width, img.height));
  }

  /** Pixel (r, c) of an indexed image fills slot r*width + c of the
      converted image with its palette entry (and alpha), read from the
      sample at r*(width+skip) + c. */
  lemma FromIndexedPixelAt(img: Image, r: nat, c: nat)
    requires CanConvert(img) && FromIndexed(img).Ok? && r < img.height && c < img.width
    ensures Prepare(img).Ok?
    ensures EmitsAt(img, Prepare(img).value, FromIndexed(img).value.pixels, r, c)
  {
    var st := Prepare(img).value;
    assert TrnsFits(st) && AllReadable(img, st);
    assert FromIndexed(img).value.pixels == Unpack(img, st);
    UnpackSlot(img, st, r, c);
  }

  lemma FromIndexedPixels(img: Image)
    requires CanConvert(img) && FromIndexed(img).Ok?
    ensures Prepare(img).Ok?
    ensures forall r: nat, c: nat :: r < img.height && c < img.width ==>
              EmitsAt(img, Prepare(img).value, FromIndexed(img).value.pixels, r, c)
  {
    forall r: nat, c: nat | r < img.height && c < img.width
      ensures EmitsAt(img, Prepare(img).value, FromIndexed(img).value.pixels, r, c)
    {
      FromIndexedPixelAt(img, r, c);
    }
  }

  // ---------------------------------------------------------------------------
  // convert_from_indexed, as the loop the source runs

  /** The source's per-case shift and mask of one byte: sample pi of a byte
      holding ppb samples. */
  function ColorIndex(b: Byte, ppb: nat, pi: nat): nat
    requires ValidPpb(ppb) && pi < ppb
  {
    if ppb == 8 then (b / Pow2(7 - pi)) % 2
    else if ppb == 4 then (b / Pow2(2 * (3 - pi))) % 4
    else if ppb == 2 then (b / Pow2(4 * (1 - pi))) % 16
    else b % 256
  }

  /** The per-case shifts and masks are the one sample extraction. */
  lemma ColorIndexIsSample(pixels: seq<Byte>, ppb: nat, k: nat)
    requires ValidPpb(ppb) && k / ppb < |pixels|
    ensures ColorIndex(pixels[k / ppb], ppb, k % ppb) == SampleAt(pixels, ppb, k)
  {
    assert Pow2(0) == 1 && Pow2(1) == 2 && Pow2(2) == 4;
    assert Pow2(4) == 16 && Pow2(8) == 256;
  }

  /** The source's row test, (byte_index - skip_counter*skip_size) mod width
      == 0 and byte_index != 0, holds exactly at the first pixel of every row
      but the first; after the jump it takes there, byte_index is the sample
      position of pixel (row, col). */
  lemma SkipCondition(w: nat, ppb: nat, row: nat, col: nat, sc: nat, bi: nat)
    requires ValidPpb(ppb) && col < w
    requires sc == (if col > 0 then row else if row == 0 then 0 else row - 1)
    requires bi == Times(sc, Skip(w, ppb)) + Times(row, w) + col
    ensures bi >= sc * Skip(w, ppb)
    ensures ((bi - sc * Skip(w, ppb)) % w == 0 && bi != 0) == (col == 0 && row > 0)
    ensures (if col == 0 && row > 0 then bi + Skip(w, ppb) else bi) == SampleIndex(w, ppb, row, col)
    ensures SampleIndex(w, ppb, row, col) == Times(row, Skip(w, ppb)) + Times(row, w) + col
  {
    var skip := Skip(w, ppb);
    TimesIsMul(sc, skip);
    ModRow(row, w, col);
    TimesSum(row, w, skip);
    if row > 0 {
      assert Times(row, w) >= w;
      assert Times(row - 1, skip) + skip == Times(row, skip);
    }
  }

  /** Pixel (row, col), reached by the loop, can be read, and the source's
      shift and mask of its byte give its palette index. */
  lemma PixelStep(img: Image, st: Setup, row: nat, col: nat, bi: nat)
    requires Convertible(img, st)
    requires row < img.height && col < img.width
    requires TrnsFits(st) || (row == 0 && col == 0)
    requires bi == SampleIndex(img.width, st.ppb, row, col)
    ensures Readable(img, st, row, col)
    ensures bi / st.ppb < |img.pixels|
    ensures ColorIndex(img.pixels[bi / st.ppb], st.ppb, bi % st.ppb) == PixelIndex(img, st, row, col)
  {
    if TrnsFits(st) {
      assert AllReadable(img, st);
    }
    assert Readable(img, st, row, col);
    ColorIndexIsSample(img.pixels, st.ppb, bi);
  }

  /** The source's jump over the padding: at the first pixel of every row
      but the first, byte_index moves on by skip_size and skip_counter
      counts the jump; afterwards byte_index is the sample position of pixel
      (row, col). */
  method SkipPadding(w: nat, ppb: nat, row: nat, col: nat, byteIndex0: nat, skipCounter0: nat)
    returns (byteIndex: nat, skipCounter: nat)
    requires ValidPpb(ppb) && col < w
    requires skipCounter0 == (if col > 0 then row else if row == 0 then 0 else row - 1)
    requires byteIndex0 == Times(skipCounter0, Skip(w, ppb)) + Times(row, w) + col
    ensures byteIndex == SampleIndex(w, ppb, row, col)
    ensures byteIndex == Times(row, Skip(w, ppb)) + Times(row, w) + col
    ensures skipCounter == row
  {
    byteIndex, skipCounter := byteIndex0, skipCounter0;
    var skipSize := if w % ppb == 0 then 0 else ppb - w % ppb;
    SkipCondition(w, ppb, row, col, skipCounter, byteIndex);
    if (byteIndex - skipCounter * skipSize) % w == 0 && byteIndex != 0 {
      byteIndex := byteIndex + skipSize;
      skipCounter := skipCounter + 1;
    }
  }

  /** The body of the Rust loop for pixel (row, col) at sample byteIndex:
      read the byte, shift and mask the sample out, append the palette
      entry and, with a tRNS chunk, the alpha, or fail (ok false) when the
      tRNS length does not match the palette. */
  method EmitPixel(img: Image, st: Setup, row: nat, col: nat, byteIndex: nat, out0: seq<Byte>)
    returns (ok: bool, out: seq<Byte>)
    requires Convertible(img, st)
    requires row < img.height && col < img.width
    requires TrnsFits(st) || (row == 0 && col == 0)
    requires byteIndex == SampleIndex(img.width, st.ppb, row, col)
    ensures ok == TrnsFits(st)
    ensures ok ==> Readable(img, st, row, col) && out == out0 + Cell(img, st)(row, col)
  {
    var ppb := st.ppb;
    var palette := st.palette;
    PixelStep(img, st, row, col, byteIndex);
    var b := img.pixels[byteIndex / ppb];
    var pixelIndex := byteIndex % ppb;
    var colorIndex := ColorIndex(b, ppb, pixelIndex);
    var rgb := palette[colorIndex * 3 .. colorIndex * 3 + 3];
    out := out0 + rgb;
    if st.trns.Some? {
      var alphaData := st.trns.value;
      if |alphaData| * 3 == |palette| {
        out := out + [alphaData[colorIndex]];
      } else {
        return false, out;
      }
    }
    return true, out;
  }

  /** One pass of the Rust inner loop at pixel (row, col): the padding
      jump, then the pixel's emission, then byte_index moves on. */
  method RowPixel(img: Image, st: Setup, row: nat, col: nat, byteIndex0: nat, skipCounter0: nat,
                  rowStart: seq<Byte>, out0: seq<Byte>)
    returns (ok: bool, byteIndex: nat, skipCounter: nat, out: seq<Byte>)
    requires Convertible(img, st)
    requires row < img.height && col < img.width && (TrnsFits(st) || (row == 0 && col == 0))
    requires skipCounter0 == (if col > 0 then row else if row == 0 then 0 else row - 1)
    requires byteIndex0 == Times(skipCounter0, Skip(img.width, st.ppb)) + Times(row, img.width) + col
    requires TrnsFits(st) ==> out0 == rowStart + Flatten(RowCells(Cell(img, st), row, col))
    ensures ok == TrnsFits(st)
    ensures ok ==> out == rowStart + Flatten(RowCells(Cell(img, st), row, col + 1))
    ensures ok ==> skipCounter == row
    ensures ok ==> byteIndex == Times(row, Skip(img.width, st.ppb)) + Times(row, img.width) + col + 1
  {
    byteIndex, skipCounter := SkipPadding(img.width, st.ppb, row, col, byteIndex0, skipCounter0);
    ok, out := EmitPixel(img, st, row, col, byteIndex, out0);
    if ok {
      RowCellsStep(Cell(img, st), row, col);
      AppendAssoc(rowStart, Flatten(RowCells(Cell(img, st), row, col)), Cell(img, st)(row, col));
      byteIndex := byteIndex + 1;
    }
  }

  /** One row of the Rust loop: byte_index walks the row's samples, jumping
      over the padding before the row's first pixel when it is not the
      image's first; each pixel appends its palette entry and, with a tRNS
      chunk, its alpha, or the loop stops (ok false) when the tRNS length
      does not match the palette. */
  method UnpackRowLoop(img: Image, st: Setup, row: nat, byteIndex0: nat, skipCounter0: nat, out0: seq<Byte>)
    returns (ok: bool, byteIndex: nat, skipCounter: nat, out: seq<Byte>)
    requires Convertible(img, st)
    requires row < img.height && (TrnsFits(st) || row == 0 || img.width == 0)
    requires skipCounter0 == (if row == 0 || img.width == 0 then 0 else row - 1)
    requires byteIndex0 == Times(skipCounter0, Skip(img.width, st.ppb)) + Times(row, img.width)
    ensures ok <==> TrnsFits(st) || img.width == 0
    ensures ok ==> skipCounter == (if img.width == 0 then 0 else row)
    ensures ok ==> byteIndex == Times(skipCounter, Skip(img.width, st.ppb)) + Times(row + 1, img.width)
    ensures ok && TrnsFits(st) ==> out == out0 + Flatten(RowCells(Cell(img, st), row, img.width))
    ensures ok && !TrnsFits(st) ==> out == out0
  {
    var w := img.width;
    var ppb := st.ppb;
    byteIndex, skipCounter, out := byteIndex0, skipCounter0, out0;
    var col: nat := 0;
    while col < w
      invariant col <= w
      invariant col == 0 ==> byteIndex == byteIndex0 && skipCounter == skipCounter0 && out == out0
      invariant col > 0 ==> TrnsFits(st) && skipCounter == row
      invariant col > 0 ==> byteIndex == Times(row, Skip(w, ppb)) + Times(row, w) + col
      invariant TrnsFits(st) ==> out == out0 + Flatten(RowCells(Cell(img, st), row, col))
    {
      var pixelOk;
      pixelOk, byteIndex, skipCounter, out := RowPixel(img, st, row, col, byteIndex, skipCounter, out0, out);
      if !pixelOk {
        return false, byteIndex, skipCounter, out;
      }
      col := col + 1;
    }
    if w > 0 {
      assert Times(row + 1, w) == Times(row, w) + w;
    }
    return true, byteIndex, skipCounter, out;
  }

  /** The rows of the Rust loop, one after the other. */
  method UnpackRowsLoop(img: Image, st: Setup) returns (ok: bool, out: seq<Byte>)
    requires Convertible(img, st)
    ensures ok <==> TrnsFits(st) || img.width == 0 || img.height == 0
    ensures ok ==> out == (if img.width == 0 || img.height == 0 then [] else Unpack(img, st))
  {
    var byteIndex: nat := 0;
    var skipCounter: nat := 0;
    out := [];
    var row: nat := 0;
    while row < img.height
      invariant row <= img.height
      invariant TrnsFits(st) ==> out == Flatten(Grid(Cell(img, st), img.width, row))
      invariant !TrnsFits(st) ==> out == [] && (img.width > 0 ==> row == 0)
      invariant skipCounter == (if row == 0 || img.width == 0 then 0 else row - 1)
      invariant byteIndex == Times(skipCounter, Skip(img.width, st.ppb)) + Times(row, img.width)
    {
      var rowOk;
      rowOk, byteIndex, skipCounter, out := UnpackRowLoop(img, st, row, byteIndex, skipCounter, out);
      if !rowOk {
        return false, out;
      }
      if TrnsFits(st) {
        GridStep(Cell(img, st), img.width, row);
      }
      row := row + 1;
    }
    if TrnsFits(st) && img.width > 0 && img.height > 0 {
      assert AllReadable(img, st);
      assert out == Unpack(img, st);
    } else if TrnsFits(st) {
      TimesIsMul(img.height, img.width);
      assert |Grid(Cell(img, st), img.width, img.height)| == 0;
    }
    return true, out;
  }

  /** convert_from_indexed as the source runs it: the checks, then the loop
      over rows and columns. */
  method ConvertFromIndexed(img: Image) returns (res: Result<Image, ImageError>)
    requires CanConvert(img)
    ensures res == FromIndexed(img)
  {
    if img.colorType != Indexed {
      return Err(NotIndexed);
    }
    var colorType := if img.trns.Some? then Rgba else Rgb;
    if img.plte.None? {
      return Err(NoPalette);
    }
    var palette := img.plte.value;
    var colors := |palette| / 3;
    var ppb: nat;
    if 1 <= colors <= 2 {
      ppb := 8;
    } else if 3 <= colors <= 4 {
      ppb := 4;
    } else if 5 <= colors <= 16 {
      ppb := 2;
    } else if 17 <= colors <= 256 {
      ppb := 1;
    } else {
      return Err(InvalidPaletteSize);
    }
    var st := Setup(ppb, palette, img.trns);
    assert Prepare(img) == Ok(st);
    var ok, out := UnpackRowsLoop(img, st);
    if !ok {
      return Err(InvalidTrns);
    }
    return Ok(Image(img.width, img.height, colorType, out, None, None));
  }

  // ---------------------------------------------------------------------------
  // to_rgb

  /** Every grey sample becomes three equal channels. */
  function Gray3(p: seq<Byte>): (s: seq<Byte>)
    ensures |s| == Times(|p|, 3)
  {
    if |p| == 0 then [] else [p[0], p[0], p[0]] + Gray3(p[1..])
  }

  /** Every (grey, alpha) chunk of two becomes three greys; a last chunk
      holding only a grey counts too. */
  function GrayAlpha3(p: seq<Byte>): (s: seq<Byte>)
    ensures |s| == Times((|p| + 1) / 2, 3)
    decreases |p|
  {
    if |p| == 0 then [] else [p[0], p[0], p[0]] + GrayAlpha3(p[if |p| >= 2 then 2 else 1..])
  }

  /** Where chunks(4) never hands the closure fewer than three values. */
  predicate RgbaChunksComplete(p: seq<Byte>)
  {
    |p| % 4 == 0 || |p| % 4 == 3
  }

  /** Every chunk of four keeps its first three values. */
  function DropAlpha(p: seq<Byte>): (s: seq<Byte>)
    requires RgbaChunksComplete(p)
    ensures |s| == Times((|p| + 3) / 4, 3)
    decreases |p|
  {
    if |p| == 0 then [] else p[..3] + DropAlpha(p[if |p| >= 4 then 4 else 3..])
  }

  lemma {:induction false} Gray3At(p: seq<Byte>, i: nat)
    requires i < |p|
    ensures Times(i, 3) + 3 <= |Gray3(p)|
    ensures Slot(Gray3(p), 3, i) == [p[i], p[i], p[i]]
  {
    var head: seq<Byte> := [p[0], p[0], p[0]];
    assert Gray3(p) == head + Gray3(p[1..]);
    if i > 0 {
      Gray3At(p[1..], i - 1);
      SlotShift(head, Gray3(p[1..]), 3, i, i - 1);
    }
  }

  lemma {:induction false} GrayAlpha3At(p: seq<Byte>, i: nat)
    requires i < (|p| + 1) / 2
    ensures Times(i, 3) + 3 <= |GrayAlpha3(p)|
    ensures Slot(GrayAlpha3(p), 3, i) == [p[2 * i], p[2 * i], p[2 * i]]
  {
    var head: seq<Byte> := [p[0], p[0], p[0]];
    var rest := p[if |p| >= 2 then 2 else 1..];
    assert GrayAlpha3(p) == head + GrayAlpha3(rest);
    if i > 0 {
      GrayAlpha3At(rest, i - 1);
      SlotShift(head, GrayAlpha3(rest), 3, i, i - 1);
    }
  }

  /** Chunk i of four starts inside p, and p without its first chunk is
      again made of complete chunks. */
  lemma ChunkCount(n: nat, i: nat)
    requires (n % 4 == 0 || n % 4 == 3) && i < (n + 3) / 4
    ensures 4 * i + 3 <= n
    ensures i > 0 ==> n >= 4 && ((n - 4) % 4 == 0 || (n - 4) % 4 == 3) && i - 1 < (n - 4 + 3) / 4
  {
  }

  lemma {:induction false} DropAlphaAt(p: seq<Byte>, i: nat)
    requires RgbaChunksComplete(p) && i < (|p| + 3) / 4
    ensures 4 * i + 3 <= |p|
    ensures Times(i, 3) + 3 <= |DropAlpha(p)|
    ensures Slot(DropAlpha(p), 3, i) == [p[4 * i], p[4 * i + 1], p[4 * i + 2]]
    decreases i
  {
    ChunkCount(|p|, i);
    if i == 0 {
      assert DropAlpha(p) == p[..3] + DropAlpha(p[if |p| >= 4 then 4 else 3..]);
    } else {
      DropAlphaLater(p, i);
    }
  }

  lemma {:induction false} DropAlphaLater(p: seq<Byte>, i: nat)
    requires RgbaChunksComplete(p) && 0 < i < (|p| + 3) / 4
    requires 4 * i + 3 <= |p| && ((|p| - 4) % 4 == 0 || (|p| - 4) % 4 == 3) && i - 1 < (|p| - 4 + 3) / 4
    ensures Times(i, 3) + 3 <= |DropAlpha(p)|
    ensures Slot(DropAlpha(p), 3, i) == [p[4 * i], p[4 * i + 1], p[4 * i + 2]]
    decreases i, 0
  {
    var rest := p[4..];
    assert DropAlpha(p) == p[..3] + DropAlpha(rest);
    DropAlphaAt(rest, i - 1);
    SlotShift(p[..3], DropAlpha(rest), 3, i, i - 1);
    var j := 4 * (i - 1);
    assert rest[j] == p[4 * i] && rest[j + 1] == p[4 * i + 1] && rest[j + 2] == p[4 * i + 2];
  }

  /** What to_rgb needs to run without a panic. */
  predicate ToRgbDefined(img: Image)
  {
    match img.colorType
    case Rgba => RgbaChunksComplete(img.pixels)
    case Indexed => CanConvert(img)
    case _ => true
  }

  /** An Rgba image from convert_from_indexed has four values per pixel. */
  lemma ConvertedChunksComplete(img: Image)
    requires CanConvert(img) && FromIndexed(img).Ok?
    ensures FromIndexed(img).value.colorType == Rgba ==> RgbaChunksComplete(FromIndexed(img).value.pixels)
  {
    ModRow(Times(img.height, img.width), 4, 0);
  }

  /** The match of to_rgb on a colour type other than Indexed: Rgb stays,
      Rgba drops alpha, GrayscaleAlpha and Grayscale repeat the grey. */
  function RgbData(img: Image): seq<Byte>
    requires img.colorType != Indexed && ToRgbDefined(img)
  {
    match img.colorType
    case Rgb => img.pixels
    case Rgba => DropAlpha(img.pixels)
    case GrayscaleAlpha => GrayAlpha3(img.pixels)
    case Grayscale => Gray3(img.pixels)
  }

  /** to_rgb: an indexed image is converted first and the conversion is
      reshaped (ToRgbRecursion states that this is the source's recursive
      call); the result is Rgb of the same size with no palette and no
      tRNS, and fails only where the conversion of an indexed image fails.
      What lands in each pixel is stated by ToRgbGray, ToRgbGrayAlpha,
      ToRgbRgba and ToRgbIndexed. */
  function ToRgb(img: Image): (res: Result<Image, ImageError>)
    requires ToRgbDefined(img)
    ensures res.Err? <==> img.colorType == Indexed && FromIndexed(img).Err?
    ensures res.Err? ==> res.error == FromIndexed(img).error
    ensures res.Ok? ==> res.value.colorType == Rgb && res.value.width == img.width &&
                        res.value.height == img.height && res.value.plte.None? && res.value.trns.None?
    ensures res.Ok? && img.colorType == Rgb ==> res.value.pixels == img.pixels
  {
    if img.colorType == Indexed then
      match FromIndexed(img)
      case Err(e) => Err(e)
      case Ok(converted) =>
        ConvertedChunksComplete(img);
        Ok(Image(img.width, img.height, Rgb, RgbData(converted), None, None))
    else
      Ok(Image(img.width, img.height, Rgb, RgbData(img), None, None))
  }

  /** The Indexed arm is the source's `convert_from_indexed()?.to_rgb()?`:
      to_rgb of the converted image, whose width and height are the
      input's. */
  lemma ToRgbRecursion(img: Image)
    requires img.colorType == Indexed && CanConvert(img) && FromIndexed(img).Ok?
    ensures ToRgbDefined(FromIndexed(img).value)
    ensures ToRgb(img) == ToRgb(FromIndexed(img).value)
  {
    ConvertedChunksComplete(img);
  }

  /** A grey image: pixel i becomes three copies of its grey. */
  lemma ToRgbGray(img: Image)
    requires img.colorType == Grayscale
    ensures |ToRgb(img).value.pixels| == Times(|img.pixels|, 3)
    ensures forall i: nat :: i < |img.pixels| ==>
              Times(i, 3) + 3 <= |ToRgb(img).value.pixels| &&
              Slot(ToRgb(img).value.pixels, 3, i) == [img.pixels[i], img.pixels[i], img.pixels[i]]
  {
    var p := img.pixels;
    assert ToRgb(img).value.pixels == Gray3(p);
    forall i: nat | i < |p|
      ensures Times(i, 3) + 3 <= |Gray3(p)| && Slot(Gray3(p), 3, i) == [p[i], p[i], p[i]]
    {
      Gray3At(p, i);
    }
  }

  /** A grey-alpha image: pixel i becomes three copies of its grey, and the
      alpha is dropped. */
  lemma ToRgbGrayAlpha(img: Image)
    requires img.colorType == GrayscaleAlpha
    ensures |ToRgb(img).value.pixels| == Times((|img.pixels| + 1) / 2, 3)
    ensures forall i: nat :: i < (|img.pixels| + 1) / 2 ==>
              2 * i < |img.pixels| && Times(i, 3) + 3 <= |ToRgb(img).value.pixels| &&
              Slot(ToRgb(img).value.pixels, 3, i) == [img.pixels[2 * i], img.pixels[2 * i], img.pixels[2 * i]]
  {
    var p := img.pixels;
    assert ToRgb(img).value.pixels == GrayAlpha3(p);
    forall i: nat | i < (|p| + 1) / 2
      ensures 2 * i < |p| && Times(i, 3) + 3 <= |GrayAlpha3(p)| &&
              Slot(GrayAlpha3(p), 3, i) == [p[2 * i], p[2 * i], p[2 * i]]
    {
      GrayAlpha3At(p, i);
    }
  }

  /** An Rgba image: pixel i keeps its red, green and blue. */
  lemma ToRgbRgba(img: Image)
    requires img.colorType == Rgba && RgbaChunksComplete(img.pixels)
    ensures |ToRgb(img).value.pixels| == Times((|img.pixels| + 3) / 4, 3)
    ensures forall i: nat :: i < (|img.pixels| + 3) / 4 ==>
              4 * i + 3 <= |img.pixels| && Times(i, 3) + 3 <= |ToRgb(img).value.pixels| &&
              Slot(ToRgb(img).value.pixels, 3, i) == [img.pixels[4 * i], img.pixels[4 * i + 1], img.pixels[4 * i + 2]]
  {
    var p := img.pixels;
    assert ToRgb(img).value.pixels == DropAlpha(p);
    forall i: nat | i < (|p| + 3) / 4
      ensures 4 * i + 3 <= |p| && Times(i, 3) + 3 <= |DropAlpha(p)| &&
              Slot(DropAlpha(p), 3, i) == [p[4 * i], p[4 * i + 1], p[4 * i + 2]]
    {
      DropAlphaAt(p, i);
    }
  }

  /** to_rgb of an indexed image reshapes what convert_from_indexed made:
      kept as it is without tRNS, with its alpha dropped otherwise. */
  lemma ToRgbOfConverted(img: Image)
    requires img.colorType == Indexed && CanConvert(img) && FromIndexed(img).Ok?
    ensures img.trns.Some? ==> RgbaChunksComplete(FromIndexed(img).value.pixels)
    ensures ToRgb(img).Ok?
    ensures ToRgb(img).value.pixels ==
              if img.trns.Some? then DropAlpha(FromIndexed(img).value.pixels) else FromIndexed(img).value.pixels
  {
    ConvertedChunksComplete(img);
  }

  /** Dropping the alpha of group q of four values keeps its first three. */
  lemma DropAlphaGroup(x: seq<Byte>, n: nat, q: nat)
    requires |x| == Times(n, 4) && q < n
    ensures RgbaChunksComplete(x) && |DropAlpha(x)| == Times(n, 3)
    ensures Times(q, 4) + 4 <= |x| && Times(q, 3) + 3 <= |DropAlpha(x)|
    ensures Slot(DropAlpha(x), 3, q) == Slot(x, 4, q)[..3]
  {
    TimesIsMul(n, 4);
    TimesIsMul(n, 3);
    TimesIsMul(q, 4);
    assert (|x| + 3) / 4 == n;
    DropAlphaAt(x, q);
    var chunk := Slot(x, 4, q);
    assert chunk == x[4 * q .. 4 * q + 4];
    assert x[4 * q] == chunk[0] && x[4 * q + 1] == chunk[1] && x[4 * q + 2] == chunk[2];
  }

  /** The colour part of a pixel's emission is its palette entry. */
  lemma ChunkColor(st: Setup, ci: nat)
    requires TrnsFits(st) && 3 * ci + 3 <= |st.palette|
    ensures Chunk(st, ci)[..3] == Color(st.palette, ci)
  {
  }

  /** Pixel (r, c) of the RGB made from an indexed image y, with or without
      the alpha dropped, is its palette colour. */
  lemma IndexedColorAt(img: Image, y: seq<Byte>, r: nat, c: nat)
    requires CanConvert(img) && FromIndexed(img).Ok? && r < img.height && c < img.width
    requires img.trns.Some? ==> RgbaChunksComplete(FromIndexed(img).value.pixels)
    requires y == if img.trns.Some? then DropAlpha(FromIndexed(img).value.pixels) else FromIndexed(img).value.pixels
    ensures Prepare(img).Ok?
    ensures ColorAt(img, Prepare(img).value, y, r, c)
  {
    var st := Prepare(img).value;
    var x := FromIndexed(img).value.pixels;
    var q := Times(r, img.width) + c;
    FromIndexedPixelAt(img, r, c);
    var ci := PixelIndex(img, st, r, c);
    ChunkColor(st, ci);
    TimesLess(r, img.height, img.width);
    if st.trns.Some? {
      DropAlphaGroup(x, Times(img.height, img.width), q);
    }
  }

  lemma IndexedColors(img: Image, y: seq<Byte>)
    requires CanConvert(img) && FromIndexed(img).Ok?
    requires img.trns.Some? ==> RgbaChunksComplete(FromIndexed(img).value.pixels)
    requires y == if img.trns.Some? then DropAlpha(FromIndexed(img).value.pixels) else FromIndexed(img).value.pixels
    ensures Prepare(img).Ok?
    ensures forall r: nat, c: nat :: r < img.height && c < img.width ==> ColorAt(img, Prepare(img).value, y, r, c)
  {
    forall r: nat, c: nat | r < img.height && c < img.width
      ensures ColorAt(img, Prepare(img).value, y, r, c)
    {
      IndexedColorAt(img, y, r, c);
    }
  }

  lemma IndexedRgbLength(img: Image, y: seq<Byte>)
    requires CanConvert(img) && FromIndexed(img).Ok?
    requires img.trns.Some? ==> RgbaChunksComplete(FromIndexed(img).value.pixels)
    requires y == if img.trns.Some? then DropAlpha(FromIndexed(img).value.pixels) else FromIndexed(img).value.pixels
    ensures |y| == Times(Times(img.height, img.width), 3)
  {
    var n := Times(img.height, img.width);
    var x := FromIndexed(img).value.pixels;
    if img.trns.Some? {
      assert |x| == Times(n, 4);
      TimesIsMul(n, 4);
      assert (|x| + 3) / 4 == n;
    }
  }

  /** An indexed image: pixel (r, c) fills slot r*width + c with its palette
      colour, whether or not there is a tRNS chunk. */
  lemma ToRgbIndexed(img: Image)
    requires img.colorType == Indexed && CanConvert(img) && FromIndexed(img).Ok?
    ensures ToRgb(img).Ok?
    ensures |ToRgb(img).value.pixels| == Times(Times(img.height, img.width), 3)
    ensures Prepare(img).Ok?
    ensures forall r: nat, c: nat :: r < img.height && c < img.width ==>
              ColorAt(img, Prepare(img).value, ToRgb(img).value.pixels, r, c)
  {
    ToRgbOfConverted(img);
    var y := ToRgb(img).value.pixels;
    IndexedRgbLength(img, y);
    IndexedColors(img, y);
  }
}
