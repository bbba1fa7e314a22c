// Writing and reading 8-bit Windows bitmaps.
module BmpFile {
  import opened Bytes
  import opened Streams
  import opened BitmapFlip
  import opened Palette

  const BMP_TAG: seq<Byte> := [66, 77]
  const HEADER_SIZE: nat := 14
  const INFO_SIZE: nat := 40
  const PALETTE_SIZE: nat := 256

  // ----- the layout -----

  function Header(fileSize: int, offset: int): (r: seq<Byte>)
    ensures |r| == HEADER_SIZE
  {
    BMP_TAG + LittleEndian(fileSize, 4) + LittleEndian(0, 2) + LittleEndian(0, 2) + LittleEndian(offset, 4)
  }

  function Info(width: nat, height: nat): (r: seq<Byte>)
    ensures |r| == INFO_SIZE
  {
    LittleEndian(INFO_SIZE, 4) + LittleEndian(width, 4) + LittleEndian(height, 4)
      + LittleEndian(1, 2) + LittleEndian(8, 2)
      + LittleEndian(0, 4) + LittleEndian(width * height, 4) + Zeros(16)
  }

  function Quad(colour: Colour): seq<Byte> {
    [colour.blue, colour.green, colour.red, 0]
  }

  function Quads(colours: seq<Colour>): (r: seq<Byte>)
    ensures |r| == 4 * |colours|
  {
    if |colours| == 0 then [] else Quads(colours[..|colours| - 1]) + Quad(colours[|colours| - 1])
  }

  // The rows, each followed by `padding` zero bytes.
  function PaddedRows(pixels: seq<Byte>, width: nat, padding: nat, height: nat): seq<Byte>
    requires |pixels| == width * height
    decreases height
  {
    if height == 0 then [] else
      RowLengths(width, height);
      pixels[..width] + Zeros(padding) + PaddedRows(pixels[width..], width, padding, height - 1)
  }

  // A whole file; `pixels` are in the order they are stored in.
  function BmpBytes(colours: seq<Colour>, pixels: seq<Byte>, width: nat, height: nat): seq<Byte>
    requires |pixels| == width * height
  {
    var offset := HEADER_SIZE + INFO_SIZE + 4 * |colours|;
    Header(offset + width * height, offset) + Info(width, height) + Quads(colours)
      + PaddedRows(pixels, width, PaddingSize(width, 4), height)
  }

  lemma {:induction false} PaddedRowsAtTheEnd(pixels: seq<Byte>, row: seq<Byte>, width: nat, padding: nat, height: nat)
    requires |pixels| == width * height && |row| == width
    ensures |pixels + row| == width * (height + 1)
    ensures PaddedRows(pixels + row, width, padding, height + 1)
         == PaddedRows(pixels, width, padding, height) + row + Zeros(padding)
    decreases height
  {
    hide PaddedRows;
    if height == 0 {
      NoPaddedRows(pixels, width, padding);
      FirstPaddedRow(row, [], width, padding, 0);
      NoPaddedRows([], width, padding);
      Around(row, [], []);
      assert [] + row + Zeros(padding) == row + Zeros(padding) + [];
    } else {
      SplitRow(pixels, width, height);
      var first, rest := pixels[..width], pixels[width..];
      PaddedRowsAtTheEnd(rest, row, width, padding, height - 1);
      FirstPaddedRow(first, rest, width, padding, height - 1);
      FirstPaddedRow(first, rest + row, width, padding, height);
      Around(first, rest, row);
      FiveParts(first, Zeros(padding), PaddedRows(rest, width, padding, height - 1), row);
    }
  }

  lemma FirstPaddedRow(row: seq<Byte>, rest: seq<Byte>, width: nat, padding: nat, height: nat)
    requires |row| == width && |rest| == width * height
    ensures |row + rest| == width * (height + 1)
    ensures PaddedRows(row + rest, width, padding, height + 1)
         == row + Zeros(padding) + PaddedRows(rest, width, padding, height)
  {
    RowLengths(width, height + 1);
    assert (row + rest)[..width] == row && (row + rest)[width..] == rest;
  }

  lemma NoPaddedRows(pixels: seq<Byte>, width: nat, padding: nat)
    requires |pixels| == width * 0
    ensures PaddedRows(pixels, width, padding, 0) == [] && pixels == []
  {
  }

  lemma FiveParts(first: seq<Byte>, padding: seq<Byte>, rest: seq<Byte>, row: seq<Byte>)
    ensures first + padding + (rest + row + padding) == first + padding + rest + row + padding
  {
  }

  // Rows that need no padding are stored as they are.
  lemma {:induction false} UnpaddedRows(pixels: seq<Byte>, width: nat, height: nat)
    requires |pixels| == width * height
    ensures PaddedRows(pixels, width, 0, height) == pixels
    decreases height
  {
    if height > 0 {
      RowLengths(width, height);
      UnpaddedRows(pixels[width..], width, height - 1);
      assert pixels == pixels[..width] + pixels[width..];
    }
  }

  // ----- writing -----

  method WriteQuads(output: OutputStream, colours: seq<Colour>,
                    ghost base: seq<Byte>, ghost at: nat, ghost before: seq<Byte>)
    requires Wrote(output, base, at, before)
    modifies output
    ensures Wrote(output, base, at, before + Quads(colours))
  {
    hide Wrote;
    assert before + Quads(colours[..0]) == before;
    for i := 0 to |colours|
      invariant Wrote(output, base, at, before + Quads(colours[..i]))
    {
      assert colours[..i + 1][..i] == colours[..i];
      Append(output, Quad(colours[i]), base, at, before + Quads(colours[..i]));
      assert before + Quads(colours[..i]) + Quad(colours[i]) == before + Quads(colours[..i + 1]);
    }
    assert colours[..|colours|] == colours;
  }

  lemma RowsStep(pixels: seq<Byte>, width: nat, padding: nat, height: nat, i: nat, before: seq<Byte>)
    requires |pixels| == width * height && i < height
    ensures 0 <= width * i <= width * i + width == width * (i + 1) <= |pixels|
    ensures before + PaddedRows(pixels[..width * i], width, padding, i)
            + pixels[width * i..width * i + width] + Zeros(padding)
         == before + PaddedRows(pixels[..width * (i + 1)], width, padding, i + 1)
  {
    RowInBuffer(width, height, i);
    Distribute(width, i, 1);
    PaddedRowsAtTheEnd(pixels[..width * i], pixels[width * i..width * i + width], width, padding, i);
    assert pixels[..width * (i + 1)] == pixels[..width * i] + pixels[width * i..width * i + width];
  }

  // The pixel rows: in one go if they need no padding, else one by one.
  method WriteRows(output: OutputStream, pixels: seq<Byte>, width: nat, height: nat,
                   ghost base: seq<Byte>, ghost at: nat, ghost before: seq<Byte>)
    requires |pixels| == width * height && Wrote(output, base, at, before)
    modifies output
    ensures Wrote(output, base, at, before + PaddedRows(pixels, width, PaddingSize(width, 4), height))
  {
    hide Wrote, PaddedRows;
    var padding := GetPaddingSize(width, 4);
    if padding == 0 {
      UnpaddedRows(pixels, width, height);
      Append(output, pixels, base, at, before);
      return;
    }
    var pos: nat := 0;
    NoRows(width, padding, before);
    assert pixels[..0] == [];
    for i := 0 to height
      invariant pos == width * i && pos <= |pixels|
      invariant Wrote(output, base, at, before + PaddedRows(pixels[..pos], width, padding, i))
    {
      RowsStep(pixels, width, padding, height, i, before);
      ghost var sofar := before + PaddedRows(pixels[..pos], width, padding, i);
      Append(output, pixels[pos..pos + width], base, at, sofar);
      Append(output, Zeros(padding), base, at, sofar + pixels[pos..pos + width]);
      pos := pos + width;
    }
    assert pixels[..|pixels|] == pixels;
  }

  lemma NoRows(width: nat, padding: nat, before: seq<Byte>)
    ensures before + PaddedRows([], width, padding, 0) == before
  {
  }

  // The order pixels are stored in.
  function Stored(pixels: seq<Byte>, width: nat, height: nat, flip: bool): (r: seq<Byte>)
    requires |pixels| == width * height
    ensures |r| == |pixels|
  {
    if flip then RowsSwapped(pixels, width, height) else pixels
  }

  // Without pixels there are no rows to write, and nothing changes by flipping.
  lemma {:induction false} NothingStored(width: nat, height: nat, flip: bool)
    requires width * height == 0
    ensures Stored([], width, height, flip) == []
    ensures PaddedRows([], width, PaddingSize(width, 4), height) == []
  {
    NothingToFlip([], width, height);
    if height > 0 {
      UnpaddedRows([], width, height);
    }
  }

  // `write_bmp_data` for 8-bit pixels; false if the pixels do not fit the size. The
  // flip needs whole rows. Colours without pixels are flipped instead, which is not
  // part of this model.
  method WriteBmp(output: OutputStream, colours: seq<Colour>, pixels: seq<Byte>, width: nat, height: nat, flip: bool)
    returns (ok: bool)
    requires output.Valid()
    requires flip ==> if pixels == [] then colours == [] else width > 0 && |pixels| % width == 0
    modifies output
    ensures ok == (|pixels| == width * height)
    ensures ok ==> output.data == Overwrite(old(output.data), old(output.pos),
                                            BmpBytes(colours, Stored(pixels, width, height, flip), width, height))
    ensures ok ==> output.Valid()
                   && output.pos == old(output.pos)
                                    + |BmpBytes(colours, Stored(pixels, width, height, flip), width, height)|
    ensures !ok ==> output.data == old(output.data) && output.pos == old(output.pos)
  {
    hide RowsSwapped, PaddedRows, Quads, Header, Info, Overwrite, PaddingSize;
    var buffer := pixels;
    if flip && pixels != [] {
      buffer := FlipCopy(pixels, width);
    }
    if |buffer| != width * height {
      return false;
    }
    if pixels == [] {
      NothingStored(width, height, flip);
    } else if flip {
      SameHeight(width, |pixels| / width, height);
    }
    assert buffer == Stored(pixels, width, height, flip);
    ghost var base := output.data;
    ghost var at := output.pos;
    var offset := HEADER_SIZE + INFO_SIZE + 4 * |colours|;
    var header := Header(offset + width * height, offset);
    var info := Info(width, height);
    NothingWritten(base, at);
    Append(output, header, base, at, []);
    Append(output, info, base, at, [] + header);
    WriteQuads(output, colours, base, at, [] + header + info);
    if buffer != [] {
      WriteRows(output, buffer, width, height, base, at, [] + header + info + Quads(colours));
    }
    WholeFile(header, info, Quads(colours), PaddedRows(buffer, width, PaddingSize(width, 4), height));
    ok := true;
  }

  lemma WholeFile(header: seq<Byte>, info: seq<Byte>, quads: seq<Byte>, rows: seq<Byte>)
    ensures [] + header + info + quads + rows == header + info + quads + rows
    ensures rows == [] ==> [] + header + info + quads == header + info + quads + rows
  {
    assert [] + header == header;
  }

  lemma SameHeight(width: nat, a: nat, b: nat)
    requires width > 0 && width * a == width * b
    ensures a == b
  {
    if a < b {
      Distribute(width, a, b - a);
    } else if b < a {
      Distribute(width, b, a - b);
    }
  }

  // The flipped copy of the caller's pixels.
  method FlipCopy(pixels: seq<Byte>, width: nat) returns (flipped: seq<Byte>)
    requires width > 0 && |pixels| % width == 0
    ensures |pixels| == width * (|pixels| / width)
    ensures flipped == RowsSwapped(pixels, width, |pixels| / width)
  {
    var buffer := new Byte[|pixels|](i requires 0 <= i < |pixels| => pixels[i]);
    assert buffer[..] == pixels;
    VerticalFlip(buffer, width, |pixels| / width);
    flipped := buffer[..];
  }

  // ----- reading -----

  // NotBmp: the tag is missing. Unsupported: not 8 bits deep, a size no buffer can
  // have, or nothing to flip, in which case the palette would be.
  datatype Bitmap = NotBmp | Unsupported | Read(width: nat, height: nat, colours: seq<Colour>, indexes: seq<Byte>)

  // `count` palette entries from the cursor on.
  function PaletteFrom(data: seq<Byte>, at: Cursor, count: nat): seq<Colour>
    decreases count
  {
    if count == 0 then []
    else
      var quad := ReadBytes(data, at, 4);
      [Colour(quad[2], quad[1], quad[0], 255)] + PaletteFrom(data, AfterRead(data, at, 4), count - 1)
  }

  function AfterReads(data: seq<Byte>, at: Cursor, size: nat, count: nat): Cursor
    decreases count
  {
    if count == 0 then at else AfterReads(data, AfterRead(data, at, size), size, count - 1)
  }

  // `height` rows from the cursor on, the padding behind each skipped.
  function RowsFrom(data: seq<Byte>, at: Cursor, width: nat, padding: nat, height: nat): seq<Byte>
    decreases height
  {
    if height == 0 then []
    else ReadBytes(data, at, width)
         + RowsFrom(data, AfterRead(data, AfterRead(data, at, width), padding), width, padding, height - 1)
  }

  lemma {:induction false} RowsFromSize(data: seq<Byte>, at: Cursor, width: nat, padding: nat, height: nat)
    ensures |RowsFrom(data, at, width, padding, height)| == width * height
    decreases height
  {
    if height > 0 {
      RowLengths(width, height);
      RowsFromSize(data, AfterRead(data, AfterRead(data, at, width), padding), width, padding, height - 1);
    }
  }

  // The pixels as they are stored.
  function PixelsFrom(data: seq<Byte>, at: Cursor, width: nat, height: nat): (r: seq<Byte>)
    ensures |r| == width * height
  {
    RowsFromSize(data, at, width, PaddingSize(width, 4), height);
    if PaddingSize(width, 4) == 0 then ReadBytes(data, at, width * height)
    else RowsFrom(data, at, width, PaddingSize(width, 4), height)
  }

  predicate Fits(width: nat, height: nat, flip: bool) {
    && width < 0x1000_0000 && height < 0x8000_0000 && width * height < 0x8000_0000
    && (flip ==> width * height > 0)
  }

  // `get_bmp_data` for 8-bit bitmaps.
  function BitmapFrom(data: seq<Byte>, at: Cursor, flip: bool): Bitmap {
    var header := ReadBytes(data, at, HEADER_SIZE);
    var at := AfterRead(data, at, HEADER_SIZE);
    if header[..2] != BMP_TAG then NotBmp
    else
      var info := ReadBytes(data, at, INFO_SIZE);
      var at := AfterRead(data, at, INFO_SIZE);
      var width, height := FromLittleEndian(info[4..8]), FromLittleEndian(info[8..12]);
      if FromLittleEndian(info[14..16]) != 8 || !Fits(width, height, flip) then Unsupported
      else
        var pixels := PixelsFrom(data, AfterReads(data, at, 4, PALETTE_SIZE), width, height);
        Read(width, height, PaletteFrom(data, at, PALETTE_SIZE), Stored(pixels, width, height, flip))
  }

  method ReadPalette(stream: InputStream) returns (colours: seq<Colour>)
    modifies stream
    ensures colours == PaletteFrom(stream.data, old(stream.cursor), PALETTE_SIZE)
    ensures stream.cursor == AfterReads(stream.data, old(stream.cursor), 4, PALETTE_SIZE)
  {
    hide ReadBytes, AfterRead;
    colours := [];
    for i := 0 to PALETTE_SIZE
      invariant PaletteFrom(stream.data, old(stream.cursor), PALETTE_SIZE)
             == colours + PaletteFrom(stream.data, stream.cursor, PALETTE_SIZE - i)
      invariant AfterReads(stream.data, old(stream.cursor), 4, PALETTE_SIZE)
             == AfterReads(stream.data, stream.cursor, 4, PALETTE_SIZE - i)
    {
      PaletteStep(stream.data, stream.cursor, PALETTE_SIZE - i, colours);
      var quad := stream.Read(4);
      colours := colours + [Colour(quad[2], quad[1], quad[0], 255)];
    }
  }

  lemma PaletteStep(data: seq<Byte>, at: Cursor, count: nat, before: seq<Colour>)
    requires count > 0
    ensures var quad := ReadBytes(data, at, 4);
            before + PaletteFrom(data, at, count)
            == before + [Colour(quad[2], quad[1], quad[0], 255)] + PaletteFrom(data, AfterRead(data, at, 4), count - 1)
    ensures AfterReads(data, at, 4, count) == AfterReads(data, AfterRead(data, at, 4), 4, count - 1)
  {
    hide ReadBytes, AfterRead;
  }

  // `read_pixel_data`.
  method ReadPixels(stream: InputStream, width: nat, height: nat) returns (pixels: seq<Byte>)
    modifies stream
    ensures pixels == PixelsFrom(stream.data, old(stream.cursor), width, height)
  {
    hide ReadBytes, AfterRead;
    var padding := GetPaddingSize(width, 4);
    if padding == 0 {
      pixels := stream.Read(width * height);
      return;
    }
    pixels := [];
    for i := 0 to height
      invariant RowsFrom(stream.data, old(stream.cursor), width, padding, height)
             == pixels + RowsFrom(stream.data, stream.cursor, width, padding, height - i)
    {
      RowsFromStep(stream.data, stream.cursor, width, padding, height - i, pixels);
      var row := stream.Read(width);
      var skipped := stream.Read(padding);
      pixels := pixels + row;
    }
  }

  lemma RowsFromStep(data: seq<Byte>, at: Cursor, width: nat, padding: nat, height: nat, before: seq<Byte>)
    requires height > 0
    ensures before + RowsFrom(data, at, width, padding, height)
         == before + ReadBytes(data, at, width)
            + RowsFrom(data, AfterRead(data, AfterRead(data, at, width), padding), width, padding, height - 1)
  {
    hide ReadBytes, AfterRead;
  }

  method ReadBmp(stream: InputStream, flip: bool) returns (bitmap: Bitmap)
    modifies stream
    ensures bitmap == BitmapFrom(stream.data, old(stream.cursor), flip)
  {
    hide ReadBytes, AfterRead, PaletteFrom, AfterReads, PixelsFrom, RowsSwapped, FromLittleEndian;
    var header := stream.Read(HEADER_SIZE);
    if header[..2] != BMP_TAG {
      return NotBmp;
    }
    var info := stream.Read(INFO_SIZE);
    var width, height := FromLittleEndian(info[4..8]), FromLittleEndian(info[8..12]);
    if FromLittleEndian(info[14..16]) != 8 || !Fits(width, height, flip) {
      return Unsupported;
    }
    var colours := ReadPalette(stream);
    var pixels := ReadPixels(stream, width, height);
    if flip {
      WholeRows(width, height);
      SameHeight(width, |pixels| / width, height);
      pixels := FlipCopy(pixels, width);
    }
    bitmap := Read(width, height, colours, pixels);
  }

  lemma WholeRows(width: nat, height: nat)
    requires width * height > 0
    ensures width > 0 && (width * height) % width == 0 && width * (width * height / width) == width * height
  {
    ModuloUnique(width * height, width, height, 0);
  }

  lemma {:induction false} NothingToFlip(pixels: seq<Byte>, width: nat, height: nat)
    requires |pixels| == width * height == 0
    ensures RowsSwapped(pixels, width, height) == []
  {
  }

  // ----- the round trip -----

  predicate At(data: seq<Byte>, pos: nat, bytes: seq<Byte>) {
    pos + |bytes| <= |data| && data[pos..pos + |bytes|] == bytes
  }

  lemma AtBoth(data: seq<Byte>, pos: nat, a: seq<Byte>, b: seq<Byte>)
    requires At(data, pos, a + b)
    ensures At(data, pos, a) && At(data, pos + |a|, b)
  {
    var n := |a| + |b|;
    SliceOfSlice(data, pos, pos + n, 0, |a|);
    SliceOfSlice(data, pos, pos + n, |a|, n);
    assert (a + b)[0..|a|] == a && (a + b)[|a|..n] == b;
  }

  lemma ReadsWhatIsThere(data: seq<Byte>, pos: nat, bytes: seq<Byte>)
    requires At(data, pos, bytes)
    ensures ReadBytes(data, Cursor(pos, false), |bytes|) == bytes
    ensures AfterRead(data, Cursor(pos, false), |bytes|) == Cursor(pos + |bytes|, false)
  {
  }

  // A colour as it comes back: the fourth byte is always 255.
  function Opaque(colours: seq<Colour>): (r: seq<Colour>)
    ensures |r| == |colours|
    ensures forall i :: 0 <= i < |r| ==> r[i] == colours[i].(flags := 255)
  {
    seq(|colours|, i requires 0 <= i < |colours| => colours[i].(flags := 255))
  }

  lemma {:induction false} QuadsFromFront(colours: seq<Colour>)
    requires |colours| > 0
    ensures Quads(colours) == Quad(colours[0]) + Quads(colours[1..])
  {
    hide Quad;
    var n := |colours|;
    if n == 1 {
      assert colours[..0] == [] && colours[1..] == [];
    } else {
      QuadsFromFront(colours[..n - 1]);
      assert colours[..n - 1][1..] == colours[1..][..n - 2];
    }
  }

  lemma {:induction false} PaletteReadsBack(data: seq<Byte>, pos: nat, colours: seq<Colour>)
    requires At(data, pos, Quads(colours))
    ensures PaletteFrom(data, Cursor(pos, false), |colours|) == Opaque(colours)
    ensures AfterReads(data, Cursor(pos, false), 4, |colours|) == Cursor(pos + 4 * |colours|, false)
    decreases |colours|
  {
    hide At, ReadBytes, AfterRead, Quads;
    if |colours| > 0 {
      QuadsFromFront(colours);
      AtBoth(data, pos, Quad(colours[0]), Quads(colours[1..]));
      ReadsWhatIsThere(data, pos, Quad(colours[0]));
      PaletteReadsBack(data, pos + 4, colours[1..]);
      assert Opaque(colours) == [colours[0].(flags := 255)] + Opaque(colours[1..]);
    }
  }

  lemma {:induction false} RowsReadBack(data: seq<Byte>, pos: nat, pixels: seq<Byte>,
                                    width: nat, padding: nat, height: nat)
    requires |pixels| == width * height && At(data, pos, PaddedRows(pixels, width, padding, height))
    ensures RowsFrom(data, Cursor(pos, false), width, padding, height) == pixels
    decreases height
  {
    hide At, ReadBytes, AfterRead;
    if height > 0 {
      RowLengths(width, height);
      var row, rest := pixels[..width], PaddedRows(pixels[width..], width, padding, height - 1);
      AtBoth(data, pos, row + Zeros(padding), rest);
      AtBoth(data, pos, row, Zeros(padding));
      ReadsWhatIsThere(data, pos, row);
      ReadsWhatIsThere(data, pos + width, Zeros(padding));
      RowsReadBack(data, pos + width + padding, pixels[width..], width, padding, height - 1);
      assert pixels == row + pixels[width..];
    }
  }

  lemma PixelsReadBack(data: seq<Byte>, pos: nat, pixels: seq<Byte>, width: nat, height: nat)
    requires |pixels| == width * height && At(data, pos, PaddedRows(pixels, width, PaddingSize(width, 4), height))
    ensures PixelsFrom(data, Cursor(pos, false), width, height) == pixels
  {
    hide At, PaddedRows, RowsFrom;
    if PaddingSize(width, 4) == 0 {
      UnpaddedRows(pixels, width, height);
      ReadsWhatIsThere(data, pos, pixels);
    } else {
      RowsReadBack(data, pos, pixels, width, PaddingSize(width, 4), height);
    }
  }

  lemma InfoFields(width: nat, height: nat)
    requires width < 0x1_0000_0000 && height < 0x1_0000_0000
    ensures var info := Info(width, height);
            && FromLittleEndian(info[4..8]) == width && FromLittleEndian(info[8..12]) == height
            && FromLittleEndian(info[14..16]) == 8
  {
    hide LittleEndian, FromLittleEndian;
    FieldWidths();
    StoreThenLoad(width, 4);
    StoreThenLoad(height, 4);
    StoreThenLoad(8, 2);
    var info := Info(width, height);
    assert info[4..8] == LittleEndian(width, 4);
    assert info[8..12] == LittleEndian(height, 4);
    assert info[14..16] == LittleEndian(8, 2);
  }

  // Where the four parts of a file are.
  lemma FileParts(colours: seq<Colour>, pixels: seq<Byte>, width: nat, height: nat)
    requires |pixels| == width * height
    ensures var data := BmpBytes(colours, pixels, width, height);
            var offset := HEADER_SIZE + INFO_SIZE + 4 * |colours|;
            && At(data, 0, Header(offset + width * height, offset))
            && At(data, HEADER_SIZE, Info(width, height))
            && At(data, HEADER_SIZE + INFO_SIZE, Quads(colours))
            && At(data, offset, PaddedRows(pixels, width, PaddingSize(width, 4), height))
  {
    hide At, PaddedRows, Quads, Header, Info;
    var data := BmpBytes(colours, pixels, width, height);
    var offset := HEADER_SIZE + INFO_SIZE + 4 * |colours|;
    var header, info, quads := Header(offset + width * height, offset), Info(width, height), Quads(colours);
    var rows := PaddedRows(pixels, width, PaddingSize(width, 4), height);
    FourParts(header, info, quads, rows);
  }

  lemma FourParts(a: seq<Byte>, b: seq<Byte>, c: seq<Byte>, d: seq<Byte>)
    ensures var data := a + b + c + d;
            At(data, 0, a) && At(data, |a|, b) && At(data, |a| + |b|, c) && At(data, |a| + |b| + |c|, d)
  {
    var data := a + b + c + d;
    assert data[0..|data|] == data;
    AtBoth(data, 0, a + b + c, d);
    AtBoth(data, 0, a + b, c);
    AtBoth(data, 0, a, b);
  }

  lemma StoredTwice(pixels: seq<Byte>, width: nat, height: nat, flip: bool)
    requires |pixels| == width * height
    ensures Stored(Stored(pixels, width, height, flip), width, height, flip) == pixels
  {
    if flip {
      FlipTwice(pixels, width, height);
    }
  }

  // Reading a written 8-bit bitmap with the same flip setting gives back the size,
  // the pixels and, when there are 256 of them, the colours with full opacity.
  lemma BitmapRoundTrip(colours: seq<Colour>, pixels: seq<Byte>, width: nat, height: nat, flip: bool)
    requires |pixels| == width * height && Fits(width, height, flip)
    requires |colours| == PALETTE_SIZE
    ensures BitmapFrom(BmpBytes(colours, Stored(pixels, width, height, flip), width, height), Cursor(0, false), flip)
         == Read(width, height, Opaque(colours), pixels)
  {
    hide At, PaddedRows, Quads, PaletteFrom, AfterReads, PixelsFrom, ReadBytes, AfterRead, Info, BmpBytes, Stored,
         FromLittleEndian, LittleEndian, Opaque;
    var stored := Stored(pixels, width, height, flip);
    var data := BmpBytes(colours, stored, width, height);
    var offset := HEADER_SIZE + INFO_SIZE + 4 * |colours|;
    FileParts(colours, stored, width, height);
    ReadsWhatIsThere(data, 0, Header(offset + width * height, offset));
    ReadsWhatIsThere(data, HEADER_SIZE, Info(width, height));
    InfoFields(width, height);
    PaletteReadsBack(data, HEADER_SIZE + INFO_SIZE, colours);
    PixelsReadBack(data, offset, stored, width, height);
    StoredTwice(pixels, width, height, flip);
  }

  lemma {:induction false} PaletteHasFixedSize(data: seq<Byte>, at: Cursor, count: nat)
    ensures |PaletteFrom(data, at, count)| == count
    decreases count
  {
    if count > 0 {
      PaletteHasFixedSize(data, AfterRead(data, at, 4), count - 1);
    }
  }

  // The reader takes 256 colours whatever was written: a file's whole contents come
  // back exactly when it has that many.
  lemma RoundTripExactlyWithFullPalette(colours: seq<Colour>, pixels: seq<Byte>, width: nat, height: nat, flip: bool)
    requires |pixels| == width * height && Fits(width, height, flip)
    ensures BitmapFrom(BmpBytes(colours, Stored(pixels, width, height, flip), width, height), Cursor(0, false), flip)
            == Read(width, height, Opaque(colours), pixels)
            <==> |colours| == PALETTE_SIZE
  {
    hide BmpBytes, Stored, ReadBytes, AfterRead, PaletteFrom, PixelsFrom, AfterReads, FromLittleEndian;
    if |colours| == PALETTE_SIZE {
      BitmapRoundTrip(colours, pixels, width, height, flip);
    }
    var data := BmpBytes(colours, Stored(pixels, width, height, flip), width, height);
    var at := AfterRead(data, AfterRead(data, Cursor(0, false), HEADER_SIZE), INFO_SIZE);
    PaletteHasFixedSize(data, at, PALETTE_SIZE);
  }
}
