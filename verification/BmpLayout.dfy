// A written 8-bit bitmap byte by byte.
module BmpLayout {
  import opened Bytes
  import opened Streams
  import opened BitmapFlip
  import opened Palette
  import opened BmpFile

  // The value of the field of `width` bytes at `pos`.
  function Field(data: seq<Byte>, pos: nat, width: nat): nat
    requires pos + width <= |data|
  {
    FromLittleEndian(data[pos..pos + width])
  }

  lemma FieldAt(data: seq<Byte>, pos: nat, value: nat, width: nat)
    requires At(data, pos, LittleEndian(value, width)) && value < Power256(width)
    ensures pos + width <= |data| && Field(data, pos, width) == value
  {
    hide LittleEndian, FromLittleEndian, Power256;
    StoreThenLoad(value, width);
  }

  // The file header: tag, a size that leaves the padding of the rows out, two zero fields,
  // and where the rows begin.
  lemma HeaderInBytes(data: seq<Byte>, size: nat, offset: nat)
    requires At(data, 0, Header(size, offset)) && size < 0x1_0000_0000 && offset < 0x1_0000_0000
    ensures |data| >= 14 && data[0..2] == [0x42, 0x4D]
    ensures Field(data, 2, 4) == size && Field(data, 6, 2) == 0 && Field(data, 8, 2) == 0
    ensures Field(data, 10, 4) == offset
  {
    hide At, LittleEndian, FromLittleEndian, Power256, Field;
    var tag: seq<Byte> := [0x42, 0x4D];
    var a, z, b := LittleEndian(size, 4), LittleEndian(0, 2), LittleEndian(offset, 4);
    AtBoth(data, 0, tag + a + z + z, b);
    AtBoth(data, 0, tag + a + z, z);
    AtBoth(data, 0, tag + a, z);
    AtBoth(data, 0, tag, a);
    FieldWidths();
    FieldAt(data, 2, size, 4);
    FieldAt(data, 6, 0, 2);
    FieldAt(data, 8, 0, 2);
    FieldAt(data, 10, offset, 4);
    AtIsSlice(data, 0, tag);
  }

  lemma AtIsSlice(data: seq<Byte>, pos: nat, bytes: seq<Byte>)
    requires At(data, pos, bytes)
    ensures pos + |bytes| <= |data| && data[pos..pos + |bytes|] == bytes
  {
  }

  // The information header.
  lemma InfoInBytes(data: seq<Byte>, width: nat, height: nat)
    requires At(data, 14, Info(width, height))
    requires width < 0x1_0000_0000 && height < 0x1_0000_0000 && width * height < 0x1_0000_0000
    ensures |data| >= 54
    ensures Field(data, 14, 4) == 40 && Field(data, 18, 4) == width && Field(data, 22, 4) == height
    ensures Field(data, 26, 2) == 1 && Field(data, 28, 2) == 8
    ensures Field(data, 30, 4) == 0 && Field(data, 34, 4) == width * height
    ensures data[38..54] == Zeros(16)
  {
    hide At, LittleEndian, FromLittleEndian, Power256, Field;
    var a, b, c := LittleEndian(40, 4), LittleEndian(width, 4), LittleEndian(height, 4);
    var d, e := LittleEndian(1, 2), LittleEndian(8, 2);
    var f, g, z := LittleEndian(0, 4), LittleEndian(width * height, 4), Zeros(16);
    AtBoth(data, 14, a + b + c + d + e + f + g, z);
    AtBoth(data, 14, a + b + c + d + e + f, g);
    AtBoth(data, 14, a + b + c + d + e, f);
    AtBoth(data, 14, a + b + c + d, e);
    AtBoth(data, 14, a + b + c, d);
    AtBoth(data, 14, a + b, c);
    AtBoth(data, 14, a, b);
    FieldWidths();
    FieldAt(data, 14, 40, 4);
    FieldAt(data, 18, width, 4);
    FieldAt(data, 22, height, 4);
    FieldAt(data, 26, 1, 2);
    FieldAt(data, 28, 8, 2);
    FieldAt(data, 30, 0, 4);
    FieldAt(data, 34, width * height, 4);
    AtIsSlice(data, 38, z);
  }

  lemma {:induction false} ColourAt(data: seq<Byte>, pos: nat, colours: seq<Colour>, i: nat)
    requires At(data, pos, Quads(colours)) && i < |colours|
    ensures pos + 4 * i + 4 <= |data|
    ensures data[pos + 4 * i..pos + 4 * i + 4] == [colours[i].blue, colours[i].green, colours[i].red, 0]
  {
    hide At;
    var n := |colours| - 1;
    AtBoth(data, pos, Quads(colours[..n]), Quad(colours[n]));
    if i < n {
      ColourAt(data, pos, colours[..n], i);
    } else {
      AtIsSlice(data, pos + 4 * n, Quad(colours[n]));
    }
  }

  lemma {:induction false} RowAt(data: seq<Byte>, pos: nat, pixels: seq<Byte>, width: nat, padding: nat,
                                 height: nat, r: nat)
    requires |pixels| == width * height && r < height && At(data, pos, PaddedRows(pixels, width, padding, height))
    ensures At(data, pos + (width + padding) * r, Row(pixels, width, height, r) + Zeros(padding))
    decreases r
  {
    hide At, PaddedRows, Row;
    SplitRow(pixels, width, height);
    var row, rest := pixels[..width], pixels[width..];
    FirstPaddedRow(row, rest, width, padding, height - 1);
    AtBoth(data, pos, row + Zeros(padding), PaddedRows(rest, width, padding, height - 1));
    if r == 0 {
      FirstRowIs(row, rest, width, height - 1);
    } else {
      RowAt(data, pos + width + padding, rest, width, padding, height - 1, r - 1);
      RowBehind(row, rest, width, height - 1, r);
      OneStride(width + padding, r);
    }
  }

  lemma OneStride(stride: nat, r: nat)
    requires r > 0
    ensures stride * r == stride + stride * (r - 1)
  {
  }

  // Rows are as far apart as their width, rounded up to a multiple of four.
  function Pitch(width: nat): (r: nat)
    ensures width <= r < width + 4 && r % 4 == 0
  {
    (width + 3) / 4 * 4
  }

  lemma PitchIsPadded(width: nat)
    ensures Pitch(width) == width + PaddingSize(width, 4)
  {
    PaddingUnique(width, 4, Pitch(width) - width, PaddingSize(width, 4));
  }

  // The whole file up to the rows: headers, and the colours as blue, green, red and zero.
  lemma BitmapInBytes(colours: seq<Colour>, pixels: seq<Byte>, width: nat, height: nat, flip: bool)
    requires |pixels| == width * height && width < 0x1_0000_0000 && height < 0x1_0000_0000
    requires 54 + 4 * |colours| + width * height < 0x1_0000_0000
    ensures var data := BmpBytes(colours, Stored(pixels, width, height, flip), width, height);
            var offset := 54 + 4 * |colours|;
            && |data| >= offset
            && data[0..2] == [0x42, 0x4D]
            && Field(data, 2, 4) == offset + width * height && Field(data, 10, 4) == offset
            && Field(data, 14, 4) == 40 && Field(data, 18, 4) == width && Field(data, 22, 4) == height
            && Field(data, 26, 2) == 1 && Field(data, 28, 2) == 8
            && Field(data, 30, 4) == 0 && Field(data, 34, 4) == width * height
    ensures var data := BmpBytes(colours, Stored(pixels, width, height, flip), width, height);
            forall i :: 0 <= i < |colours| ==>
              && 54 + 4 * i + 4 <= |data|
              && data[54 + 4 * i..54 + 4 * i + 4] == [colours[i].blue, colours[i].green, colours[i].red, 0]
  {
    hide At, PaddedRows, Quads, Header, Info, BmpBytes, Stored, Field, Quad;
    var stored := Stored(pixels, width, height, flip);
    var data := BmpBytes(colours, stored, width, height);
    var offset := 54 + 4 * |colours|;
    FileParts(colours, stored, width, height);
    HeaderInBytes(data, offset + width * height, offset);
    InfoInBytes(data, width, height);
    forall i | 0 <= i < |colours|
      ensures 54 + 4 * i + 4 <= |data|
      ensures data[54 + 4 * i..54 + 4 * i + 4] == [colours[i].blue, colours[i].green, colours[i].red, 0]
    {
      ColourAt(data, 54, colours, i);
    }
    AtIsSlice(data, 54, Quads(colours));
  }

  // Line `r` of those that begin at `pos`, `pitch` bytes each, is `row` and zeros.
  predicate Line(data: seq<Byte>, pos: nat, pitch: nat, r: nat, row: seq<Byte>) {
    && |row| <= pitch && pos + pitch * r + pitch <= |data|
    && data[pos + pitch * r..pos + pitch * r + pitch] == row + Zeros(pitch - |row|)
  }

  lemma RowInFile(data: seq<Byte>, pos: nat, pixels: seq<Byte>, width: nat, pitch: nat, height: nat, r: nat)
    requires |pixels| == width * height && r < height && pitch >= width
    requires At(data, pos, PaddedRows(pixels, width, pitch - width, height))
    ensures Line(data, pos, pitch, r, Row(pixels, width, height, r))
  {
    hide At, PaddedRows, Row;
    RowAt(data, pos, pixels, width, pitch - width, height, r);
    RowLength(pixels, width, height, r);
    AtIsSlice(data, pos + pitch * r, Row(pixels, width, height, r) + Zeros(pitch - width));
  }

  lemma RowLength(pixels: seq<Byte>, width: nat, height: nat, r: nat)
    requires |pixels| == width * height && r < height
    ensures |Row(pixels, width, height, r)| == width
  {
    RowInBuffer(width, height, r);
  }

  // A flipped bitmap is stored with its last row first.
  lemma StoredRow(pixels: seq<Byte>, width: nat, height: nat, flip: bool, r: nat)
    requires |pixels| == width * height && r < height
    ensures Row(Stored(pixels, width, height, flip), width, height, r)
         == Row(pixels, width, height, if flip then height - 1 - r else r)
  {
    hide Row, RowsSwapped;
    if flip {
      FlipMovesRows(pixels, width, height, height - 1 - r);
    }
  }

  lemma RowsPart(colours: seq<Colour>, pixels: seq<Byte>, width: nat, height: nat)
    requires |pixels| == width * height
    ensures At(BmpBytes(colours, pixels, width, height), 54 + 4 * |colours|,
               PaddedRows(pixels, width, PaddingSize(width, 4), height))
  {
    hide At, PaddedRows, BmpBytes, PaddingSize;
    FileParts(colours, pixels, width, height);
  }

  // The rows of the file, each on a multiple of four bytes behind the first with zeros up
  // to the next one.
  lemma RowsInBytes(colours: seq<Colour>, pixels: seq<Byte>, width: nat, height: nat, flip: bool, r: nat)
    requires |pixels| == width * height && r < height
    ensures Line(BmpBytes(colours, Stored(pixels, width, height, flip), width, height),
                 54 + 4 * |colours|, Pitch(width), r,
                 Row(pixels, width, height, if flip then height - 1 - r else r))
  {
    hide *;
    var stored := Stored(pixels, width, height, flip);
    RowsPart(colours, stored, width, height);
    PitchIsPadded(width);
    RowInFile(BmpBytes(colours, stored, width, height), 54 + 4 * |colours|, stored, width, Pitch(width), height, r);
    StoredRow(pixels, width, height, flip, r);
  }

  // A stream that does not begin with the tag is no bitmap.
  lemma TagDecides(data: seq<Byte>, flip: bool)
    requires |data| >= 2
    ensures BitmapFrom(data, Cursor(0, false), flip) == NotBmp <==> data[..2] != [0x42, 0x4D]
  {
    hide FromLittleEndian, PaletteFrom, PixelsFrom, AfterReads, Stored, Fits;
    assert ReadBytes(data, Cursor(0, false), HEADER_SIZE)[..2] == data[..2];
  }
}
