// Writing a VOL archive: `create_vol_file`.
module VolWriter {
  import opened Bytes
  import opened Streams
  import opened VolFormat
  import opened Wrappers

  lemma OneMoreZero(before: seq<Byte>, n: nat)
    ensures before + Zeros(n) + [0] == before + Zeros(n + 1)
    ensures before + Zeros(0) == before
  {
  }

  lemma PaddingProgress(count: nat, alignment: nat, written: nat)
    requires alignment > 0 && written <= PaddingSize(count, alignment)
    ensures (count + written) % alignment == 0 <==> written == PaddingSize(count, alignment)
  {
    if (count + written) % alignment == 0 {
      PaddingIsMinimal(count, alignment, written);
    }
  }

  // The padding loops: NUL bytes until a counter that starts at `count` reaches
  // a multiple of `alignment`.
  method WritePadding(output: OutputStream, count: nat, alignment: nat,
                      ghost base: seq<Byte>, ghost at: nat, ghost before: seq<Byte>)
    requires Wrote(output, base, at, before) && alignment > 0
    modifies output
    ensures Wrote(output, base, at, before + Zeros(PaddingSize(count, alignment)))
  {
    var n := count;
    ghost var written: nat := 0;
    OneMoreZero(before, 0);
    PaddingProgress(count, alignment, 0);
    while n % alignment != 0
      invariant n == count + written && written <= PaddingSize(count, alignment)
      invariant n % alignment == 0 <==> written == PaddingSize(count, alignment)
      invariant Wrote(output, base, at, before + Zeros(written))
      decreases PaddingSize(count, alignment) - written
    {
      OneMoreZero(before, written);
      Append(output, [0], base, at, before + Zeros(written));
      PaddingProgress(count, alignment, written + 1);
      n := n + 1;
      written := written + 1;
    }
  }

  // The location map after the first `count` files: `emplace` leaves a name that
  // is already there alone.
  function LocationMap(files: seq<VolumeFile>, from: nat, count: nat): map<Name, nat>
    requires AllWritable(files) && count <= |files|
  {
    if count == 0 then map[]
    else
      var before := LocationMap(files, from, count - 1);
      var name := files[count - 1].filename;
      if name in before then before else before[name := Location(files, from, count - 1)]
  }

  // Whatever the files, a name maps to the block of the first file that carries it.
  lemma {:induction false} LocationIsFirst(files: seq<VolumeFile>, from: nat, count: nat, i: nat)
    requires AllWritable(files) && i < count <= |files|
    ensures files[i].filename in LocationMap(files, from, count)
    ensures LocationMap(files, from, count)[files[i].filename]
         == Location(files, from, FirstWithName(files, files[i].filename))
  {
    hide Blocks;
    var name := files[i].filename;
    var first := FirstWithName(files, name);
    if first < count - 1 {
      LocationIsFirst(files, from, count - 1, first);
    } else {
      OnlyEarlierNames(files, from, count - 1);
    }
  }

  lemma {:induction false} OnlyEarlierNames(files: seq<VolumeFile>, from: nat, count: nat)
    requires AllWritable(files) && count <= |files|
    ensures forall name :: name in LocationMap(files, from, count) ==>
              exists j :: 0 <= j < count && files[j].filename == name
  {
    if count > 0 {
      OnlyEarlierNames(files, from, count - 1);
      forall name | name in LocationMap(files, from, count)
        ensures exists j :: 0 <= j < count && files[j].filename == name
      {
        if name !in LocationMap(files, from, count - 1) {
          assert files[count - 1].filename == name;
        }
      }
    }
  }

  method WriteBlocks(output: OutputStream, files: seq<VolumeFile>,
                     ghost base: seq<Byte>, ghost at: nat, ghost before: seq<Byte>)
    returns (locations: map<Name, nat>)
    requires AllWritable(files) && Wrote(output, base, at, before)
    modifies output
    ensures Wrote(output, base, at, before + Blocks(files, at + |before|))
    ensures locations == LocationMap(files, at + |before|, |files|)
  {
    hide Blocks;
    locations := map[];
    ghost var from := at + |before|;
    NoBlocks(files, from, before);
    for k := 0 to |files|
      invariant Wrote(output, base, at, before + Blocks(files[..k], from))
      invariant locations == LocationMap(files, from, k)
    {
      var file := files[k];
      if file.filename !in locations {
        locations := locations[file.filename := output.pos];
      }
      WriteNextBlock(output, files, k, base, at, before);
    }
    assert files[..|files|] == files;
  }

  method WriteNextBlock(output: OutputStream, files: seq<VolumeFile>, k: nat,
                        ghost base: seq<Byte>, ghost at: nat, ghost before: seq<Byte>)
    requires AllWritable(files) && k < |files|
    requires Wrote(output, base, at, before + Blocks(files[..k], at + |before|))
    modifies output
    ensures Wrote(output, base, at, before + Blocks(files[..k + 1], at + |before|))
  {
    hide Blocks;
    BlocksStep(files, at + |before|, k, before);
    WriteBlock(output, files[k], base, at, before + Blocks(files[..k], at + |before|));
  }

  method WriteBlock(output: OutputStream, file: VolumeFile,
                    ghost base: seq<Byte>, ghost at: nat, ghost before: seq<Byte>)
    requires Writable(file) && Wrote(output, base, at, before)
    modifies output
    ensures Wrote(output, base, at,
                  before + (BlockHeader(file) + Payload(file))
                  + Zeros(PaddingSize(at + |before| + HEADER_SIZE + StoredSize(file), 4)))
  {
    hide Overwrite, LittleEndian, FromLittleEndian, PaddingSize;
    Append(output, BLOCK_TAG, base, at, before);
    var narrowed := LittleEndian(if file.compressedSize.Some? then file.compressedSize.value else file.size, 3);
    NarrowedSize(file);
    Append(output, narrowed, base, at, before + BLOCK_TAG);
    Append(output, [0x80], base, at, before + BLOCK_TAG + narrowed);
    var size := FromLittleEndian(narrowed);
    Append(output, file.content[..size], base, at, before + BLOCK_TAG + narrowed + [0x80]);
    Regroup(before, BLOCK_TAG, narrowed, [0x80], file.content[..size]);
    WritePadding(output, output.pos, 4, base, at, before + (BlockHeader(file) + Payload(file)));
  }

  // Narrowing to 24 bits keeps the size modulo 2^24.
  lemma NarrowedSize(file: VolumeFile)
    ensures var declared := if file.compressedSize.Some? then file.compressedSize.value else file.size;
            && LittleEndian(declared, 3) == LittleEndian(StoredSize(file), 3)
            && FromLittleEndian(LittleEndian(declared, 3)) == StoredSize(file)
  {
    var declared := if file.compressedSize.Some? then file.compressedSize.value else file.size;
    FieldWidths();
    StoreThenLoad(declared, 3);
    LoadThenStore(LittleEndian(declared, 3));
  }

  method WriteStringTable(output: OutputStream, files: seq<VolumeFile>,
                          ghost base: seq<Byte>, ghost at: nat, ghost before: seq<Byte>)
    requires Wrote(output, base, at, before)
    modifies output
    ensures Wrote(output, base, at, before + StringTable(files))
  {
    var filenames: seq<Byte> := [];
    for k := 0 to |files|
      invariant filenames == NameBytes(files[..k])
    {
      assert files[..k + 1][..k] == files[..k];
      filenames := filenames + files[k].filename + [0];
    }
    assert files[..|files|] == files;
    var size := LittleEndian(|filenames|, 4);
    Append(output, STRING_TAG, base, at, before);
    Append(output, size, base, at, before + STRING_TAG);
    Append(output, filenames, base, at, before + STRING_TAG + size);
    WritePadding(output, |filenames|, 2, base, at, before + STRING_TAG + size + filenames);
    StringTablePieces(files, before);
  }

  lemma StringTablePieces(files: seq<VolumeFile>, before: seq<Byte>)
    ensures before + STRING_TAG + LittleEndian(|NameBytes(files)|, 4) + NameBytes(files)
            + Zeros(PaddingSize(|NameBytes(files)|, 2)) == before + StringTable(files)
  {
  }

  lemma EntriesStep(files: seq<VolumeFile>, from: nat, k: nat, header: seq<Byte>)
    requires AllWritable(files) && k < |files|
    ensures header + Entries(files, from, k)
            + EntryBytes(Location(files, from, FirstWithName(files, files[k].filename)), files[k])
         == header + Entries(files, from, k + 1)
  {
    hide EntryBytes, Blocks, FirstWithName, Location;
  }

  method WriteIndex(output: OutputStream, files: seq<VolumeFile>, locations: map<Name, nat>, ghost from: nat,
                    ghost base: seq<Byte>, ghost at: nat, ghost before: seq<Byte>)
    requires AllWritable(files) && Wrote(output, base, at, before)
    requires locations == LocationMap(files, from, |files|)
    modifies output
    ensures Wrote(output, base, at, before + Index(files, from))
  {
    hide Entry, EntryBytes, Blocks, LocationMap, Wrote;
    var size := LittleEndian(ENTRY_SIZE * |files|, 4);
    Append(output, INDEX_TAG, base, at, before);
    Append(output, size, base, at, before + INDEX_TAG);
    ghost var header := before + INDEX_TAG + size;
    assert header + Entries(files, from, 0) == header;
    for k := 0 to |files|
      invariant Wrote(output, base, at, header + Entries(files, from, k))
    {
      LocationIsFirst(files, from, |files|, k);
      WriteEntry(output, files[k], locations[files[k].filename], base, at, header + Entries(files, from, k));
      EntriesStep(files, from, k, header);
    }
    assert header + Entries(files, from, |files|) == before + Index(files, from);
  }

  method WriteEntry(output: OutputStream, file: VolumeFile, location: nat,
                    ghost base: seq<Byte>, ghost at: nat, ghost before: seq<Byte>)
    requires Wrote(output, base, at, before)
    modifies output
    ensures Wrote(output, base, at, before + EntryBytes(location, file))
  {
    hide Wrote;
    var zero := LittleEndian(0, 4);
    var place := LittleEndian(location, 4);
    var size := LittleEndian(file.size, 4);
    ZeroField();
    Regroup(before, zero + zero, place, size, [file.compressionType]);
    assert before + zero + zero == before + (zero + zero);
    Append(output, zero, base, at, before);
    Append(output, zero, base, at, before + zero);
    Append(output, place, base, at, before + zero + zero);
    Append(output, size, base, at, before + zero + zero + place);
    Append(output, [file.compressionType], base, at, before + zero + zero + place + size);
  }

  lemma ZeroField()
    ensures LittleEndian(0, 4) == Zeros(4)
  {
    assert LittleEndian(0, 3) == [0, 0, 0];
  }

  lemma Regroup(before: seq<Byte>, a: seq<Byte>, b: seq<Byte>, c: seq<Byte>, d: seq<Byte>)
    ensures before + a + b + c + d == before + (a + b + c + d)
  {
  }

  // `create_vol_file`: blocks first, then the header is patched with the place
  // where the blocks end, then the string table and the index follow. Positions pass
  // through 32-bit integers; storing one keeps its low 32 bits.
  method CreateVolFile(output: OutputStream, files: seq<VolumeFile>)
    requires output.Valid() && AllWritable(files)
    modifies output
    ensures output.Valid()
    ensures output.data == Overwrite(old(output.data), old(output.pos), Image(files, old(output.pos)))
    ensures output.pos == old(output.pos) + |Image(files, old(output.pos))|
  {
    hide Blocks, StringTable, Index, LittleEndian, Overwrite;
    ghost var base := output.data;
    var start := output.pos;
    var size := LittleEndian(0, 4);
    NothingWritten(base, start);
    Append(output, ALT_FILE_TAG, base, start, []);
    Append(output, size, base, start, [] + ALT_FILE_TAG);
    ghost var header := [] + ALT_FILE_TAG + size;
    var locations := WriteBlocks(output, files, base, start, header);
    ghost var blocks := Blocks(files, start + HEADER_SIZE);

    var current := output.pos;
    assert header == ALT_FILE_TAG + size;
    ghost var placeholder := size;
    size := LittleEndian(current - start, 4);
    Patch(output, start + 4, size, base, start, ALT_FILE_TAG, placeholder, blocks);

    ghost var written := ALT_FILE_TAG + size + blocks;
    WriteStringTable(output, files, base, start, written);
    WriteIndex(output, files, locations, start + HEADER_SIZE, base, start, written + StringTable(files));
  }
}
