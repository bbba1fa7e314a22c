// The VOL archive byte by byte: what stands where in a written one, and what the
// reader does with any bytes.
module VolBytes {
  import opened Bytes
  import opened Streams
  import opened VolFormat
  import opened VolRoundTrip
  import opened Wrappers

  // ----- a written archive -----

  // A stretch of the blocks lies in the image where the block locations say.
  lemma BlocksInImage(files: seq<VolumeFile>, p: nat, q: nat)
    requires AllWritable(files) && 8 <= p <= q <= 8 + |Blocks(files, 8)|
    ensures q <= |Image(files, 0)| && Image(files, 0)[p..q] == Blocks(files, 8)[p - 8..q - 8]
  {
    hide Image, Blocks, NameBytes, Entries, LittleEndian;
    ImagePieces(files);
    SliceOfSlice(Image(files, 0), 8, 8 + |Blocks(files, 8)|, p - 8, q - 8);
  }

  // A block begins with its tag, the declared size modulo 2^24 and a marker. The size
  // declared is the compressed one if there is one.
  lemma BlockHeaderInBytes(files: seq<VolumeFile>, i: nat)
    requires AllWritable(files) && i < |files|
    ensures var at := Location(files, 8, i);
            var image := Image(files, 0);
            var declared := match files[i].compressedSize case Some(size) => size case None => files[i].size;
            && at + 8 <= |image|
            && image[at..at + 4] == [0x56, 0x42, 0x4C, 0x4B]
            && FromLittleEndian(image[at + 4..at + 7]) == declared % 0x100_0000
            && image[at + 7] == 0x80
  {
    hide Image, Blocks, Location, StoredSize, Payload, LittleEndian, FromLittleEndian;
    var at := Location(files, 8, i);
    var image := Image(files, 0);
    BlockAtLocation(files, 8, i);
    LocationInBlocks(files, i);
    BlocksInImage(files, at, at + 8);
    HeaderInBytes(files[i]);
    var header := image[at..at + 8];
    SliceOfSlice(image, at, at + 8, 0, 4);
    SliceOfSlice(image, at, at + 8, 4, 7);
    assert image[at + 7] == header[7];
  }

  // Behind the block's header stand the first bytes of the file's stream, as many as the
  // header says.
  lemma BlockPayloadInBytes(files: seq<VolumeFile>, i: nat)
    requires AllWritable(files) && i < |files|
    ensures var at := Location(files, 8, i) + 8;
            var image := Image(files, 0);
            var declared := match files[i].compressedSize case Some(size) => size case None => files[i].size;
            var n := declared % 0x100_0000;
            && at + n <= |image| && n <= |files[i].content|
            && image[at..at + n] == files[i].content[..n]
  {
    hide Image, Blocks, Location, BlockHeader;
    var at := Location(files, 8, i) + 8;
    var n := StoredSize(files[i]);
    BlockAtLocation(files, 8, i);
    LocationInBlocks(files, i);
    BlocksInImage(files, at, at + n);
    assert Writable(files[i]);
  }

  lemma LocationInBlocks(files: seq<VolumeFile>, i: nat)
    requires AllWritable(files) && i < |files|
    ensures Location(files, 8, i) >= 8
  {
  }

  lemma HeaderInBytes(file: VolumeFile)
    ensures var header := BlockHeader(file);
            var declared := match file.compressedSize case Some(size) => size case None => file.size;
            && header[0..4] == [0x56, 0x42, 0x4C, 0x4B]
            && FromLittleEndian(header[4..7]) == declared % 0x100_0000
            && header[7] == 0x80
  {
    hide LittleEndian, FromLittleEndian;
    FieldWidths();
    StoreThenLoad(StoredSize(file), 3);
    assert BlockHeader(file)[4..7] == LittleEndian(StoredSize(file), 3);
  }

  // The tags and sizes between the parts of an image.
  lemma ImageInBytes(files: seq<VolumeFile>)
    requires AllWritable(files) && |Image(files, 0)| < 0x1_0000_0000
    ensures var image := Image(files, 0);
            var footer := 8 + |Blocks(files, 8)|;
            var n := |NameBytes(files)|;
            var index := footer + 8 + n + n % 2;
            && |image| == index + 8 + 17 * |files|
            && image[..4] == [0x50, 0x56, 0x4F, 0x4C] && FromLittleEndian(image[4..8]) == footer
            && image[8..footer] == Blocks(files, 8)
            && image[footer..footer + 4] == [0x76, 0x6F, 0x6C, 0x73]
            && FromLittleEndian(image[footer + 4..footer + 8]) == n
            && image[footer + 8..footer + 8 + n] == NameBytes(files)
            && image[index..index + 4] == [0x76, 0x6F, 0x6C, 0x69]
            && FromLittleEndian(image[index + 4..index + 8]) == 17 * |files|
  {
    hide Image, Blocks, NameBytes, Entries, LittleEndian, FromLittleEndian;
    ImagePieces(files);
    FieldWidths();
    StoreThenLoad(8 + |Blocks(files, 8)|, 4);
    StoreThenLoad(|NameBytes(files)|, 4);
    StoreThenLoad(17 * |files|, 4);
  }

  // An entry of the index: eight zero bytes, the place of the first block under the
  // name, the size as it was given, and the type.
  lemma EntryInBytes(files: seq<VolumeFile>, i: nat)
    requires AllWritable(files) && |Image(files, 0)| < 0x1_0000_0000 && i < |files|
    ensures var image := Image(files, 0);
            var at := |image| - 17 * (|files| - i);
            && 0 <= at && at + 17 <= |image|
            && image[at..at + 8] == [0, 0, 0, 0, 0, 0, 0, 0]
            && FromLittleEndian(image[at + 8..at + 12]) == Location(files, 8, FirstWithName(files, files[i].filename))
            && FromLittleEndian(image[at + 12..at + 16]) == files[i].size % 0x1_0000_0000
            && image[at + 16] == files[i].compressionType
  {
    hide Image, Blocks, NameBytes, Entries, Entry, EntryBytes, LittleEndian, FromLittleEndian, Location, FirstWithName,
         StoredSize;
    ImagePieces(files);
    var image := Image(files, 0);
    var n := 17 * |files|;
    var first := FirstWithName(files, files[i].filename);
    EntryInIndex(files, |files|, i);
    assert image[|image| - n..|image|] == Entries(files, 8, |files|);
    SliceOfSlice(image, |image| - n, |image|, 17 * i, 17 * (i + 1));
    LocationInImage(files, first);
    EntryIs(files, i);
    EntryPieces(Location(files, 8, first), files[i]);
    var at := |image| - 17 * (|files| - i);
    var entry := image[at..at + 17];
    SliceOfSlice(image, at, at + 17, 0, 8);
    SliceOfSlice(image, at, at + 17, 8, 12);
    SliceOfSlice(image, at, at + 17, 12, 16);
    assert image[at + 16] == entry[16];
  }

  lemma EntryIs(files: seq<VolumeFile>, i: nat)
    requires AllWritable(files) && i < |files|
    ensures Entry(files, 8, i) == EntryBytes(Location(files, 8, FirstWithName(files, files[i].filename)), files[i])
  {
  }

  lemma EntryPieces(location: nat, file: VolumeFile)
    requires location < 0x1_0000_0000
    ensures var entry := EntryBytes(location, file);
            && entry[0..8] == [0, 0, 0, 0, 0, 0, 0, 0]
            && FromLittleEndian(entry[8..12]) == location
            && FromLittleEndian(entry[12..16]) == file.size % 0x1_0000_0000
            && entry[16] == file.compressionType
  {
    hide LittleEndian, FromLittleEndian;
    EntryFields(location, file);
    var entry := EntryBytes(location, file);
    assert entry[0..8] == Zeros(4) + Zeros(4);
  }

  // ----- the other Darkstar layout -----

  lemma NamesBehindOffset(data: seq<Byte>, at: nat, n: nat)
    requires FileListOffset(data, Cursor(0, false)) == (Ok(n), Cursor(at, false)) && at + n <= |data|
    ensures FileNames(data, Cursor(0, false))
         == (Ok(SplitNames(TerminateLast(data[at..at + n]))), Cursor(at + n + n % 2, false))
  {
    hide FileListOffset, SplitNames, TerminateLast;
    if n == 0 {
      assert data[at..at] == Zeros(0);
    }
  }

  lemma MetadataBehindNames(data: seq<Byte>, names: seq<Name>, index: nat, m: nat)
    requires FileNames(data, Cursor(0, false)) == (Ok(names), Cursor(index, false))
    requires index + 8 + m <= |data| && m < 0x1_0000_0000
    requires data[index..index + 4] == INDEX_TAG && data[index + 4..index + 8] == LittleEndian(m, 4)
    ensures FileMetadata(data, Cursor(0, false)).0 == ParseEntries(data[index + 8..index + 8 + m], names, 0)
  {
    hide FileNames, ParseEntries, LittleEndian, FromLittleEndian;
    ReadsTagAndSize(data, index, INDEX_TAG, m);
    if m == 0 {
      assert data[index + 8..index + 8] == Zeros(0);
    }
  }

  lemma SpaceHeader(data: seq<Byte>, footer: nat, n: nat)
    requires 8 <= footer && footer + 24 <= |data| && footer < 0x1_0000_0000 && n < 0x1_0000_0000
    requires data[0..4] == [0x20, 0x56, 0x4F, 0x4C] && data[4..8] == LittleEndian(footer, 4)
    requires data[footer + 20..footer + 24] == LittleEndian(n, 4)
    ensures FileListOffset(data, Cursor(0, false)) == (Ok(n), Cursor(footer + 24, false))
  {
    hide LittleEndian, FromLittleEndian;
    ReadsTagAndSize(data, 0, [0x20, 0x56, 0x4F, 0x4C], footer);
    FieldWidths();
    StoreThenLoad(n, 4);
    SliceOfSlice(data, footer, footer + 24, 20, 24);
  }

  lemma FourInARow(a: seq<Byte>, b: seq<Byte>, c: seq<Byte>, d: seq<Byte>)
    ensures var data := a + b + c + d;
            var p := |a| + |b|;
            var q := p + |c|;
            && data[0..|a|] == a && data[|a|..p] == b && data[p..q] == c && data[q..q + |d|] == d
            && |data| == q + |d|
  {
  }

  lemma ThreeInARow(a: seq<Byte>, b: seq<Byte>, c: seq<Byte>)
    requires |a| == |b| == 4
    ensures var part := a + b + c;
            && |part| == 8 + |c| && part[0..4] == a && part[4..8] == b && part[8..8 + |c|] == c
  {
  }

  // Where the parts of four groups are when the groups stand in a row.
  lemma SpaceSlices(front: seq<Byte>, footer: seq<Byte>, table: seq<Byte>, index: seq<Byte>, n: nat, m: nat)
    requires |front| >= 8 && |footer| == 24 && n <= |table| && |index| == 8 + m
    ensures var data := front + footer + table + index;
            var f := |front|;
            var i := f + 24 + |table|;
            && |data| == i + 8 + m
            && data[0..4] == front[0..4] && data[4..8] == front[4..8]
            && data[f + 20..f + 24] == footer[20..24] && data[f + 24..f + 24 + n] == table[0..n]
            && data[i..i + 4] == index[0..4] && data[i + 4..i + 8] == index[4..8]
            && data[i + 8..i + 8 + m] == index[8..8 + m]
  {
    var data := front + footer + table + index;
    var f, t := |front|, |front| + 24;
    var i := t + |table|;
    FourInARow(front, footer, table, index);
    SliceOfSlice(data, 0, f, 0, 4);
    SliceOfSlice(data, 0, f, 4, 8);
    SliceOfSlice(data, f, t, 20, 24);
    SliceOfSlice(data, t, i, 0, n);
    SliceOfSlice(data, i, i + |index|, 0, 4);
    SliceOfSlice(data, i, i + |index|, 4, 8);
    SliceOfSlice(data, i, i + |index|, 8, 8 + m);
  }

  // Reading the header at 0, the footer at `f` that ends in the size of the names, the
  // names at `t`, and the index at `i`.
  lemma SpaceParts(data: seq<Byte>, f: nat, t: nat, i: nat, names: seq<Byte>, m: nat)
    requires 8 <= f && t == f + 24 && i == t + |names| + |names| % 2 && i + 8 + m <= |data| < 0x1_0000_0000
    requires data[0..4] == [0x20, 0x56, 0x4F, 0x4C] && data[4..8] == LittleEndian(f, 4)
    requires data[f + 20..f + 24] == LittleEndian(|names|, 4) && data[t..t + |names|] == names
    requires data[i..i + 4] == INDEX_TAG && data[i + 4..i + 8] == LittleEndian(m, 4)
    ensures FileMetadata(data, Cursor(0, false)).0
         == ParseEntries(data[i + 8..i + 8 + m], SplitNames(TerminateLast(names)), 0)
  {
    hide *;
    SpaceHeader(data, f, |names|);
    NamesBehindOffset(data, t, |names|);
    MetadataBehindNames(data, SplitNames(TerminateLast(names)), i, m);
  }

  // A ` VOL` file: the header points at a footer of 24 bytes, the last four of which are
  // the size of the names; whatever the other twenty are, it is listed as its files.
  lemma SpaceVolumeIsListed(files: seq<VolumeFile>, other: seq<Byte>)
    requires AllWritable(files) && AllPlain(files) && |other| == 20
    requires 64 + |Blocks(files, 8)| + |NameBytes(files)| + 17 * |files| < 0x1_0000_0000
    ensures var names := NameBytes(files);
            var front := [0x20, 0x56, 0x4F, 0x4C] + LittleEndian(8 + |Blocks(files, 8)|, 4) + Blocks(files, 8);
            var footer := other + LittleEndian(|names|, 4);
            var table := names + (if |names| % 2 == 0 then [] else [0]);
            var index := [0x76, 0x6F, 0x6C, 0x69] + LittleEndian(17 * |files|, 4) + Entries(files, 8, |files|);
            FileMetadata(front + footer + table + index, Cursor(0, false)).0 == Ok(Listing(files, 0))
  {
    hide Blocks, NameBytes, Entries, LittleEndian, SplitNames, ParseEntries, FileMetadata, TerminateLast, Listing;
    var names, entries := NameBytes(files), Entries(files, 8, |files|);
    ThreeInARow([0x20, 0x56, 0x4F, 0x4C], LittleEndian(8 + |Blocks(files, 8)|, 4), Blocks(files, 8));
    ThreeInARow([0x76, 0x6F, 0x6C, 0x69], LittleEndian(17 * |files|, 4), entries);
    var front := [0x20, 0x56, 0x4F, 0x4C] + LittleEndian(8 + |Blocks(files, 8)|, 4) + Blocks(files, 8);
    var footer := other + LittleEndian(|names|, 4);
    var table := names + (if |names| % 2 == 0 then [] else [0]);
    var index := [0x76, 0x6F, 0x6C, 0x69] + LittleEndian(17 * |files|, 4) + entries;
    assert footer[20..24] == LittleEndian(|names|, 4);
    assert table[0..|names|] == names;
    SpaceSlices(front, footer, table, index, |names|, |entries|);
    SpaceParts(front + footer + table + index, |front|, |front| + 24, |front| + 24 + |table|, names, |entries|);
    TableIsTerminated(files);
    PlainNamesSplit(files);
    EntriesParse(files, 0);
  }

  // ----- any bytes -----

  // A stream that begins with none of the three tags is no volume; the old layout is
  // told apart.
  lemma TagsDecide(data: seq<Byte>)
    requires |data| >= 4
    ensures var listing := FileMetadata(data, Cursor(0, false)).0;
            && (data[..4] == [0x56, 0x4F, 0x4C, 0x20] ==> listing == Err(OldFormat))
            && (data[..4] !in {[0x20, 0x56, 0x4F, 0x4C], [0x50, 0x56, 0x4F, 0x4C], [0x56, 0x4F, 0x4C, 0x20]} ==>
                  listing == Err(NotAVolume))
  {
    hide FromLittleEndian, SplitNames, ParseEntries;
    FirstFour(data);
    assert OLD_FILE_TAG[0] == 0x56 && FILE_TAG[0] == 0x20 && ALT_FILE_TAG[0] == 0x50;
  }

  lemma FirstFour(data: seq<Byte>)
    requires |data| >= 4
    ensures ReadBytes(data, Cursor(0, false), 8)[..4] == data[..4]
  {
  }

  // Without the index's tag behind the names there is no listing.
  lemma IndexTagDecides(data: seq<Byte>, names: seq<Name>, at: Cursor)
    requires FileNames(data, Cursor(0, false)) == (Ok(names), at)
    ensures FileMetadata(data, Cursor(0, false)).0 == Err(IndexMissing)
       <==> ReadBytes(data, at, 8)[..4] != [0x76, 0x6F, 0x6C, 0x69]
  {
    hide FileNames, FromLittleEndian, ReadBytes, AfterRead;
    if ReadBytes(data, at, 8)[..4] == [0x76, 0x6F, 0x6C, 0x69] {
      var size := FromLittleEndian(ReadBytes(data, at, 8)[4..8]);
      EntriesDecide(ReadBytes(data, AfterRead(data, at, 8), size), names, 0);
    }
  }

  // The index lists as many files as there are whole entries and names for them; too few
  // bytes for an entry that is needed, or no names at all, lead out of the vectors.
  lemma {:induction false} EntriesDecide(raw: seq<Byte>, names: seq<Name>, done: nat)
    requires done <= |names|
    ensures var parsed := ParseEntries(raw, names, done);
            if |raw| <= 17 * done then parsed == Ok([])
            else if done == |names| then parsed == Err(OutOfBounds)
            else if |raw| >= 17 * |names| then parsed.Ok? && |parsed.value| == |names| - done
            else if |raw| % 17 != 0 then parsed == Err(OutOfBounds)
            else parsed.Ok? && |parsed.value| == |raw| / 17 - done
    decreases |names| - done
  {
    hide FromLittleEndian;
    if 17 * (done + 1) <= |raw| && done + 1 < |names| {
      EntriesDecide(raw, names, done + 1);
    }
  }

  // Entry `i` of a listing: the name in its turn, the place and the size in the last
  // eight bytes but one of its seventeen, the type in the last.
  lemma {:induction false} EntryRead(raw: seq<Byte>, names: seq<Name>, done: nat, i: nat)
    requires done <= |names| && ParseEntries(raw, names, done).Ok? && i < |ParseEntries(raw, names, done).value|
    ensures done + i < |names| && 17 * (done + i + 1) <= |raw|
    ensures var at := 17 * (done + i);
            ParseEntries(raw, names, done).value[i]
            == FileInfo(names[done + i], FromLittleEndian(raw[at + 8..at + 12]),
                        FromLittleEndian(raw[at + 12..at + 16]), raw[at + 16])
    decreases |names| - done
  {
    hide FromLittleEndian;
    var at := 17 * done;
    var entry := raw[at..at + 17];
    SliceOfSlice(raw, at, at + 17, 8, 12);
    SliceOfSlice(raw, at, at + 17, 12, 16);
    if i > 0 {
      EntryRead(raw, names, done + 1, i - 1);
    }
  }

  // ----- names -----

  lemma {:induction false} NamesThenMore(files: seq<VolumeFile>, more: seq<Byte>)
    requires AllPlain(files)
    ensures SplitNames(NameBytes(files) + more) == NamesOf(files) + SplitNames(more)
  {
    hide NameBytes, UntilNul, NamesOf;
    if |files| == 0 {
      NoNameBytes(files, more);
    } else {
      var name, rest := files[0].filename, NameBytes(files[1..]);
      NameBytesFromFront(files);
      var table := name + [0] + (rest + more);
      assert NameBytes(files) + more == table;
      UntilNulStops(name, rest + more);
      assert table[|name| + 1..] == rest + more;
      NamesThenMore(files[1..], more);
      assert SplitNames(table) == [name] + SplitNames(rest + more);
      FirstName(files);
    }
  }

  lemma NoNameBytes(files: seq<VolumeFile>, more: seq<Byte>)
    requires |files| == 0
    ensures NameBytes(files) + more == more && NamesOf(files) == []
  {
  }

  lemma FirstName(files: seq<VolumeFile>)
    requires |files| > 0
    ensures NamesOf(files) == [files[0].filename] + NamesOf(files[1..])
  {
  }

  lemma {:induction false} UntilNulAtLeast(chars: seq<Byte>, n: nat)
    requires n <= |chars| && 0 !in chars[..n]
    ensures |UntilNul(chars)| >= n
  {
    if n > 0 {
      assert chars[0] == chars[..n][0];
      assert chars[1..][..n - 1] == chars[..n][1..];
      UntilNulAtLeast(chars[1..], n - 1);
    }
  }

  // The first 101 bytes without a NUL where a name should be end the table.
  lemma LongNameEndsTable(files: seq<VolumeFile>, long: seq<Byte>)
    requires AllPlain(files) && |long| > 100 && 0 !in long[..101]
    ensures SplitNames(NameBytes(files) + long) == NamesOf(files)
  {
    hide NameBytes, UntilNul, NamesOf;
    NamesThenMore(files, long);
    UntilNulAtLeast(long, 101);
    assert SplitNames(long) == [];
  }

  // A table that does not end in a NUL loses the last byte of its last name.
  lemma UnterminatedTableLosesByte(files: seq<VolumeFile>, last: Name, byte: Byte)
    requires AllPlain(files) && Plain(last) && byte != 0
    ensures SplitNames(TerminateLast(NameBytes(files) + last + [byte])) == NamesOf(files) + [last]
  {
    hide NameBytes, UntilNul, NamesOf;
    var chars := NameBytes(files) + last + [byte];
    assert TerminateLast(chars) == NameBytes(files) + (last + [0]);
    NamesThenMore(files, last + [0]);
    UntilNulStops(last, []);
    assert last + [0] + [] == last + [0];
    assert (last + [0])[|last| + 1..] == [];
    assert SplitNames([]) == [];
    assert SplitNames(last + [0]) == [last] + SplitNames([]);
    assert [last] + [] == [last];
  }
}
