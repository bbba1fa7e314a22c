// What the VOL reader gets back from the VOL writer's image.
module VolRoundTrip {
  import opened Bytes
  import opened Streams
  import opened VolFormat
  import opened Wrappers

  // ----- names -----

  // A name survives the string table: NUL-free and not too long.
  predicate Plain(name: Name) {
    0 !in name && |name| <= 100
  }

  predicate AllPlain(files: seq<VolumeFile>) {
    forall i :: 0 <= i < |files| ==> Plain(files[i].filename)
  }

  function NamesOf(files: seq<VolumeFile>): (r: seq<Name>)
    ensures |r| == |files|
    ensures forall i :: 0 <= i < |files| ==> r[i] == files[i].filename
  {
    seq(|files|, i requires 0 <= i < |files| => files[i].filename)
  }

  lemma {:induction false} NameBytesFromFront(files: seq<VolumeFile>)
    requires |files| > 0
    ensures NameBytes(files) == files[0].filename + [0] + NameBytes(files[1..])
  {
    var n := |files|;
    if n == 1 {
      assert NameBytes(files[..0]) == [];
      assert NameBytes(files[1..]) == [];
    } else {
      NameBytesFromFront(files[..n - 1]);
      assert files[..n - 1][1..] == files[1..][..n - 2];
      assert NameBytes(files[1..]) == NameBytes(files[1..][..n - 2]) + files[n - 1].filename + [0];
    }
  }

  lemma {:induction false} UntilNulStops(name: seq<Byte>, rest: seq<Byte>)
    requires 0 !in name
    ensures UntilNul(name + [0] + rest) == name
  {
    if |name| > 0 {
      UntilNulStops(name[1..], rest);
      assert (name + [0] + rest)[1..] == name[1..] + [0] + rest;
    }
  }

  lemma NoNames(files: seq<VolumeFile>)
    requires |files| == 0
    ensures SplitNames(NameBytes(files)) == NamesOf(files)
  {
  }

  lemma {:induction false} PlainNamesSplit(files: seq<VolumeFile>)
    requires AllPlain(files)
    ensures SplitNames(NameBytes(files)) == NamesOf(files)
  {
    hide NameBytes, UntilNul;
    if |files| == 0 {
      NoNames(files);
    } else {
      var name := files[0].filename;
      var rest := NameBytes(files[1..]);
      var table := NameBytes(files);
      NameBytesFromFront(files);
      UntilNulStops(name, rest);
      PlainNamesSplit(files[1..]);
      assert table[|name| + 1..] == rest;
      assert SplitNames(table) == [name] + SplitNames(rest);
      assert NamesOf(files) == [name] + NamesOf(files[1..]);
    }
  }

  lemma {:induction false} SplitNamesArePlain(chars: seq<Byte>)
    ensures forall i :: 0 <= i < |SplitNames(chars)| ==> Plain(SplitNames(chars)[i])
    decreases |chars|
  {
    if |chars| > 0 {
      var name := UntilNul(chars);
      if |name| <= MAX_NAME_SIZE && |name| < |chars| {
        SplitNamesArePlain(chars[|name| + 1..]);
      }
    }
  }

  lemma TableIsTerminated(files: seq<VolumeFile>)
    ensures TerminateLast(NameBytes(files)) == NameBytes(files)
  {
  }

  // The string table gives back the names, in order, exactly when every name is
  // NUL-free and at most 100 bytes long.
  lemma NamesSurviveExactlyWhenPlain(files: seq<VolumeFile>)
    ensures SplitNames(TerminateLast(NameBytes(files))) == NamesOf(files) <==> AllPlain(files)
  {
    TableIsTerminated(files);
    SplitNamesArePlain(NameBytes(files));
    if AllPlain(files) {
      PlainNamesSplit(files);
    }
    if SplitNames(NameBytes(files)) == NamesOf(files) {
      forall i | 0 <= i < |files| ensures Plain(files[i].filename) {
        assert NamesOf(files)[i] == files[i].filename;
      }
    }
  }

  // ----- layout -----

  lemma {:induction false} PrefixOfBlocks(files: seq<VolumeFile>, from: nat, i: nat)
    requires AllWritable(files) && i <= |files|
    ensures Blocks(files[..i], from) <= Blocks(files, from)
  {
    var n := |files|;
    if i == n {
      assert files[..n] == files;
    } else {
      assert files[..n - 1][..i] == files[..i];
      PrefixOfBlocks(files[..n - 1], from, i);
    }
  }

  // The block of file `i` is in the image at its location, header first, and the
  // next block starts after the least padding that reaches a multiple of four.
  lemma BlockAtLocation(files: seq<VolumeFile>, from: nat, i: nat)
    requires AllWritable(files) && i < |files|
    ensures var at := Location(files, from, i) - from;
            var blocks := Blocks(files, from);
            var end := at + HEADER_SIZE + StoredSize(files[i]);
            && end <= |blocks|
            && blocks[at..at + HEADER_SIZE] == BlockHeader(files[i])
            && blocks[at + HEADER_SIZE..end] == Payload(files[i])
            && |Blocks(files[..i + 1], from)| == end + PaddingSize(from + end, 4)
            && |Blocks(files[..i + 1], from)| <= |blocks|
  {
    hide Blocks, StoredSize;
    PrefixOfBlocks(files, from, i + 1);
    BlocksStep(files, from, i, []);
    BlockPieces(Blocks(files[..i], from), BlockHeader(files[i]), Payload(files[i]),
                Zeros(PaddingSize(Location(files, from, i) + HEADER_SIZE + StoredSize(files[i]), 4)),
                Blocks(files[..i + 1], from), Blocks(files, from));
  }

  lemma BlockPieces(init: seq<Byte>, header: seq<Byte>, payload: seq<Byte>, padding: seq<Byte>,
                    prefix: seq<Byte>, whole: seq<Byte>)
    requires [] + prefix == [] + init + (header + payload) + padding && prefix <= whole
    ensures |init| + |header| + |payload| + |padding| == |prefix| <= |whole|
    ensures whole[|init|..|init| + |header|] == header
    ensures whole[|init| + |header|..|init| + |header| + |payload|] == payload
  {
    assert [] + init == init && [] + prefix == prefix;
    assert whole[|init|..|init| + |header|] == prefix[|init|..|init| + |header|];
    assert whole[|init| + |header|..|init| + |header| + |payload|]
        == prefix[|init| + |header|..|init| + |header| + |payload|];
  }

  // Blocks come in order, do not overlap, are separated by fewer than four
  // padding bytes, and every block starts on a multiple of four when the first does.
  lemma {:induction false} BlocksAreAlignedAndOrdered(files: seq<VolumeFile>, from: nat, i: nat, j: nat)
    requires AllWritable(files) && i < j < |files|
    ensures Location(files, from, i) + HEADER_SIZE + StoredSize(files[i]) <= Location(files, from, j)
    ensures j == i + 1 ==> Location(files, from, j) < Location(files, from, i) + HEADER_SIZE + StoredSize(files[i]) + 4
    ensures Location(files, from, j) % 4 == 0
    ensures Location(files, from, 0) == from
    decreases j
  {
    hide Blocks, StoredSize, PaddingSize, BlockHeader, Payload;
    BlockAtLocation(files, from, j - 1);
    NoBlocks(files, from, []);
    assert [] + Blocks(files[..0], from) == Blocks(files[..0], from);
    if i < j - 1 {
      BlocksAreAlignedAndOrdered(files, from, i, j - 1);
    }
  }

  // ----- the reader on an image, piece by piece -----

  // Reading an 8-byte header: a tag and a 4-byte size.
  lemma ReadsTagAndSize(image: seq<Byte>, at: nat, tag: seq<Byte>, size: nat)
    requires at + HEADER_SIZE <= |image| && |tag| == 4 && size < 0x1_0000_0000
    requires image[at..at + 4] == tag && image[at + 4..at + 8] == LittleEndian(size, 4)
    ensures var header := ReadBytes(image, Cursor(at, false), HEADER_SIZE);
            header[..4] == tag && FromLittleEndian(header[4..8]) == size
    ensures AfterRead(image, Cursor(at, false), HEADER_SIZE) == Cursor(at + HEADER_SIZE, false)
  {
    hide LittleEndian, FromLittleEndian;
    FieldWidths();
    StoreThenLoad(size, 4);
    SliceOfSlice(image, at, at + 8, 0, 4);
    SliceOfSlice(image, at, at + 8, 4, 8);
  }

  // Wherever the reader is started, it seeks from the origin.
  lemma HeaderAt(image: seq<Byte>, start: nat, footer: nat)
    requires start + HEADER_SIZE <= |image| && footer < 0x1_0000_0000
    requires image[start..start + 4] == ALT_FILE_TAG && image[start + 4..start + 8] == LittleEndian(footer, 4)
    ensures FileListOffset(image, Cursor(start, false))
         == (Ok(FromLittleEndian(ReadBytes(image, Cursor(footer, false), HEADER_SIZE)[4..8])),
             AfterRead(image, Cursor(footer, false), HEADER_SIZE))
  {
    hide LittleEndian, FromLittleEndian;
    ReadsTagAndSize(image, start, ALT_FILE_TAG, footer);
  }

  lemma ReadsHeader(image: seq<Byte>, footer: nat)
    requires HEADER_SIZE <= footer && footer + HEADER_SIZE <= |image| && footer < 0x1_0000_0000
    requires image[..4] == ALT_FILE_TAG && image[4..8] == LittleEndian(footer, 4)
    ensures FileListOffset(image, Cursor(0, false))
         == (Ok(FromLittleEndian(image[footer + 4..footer + 8])), Cursor(footer + HEADER_SIZE, false))
  {
    hide LittleEndian, FromLittleEndian, FileListOffset;
    assert image[0..4] == image[..4];
    HeaderAt(image, 0, footer);
    SliceOfSlice(image, footer, footer + 8, 4, 8);
  }

  lemma ReadsNames(image: seq<Byte>, footer: nat, n: nat)
    requires HEADER_SIZE <= footer && footer + HEADER_SIZE + n <= |image| && footer < 0x1_0000_0000 && n < 0x1_0000_0000
    requires image[..4] == ALT_FILE_TAG && image[4..8] == LittleEndian(footer, 4)
    requires image[footer + 4..footer + 8] == LittleEndian(n, 4)
    ensures FileNames(image, Cursor(0, false))
         == (Ok(SplitNames(TerminateLast(image[footer + HEADER_SIZE..footer + HEADER_SIZE + n]))),
             Cursor(footer + HEADER_SIZE + n + n % 2, false))
  {
    hide SplitNames, TerminateLast, FileListOffset, LittleEndian, FromLittleEndian;
    ReadsHeader(image, footer);
    FieldWidths();
    StoreThenLoad(n, 4);
    if n == 0 {
      assert image[footer + HEADER_SIZE..footer + HEADER_SIZE] == Zeros(0);
    }
  }

  lemma ReadsMetadata(image: seq<Byte>, footer: nat, n: nat, index: nat, m: nat)
    requires HEADER_SIZE <= footer && footer < 0x1_0000_0000 && n < 0x1_0000_0000 && m < 0x1_0000_0000
    requires index == footer + HEADER_SIZE + n + n % 2 && index + HEADER_SIZE + m <= |image|
    requires image[..4] == ALT_FILE_TAG && image[4..8] == LittleEndian(footer, 4)
    requires image[footer + 4..footer + 8] == LittleEndian(n, 4)
    requires image[index..index + 4] == INDEX_TAG && image[index + 4..index + 8] == LittleEndian(m, 4)
    ensures FileMetadata(image, Cursor(0, false)).0
         == ParseEntries(image[index + HEADER_SIZE..index + HEADER_SIZE + m],
                         SplitNames(TerminateLast(image[footer + HEADER_SIZE..footer + HEADER_SIZE + n])), 0)
  {
    hide SplitNames, TerminateLast, ParseEntries, FileNames, LittleEndian, FromLittleEndian, Power256;
    ReadsNames(image, footer, n);
    ReadsTagAndSize(image, index, INDEX_TAG, m);
    if m == 0 {
      assert image[index + HEADER_SIZE..index + HEADER_SIZE] == Zeros(0);
    }
  }

  lemma Slice(before: seq<Byte>, middle: seq<Byte>, after: seq<Byte>, whole: seq<Byte>)
    requires whole == before + middle + after
    ensures whole[|before|..|before| + |middle|] == middle
  {
  }

  lemma PaddingToEven(n: nat)
    ensures PaddingSize(n, 2) == n % 2
  {
  }

  // The seven pieces of an image, and where each of them lies.
  lemma ImagePieces(files: seq<VolumeFile>)
    requires AllWritable(files)
    ensures var image := Image(files, 0);
            var footer := HEADER_SIZE + |Blocks(files, HEADER_SIZE)|;
            var n := |NameBytes(files)|;
            var index := footer + HEADER_SIZE + n + n % 2;
            var m := ENTRY_SIZE * |files|;
            && |image| == index + HEADER_SIZE + m
            && image[..4] == ALT_FILE_TAG && image[4..8] == LittleEndian(footer, 4)
            && image[HEADER_SIZE..footer] == Blocks(files, HEADER_SIZE)
            && image[footer..footer + 4] == STRING_TAG
            && image[footer + 4..footer + 8] == LittleEndian(n, 4)
            && image[footer + HEADER_SIZE..footer + HEADER_SIZE + n] == NameBytes(files)
            && image[index..index + 4] == INDEX_TAG && image[index + 4..index + 8] == LittleEndian(m, 4)
            && image[index + HEADER_SIZE..] == Entries(files, HEADER_SIZE, |files|)
  {
    hide Blocks, NameBytes, Entries, LittleEndian;
    var blocks := Blocks(files, HEADER_SIZE);
    var names := NameBytes(files);
    PaddingToEven(|names|);
    Pieces(ALT_FILE_TAG, LittleEndian(HEADER_SIZE + |blocks|, 4), blocks, STRING_TAG, LittleEndian(|names|, 4), names,
           Zeros(PaddingSize(|names|, 2)), INDEX_TAG, LittleEndian(ENTRY_SIZE * |files|, 4),
           Entries(files, HEADER_SIZE, |files|));
  }

  lemma Pieces(a: seq<Byte>, b: seq<Byte>, blocks: seq<Byte>, c: seq<Byte>, d: seq<Byte>, names: seq<Byte>,
               padding: seq<Byte>, e: seq<Byte>, f: seq<Byte>, entries: seq<Byte>)
    requires |a| == |b| == |c| == |d| == |e| == |f| == 4
    ensures var whole := a + b + blocks + (c + d + names + padding) + (e + f + entries);
            var p := 8 + |blocks|;
            var q := p + 8 + |names|;
            var r := q + |padding|;
            && |whole| == r + 8 + |entries|
            && whole[..4] == a && whole[4..8] == b && whole[8..p] == blocks
            && whole[p..p + 4] == c && whole[p + 4..p + 8] == d && whole[p + 8..q] == names
            && whole[r..r + 4] == e && whole[r + 4..r + 8] == f && whole[r + 8..] == entries
  {
    ThreeParts(a, b, blocks, []);
    ThreeParts(c, d, names, padding);
    ThreeParts(e, f, entries, []);
    assert a + b + blocks + [] == a + b + blocks && e + f + entries + [] == e + f + entries;
    GroupsInARow(a + b + blocks, c + d + names + padding, e + f + entries, |blocks|, |names|, |entries|);
  }

  lemma ThreeParts(a: seq<Byte>, b: seq<Byte>, c: seq<Byte>, more: seq<Byte>)
    requires |a| == |b| == 4
    ensures var whole := a + b + c + more;
            && |whole| == 8 + |c| + |more|
            && whole[0..4] == a && whole[4..8] == b && whole[8..8 + |c|] == c
  {
  }

  // Where the parts of three groups are when the groups stand in a row.
  lemma GroupsInARow(front: seq<Byte>, table: seq<Byte>, index: seq<Byte>, i: nat, j: nat, k: nat)
    requires |front| == 8 + i && |table| >= 8 + j && |index| == 8 + k
    ensures var whole := front + table + index;
            var p, r := |front|, |front| + |table|;
            && |whole| == r + 8 + k
            && whole[..4] == front[0..4] && whole[4..8] == front[4..8] && whole[8..p] == front[8..8 + i]
            && whole[p..p + 4] == table[0..4] && whole[p + 4..p + 8] == table[4..8]
            && whole[p + 8..p + 8 + j] == table[8..8 + j]
            && whole[r..r + 4] == index[0..4] && whole[r + 4..r + 8] == index[4..8]
            && whole[r + 8..] == index[8..8 + k]
  {
    var whole := front + table + index;
    var p, r := |front|, |front| + |table|;
    assert whole[0..p] == front && whole[p..r] == table && whole[r..|whole|] == index;
    SliceOfSlice(whole, 0, p, 0, 4);
    SliceOfSlice(whole, 0, p, 4, 8);
    SliceOfSlice(whole, 0, p, 8, p);
    SliceOfSlice(whole, p, r, 0, 4);
    SliceOfSlice(whole, p, r, 4, 8);
    SliceOfSlice(whole, p, r, 8, 8 + j);
    SliceOfSlice(whole, r, |whole|, 0, 4);
    SliceOfSlice(whole, r, |whole|, 4, 8);
    SliceOfSlice(whole, r, |whole|, 8, 8 + k);
    assert whole[0..4] == whole[..4] && whole[r + 8..|whole|] == whole[r + 8..];
  }

  // ----- the listing -----

  // What the listing of an image shows: each name with the place of the first
  // block under that name, the size field as an unsigned integer, and the type.
  function Listed(files: seq<VolumeFile>, i: nat): FileInfo
    requires AllWritable(files) && i < |files|
  {
    FileInfo(files[i].filename,
             Location(files, HEADER_SIZE, FirstWithName(files, files[i].filename)),
             files[i].size % 0x1_0000_0000,
             files[i].compressionType)
  }

  function Listing(files: seq<VolumeFile>, done: nat): (r: seq<FileInfo>)
    requires AllWritable(files) && done <= |files|
  {
    seq(|files| - done, i requires 0 <= i < |files| - done => Listed(files, done + i))
  }

  lemma {:induction false} EntryInIndex(files: seq<VolumeFile>, count: nat, i: nat)
    requires AllWritable(files) && i < count <= |files|
    ensures Entries(files, HEADER_SIZE, count)[ENTRY_SIZE * i..ENTRY_SIZE * (i + 1)] == Entry(files, HEADER_SIZE, i)
  {
    hide Entry;
    var init := Entries(files, HEADER_SIZE, count - 1);
    var last := Entry(files, HEADER_SIZE, count - 1);
    assert Entries(files, HEADER_SIZE, count) == init + last;
    if i < count - 1 {
      EntryInIndex(files, count - 1, i);
      assert (init + last)[ENTRY_SIZE * i..ENTRY_SIZE * (i + 1)] == init[ENTRY_SIZE * i..ENTRY_SIZE * (i + 1)];
    }
  }

  lemma EntryFields(location: nat, file: VolumeFile)
    requires location < 0x1_0000_0000
    ensures var entry := EntryBytes(location, file);
            && FromLittleEndian(entry[8..12]) == location
            && FromLittleEndian(entry[12..16]) == file.size % 0x1_0000_0000
            && entry[16] == file.compressionType
  {
    hide LittleEndian, FromLittleEndian;
    FieldWidths();
    StoreThenLoad(location, 4);
    StoreThenLoad(file.size, 4);
    var entry := EntryBytes(location, file);
    assert entry[8..12] == LittleEndian(location, 4);
    assert entry[12..16] == LittleEndian(file.size, 4);
  }

  lemma LocationInImage(files: seq<VolumeFile>, i: nat)
    requires AllWritable(files) && i < |files|
    ensures Location(files, HEADER_SIZE, i) + HEADER_SIZE + StoredSize(files[i])
         <= HEADER_SIZE + |Blocks(files, HEADER_SIZE)|
  {
    hide Blocks, StoredSize;
    BlockAtLocation(files, HEADER_SIZE, i);
  }

  // Parsing one entry of the index takes the name and the fields of its file.
  lemma EntryParses(files: seq<VolumeFile>, done: nat)
    requires AllWritable(files) && done < |files|
    requires HEADER_SIZE + |Blocks(files, HEADER_SIZE)| < 0x1_0000_0000
    ensures var raw := Entries(files, HEADER_SIZE, |files|);
            ParseEntries(raw, NamesOf(files), done)
            == (if done + 1 == |files| then Ok([Listed(files, done)])
                else Prepend([Listed(files, done)], ParseEntries(raw, NamesOf(files), done + 1)))
  {
    hide Blocks, Entries, EntryBytes, FirstWithName, FromLittleEndian, Location;
    var first := FirstWithName(files, files[done].filename);
    var raw := Entries(files, HEADER_SIZE, |files|);
    LocationInImage(files, first);
    EntryInIndex(files, |files|, done);
    EntryFields(Location(files, HEADER_SIZE, first), files[done]);
    assert ENTRY_SIZE * (done + 1) <= |raw|;
  }

  lemma ListingStep(files: seq<VolumeFile>, done: nat)
    requires AllWritable(files) && done < |files|
    ensures Listing(files, done) == [Listed(files, done)] + Listing(files, done + 1)
    ensures Listing(files, |files|) == []
    ensures [Listed(files, |files| - 1)] + [] == [Listed(files, |files| - 1)]
  {
    hide Listed, Location, FirstWithName;
  }

  lemma {:induction false} EntriesParse(files: seq<VolumeFile>, done: nat)
    requires AllWritable(files) && done <= |files|
    requires HEADER_SIZE + |Blocks(files, HEADER_SIZE)| < 0x1_0000_0000
    ensures done == 0 || done < |files| ==>
              ParseEntries(Entries(files, HEADER_SIZE, |files|), NamesOf(files), done) == Ok(Listing(files, done))
    decreases |files| - done
  {
    hide Blocks, ParseEntries, Entries, NamesOf, Listed, Listing, Location, FirstWithName;
    if done < |files| {
      EntryParses(files, done);
      ListingStep(files, done);
      if done + 1 < |files| {
        EntriesParse(files, done + 1);
      }
    } else if done == 0 {
      NoEntriesParse(files);
    }
  }

  lemma NoEntriesParse(files: seq<VolumeFile>)
    requires |files| == 0
    ensures ParseEntries(Entries(files, HEADER_SIZE, 0), NamesOf(files), 0) == Ok(Listing(files, 0))
  {
    hide Listed;
    assert Listing(files, 0) == [];
  }

  // ----- the round trip -----

  lemma AppendedSlice(image: seq<Byte>, trailing: seq<Byte>, p: nat, q: nat)
    requires p <= q <= |image|
    ensures (image + trailing)[p..q] == image[p..q]
  {
  }

  // The listing of an image, whatever the names and whatever stands behind it: entries
  // are matched to the names the string table yields.
  lemma ListingOfImage(files: seq<VolumeFile>, trailing: seq<Byte>)
    requires AllWritable(files) && |Image(files, 0)| < 0x1_0000_0000
    ensures FileMetadata(Image(files, 0) + trailing, Cursor(0, false)).0
         == ParseEntries(Entries(files, HEADER_SIZE, |files|), SplitNames(NameBytes(files)), 0)
  {
    hide Image, Blocks, NameBytes, Entries, LittleEndian, SplitNames, ParseEntries, FileMetadata, TerminateLast;
    ImagePieces(files);
    TableIsTerminated(files);
    var image := Image(files, 0);
    var footer := HEADER_SIZE + |Blocks(files, HEADER_SIZE)|;
    var n := |NameBytes(files)|;
    var m := ENTRY_SIZE * |files|;
    var index := footer + HEADER_SIZE + n + n % 2;
    AppendedSlice(image, trailing, 0, 4);
    AppendedSlice(image, trailing, 4, 8);
    AppendedSlice(image, trailing, footer + 4, footer + 8);
    AppendedSlice(image, trailing, footer + HEADER_SIZE, footer + HEADER_SIZE + n);
    AppendedSlice(image, trailing, index, index + 4);
    AppendedSlice(image, trailing, index + 4, index + 8);
    AppendedSlice(image, trailing, index + HEADER_SIZE, index + HEADER_SIZE + m);
    FrontSlices(image, image + trailing);
    assert image[index + HEADER_SIZE..index + HEADER_SIZE + m] == image[index + HEADER_SIZE..];
    ReadsMetadata(image + trailing, footer, n, index, m);
  }

  lemma FrontSlices(a: seq<Byte>, b: seq<Byte>)
    requires |a| >= 4 && |b| >= 4
    ensures a[0..4] == a[..4] && b[0..4] == b[..4]
  {
  }

  lemma ListedBefore(files: seq<VolumeFile>, trailing: seq<Byte>)
    requires AllWritable(files) && |Image(files, 0)| < 0x1_0000_0000 && AllPlain(files)
    ensures FileMetadata(Image(files, 0) + trailing, Cursor(0, false)).0 == Ok(Listing(files, 0))
  {
    hide Image, Blocks, NameBytes, Entries, SplitNames, ParseEntries, FileMetadata, Listing;
    ListingOfImage(files, trailing);
    PlainNamesSplit(files);
    ImagePieces(files);
    EntriesParse(files, 0);
  }

  // Names, sizes, types and places come back in order, whether or not names repeat.
  lemma ListingRoundTrip(files: seq<VolumeFile>)
    requires AllWritable(files) && |Image(files, 0)| < 0x1_0000_0000 && AllPlain(files)
    ensures FileMetadata(Image(files, 0), Cursor(0, false)).0 == Ok(Listing(files, 0))
  {
    hide Image, FileMetadata, Listing, AllPlain, AllWritable;
    ListedBefore(files, []);
    assert Image(files, 0) + [] == Image(files, 0);
  }

  lemma {:induction false} ParsedNames(raw: seq<Byte>, names: seq<Name>, done: nat)
    requires done <= |names|
    ensures var parsed := ParseEntries(raw, names, done);
            parsed.Ok? ==> && |parsed.value| <= |names| - done
                           && forall i :: 0 <= i < |parsed.value| ==> parsed.value[i].filename == names[done + i]
    decreases |names| - done
  {
    hide FromLittleEndian;
    if ENTRY_SIZE * done < |raw| && ENTRY_SIZE * (done + 1) <= |raw| && done + 1 < |names| {
      ParsedNames(raw, names, done + 1);
    }
  }

  predicate NamesAllOf(listing: Result<seq<FileInfo>>, files: seq<VolumeFile>) {
    && listing.Ok? && |listing.value| == |files|
    && forall i :: 0 <= i < |files| ==> listing.value[i].filename == files[i].filename
  }

  // The listing names every file, in order, exactly when every name is NUL-free
  // and at most 100 bytes long.
  lemma ListingNamesExactlyWhenPlain(files: seq<VolumeFile>)
    requires AllWritable(files) && |Image(files, 0)| < 0x1_0000_0000
    ensures NamesAllOf(FileMetadata(Image(files, 0), Cursor(0, false)).0, files) <==> AllPlain(files)
  {
    hide Image, Blocks, NameBytes, Entries, SplitNames, ParseEntries, FileMetadata, Location, FirstWithName, StoredSize;
    if AllPlain(files) {
      ListingRoundTrip(files);
    }
    ListingOfImage(files, []);
    assert Image(files, 0) + [] == Image(files, 0);
    var names := SplitNames(NameBytes(files));
    SplitNamesArePlain(NameBytes(files));
    ParsedNames(Entries(files, HEADER_SIZE, |files|), names, 0);
    var listing := FileMetadata(Image(files, 0), Cursor(0, false)).0;
    if NamesAllOf(listing, files) {
      forall i | 0 <= i < |files| ensures Plain(files[i].filename) {
        assert listing.value[i].filename == names[i];
      }
    }
  }

  predicate NamesDistinct(files: seq<VolumeFile>) {
    forall i, j :: 0 <= i < j < |files| ==> files[i].filename != files[j].filename
  }

  // Every listed place is the file's own block exactly when no name repeats.
  lemma OwnBlocksExactlyWhenDistinct(files: seq<VolumeFile>)
    requires AllWritable(files)
    ensures (forall i :: 0 <= i < |files| ==> Listed(files, i).offset == Location(files, HEADER_SIZE, i))
            <==> NamesDistinct(files)
  {
    hide Blocks, Location, StoredSize;
    if NamesDistinct(files) {
    } else {
      var i, j :| 0 <= i < j < |files| && files[i].filename == files[j].filename;
      var first := FirstWithName(files, files[j].filename);
      assert first <= i;
      BlocksAreAlignedAndOrdered(files, HEADER_SIZE, first, j);
      assert Listed(files, j).offset != Location(files, HEADER_SIZE, j);
    }
  }

  // What extraction copies out for file `i`: bytes behind the header of the
  // first block under its name.
  lemma ExtractionReadsFirstBlock(files: seq<VolumeFile>, i: nat)
    requires AllWritable(files) && i < |files|
    ensures var first := FirstWithName(files, files[i].filename);
            var from := Listed(files, i).offset + HEADER_SIZE;
            && from + StoredSize(files[first]) <= |Image(files, 0)|
            && Image(files, 0)[from..from + StoredSize(files[first])] == Payload(files[first])
  {
    hide Image, Blocks, StoredSize, NameBytes, Entries, LittleEndian, Payload;
    var first := FirstWithName(files, files[i].filename);
    ImagePieces(files);
    BlockAtLocation(files, HEADER_SIZE, first);
    var blocks := Blocks(files, HEADER_SIZE);
    var image := Image(files, 0);
    var at := Location(files, HEADER_SIZE, first);
    var size := StoredSize(files[first]);
    SliceOfSlice(image, HEADER_SIZE, HEADER_SIZE + |blocks|, at, at + size);
  }

  // A file as the tools hand it over: its stream holds its contents, uncompressed.
  predicate Uncompressed(file: VolumeFile) {
    file.compressedSize.None? && file.size == |file.content|
  }

  // A block holds the whole of an uncompressed file exactly when the size fits
  // the 24 bits of the block header.
  lemma WholeContentExactlyWhenSizeFits(file: VolumeFile)
    requires Uncompressed(file)
    ensures Payload(file) == file.content <==> file.size < 0x100_0000
  {
    if |file.content| < 0x100_0000 {
      assert file.content[..|file.content|] == file.content;
    }
  }

  // A listing entry describes the file, and its bytes lie behind the block header.
  predicate HoldsFile(image: seq<Byte>, info: FileInfo, file: VolumeFile) {
    var from := info.offset + HEADER_SIZE;
    && info.filename == file.filename
    && info.size == |file.content|
    && info.compressionType == file.compressionType
    && from + info.size <= |image|
    && image[from..from + info.size] == file.content
  }

  lemma ExtractsOwnContent(files: seq<VolumeFile>, i: nat)
    requires AllWritable(files) && NamesDistinct(files) && i < |files|
    requires Uncompressed(files[i]) && files[i].size < 0x100_0000
    ensures HoldsFile(Image(files, 0), Listed(files, i), files[i])
  {
    hide Image, Blocks, Location, Payload, StoredSize;
    ExtractionReadsFirstBlock(files, i);
    WholeContentExactlyWhenSizeFits(files[i]);
    assert FirstWithName(files, files[i].filename) == i;
  }

  // The archive round trip: distinct plain names, contents below 2^24 bytes. The
  // listing has every name, size and type in order, and behind the header of each
  // listed block lie exactly the file's bytes.
  lemma ArchiveRoundTrip(files: seq<VolumeFile>)
    requires forall i :: 0 <= i < |files| ==> Uncompressed(files[i]) && files[i].size < 0x100_0000
    requires AllWritable(files) && |Image(files, 0)| < 0x1_0000_0000
    requires AllPlain(files) && NamesDistinct(files)
    ensures var listing := FileMetadata(Image(files, 0), Cursor(0, false)).0;
            && listing.Ok? && |listing.value| == |files|
            && forall i :: 0 <= i < |files| ==> HoldsFile(Image(files, 0), listing.value[i], files[i])
  {
    hide Image, FileMetadata, Listed;
    ListingRoundTrip(files);
    forall i | 0 <= i < |files|
      ensures HoldsFile(Image(files, 0), Listed(files, i), files[i])
    {
      ExtractsOwnContent(files, i);
    }
  }

  // ----- archives written elsewhere -----

  // The front of an image, wherever it is written, and its string table.
  lemma ImageFront(files: seq<VolumeFile>, start: nat)
    requires AllWritable(files)
    ensures var image := Image(files, start);
            var footer := FooterField(files, start);
            && footer + HEADER_SIZE <= |image|
            && image[..4] == ALT_FILE_TAG && image[4..8] == LittleEndian(footer, 4)
            && image[footer..footer + 4] == STRING_TAG
  {
    hide Blocks, Index, LittleEndian, NameBytes;
    var blocks := Blocks(files, start + HEADER_SIZE);
    var table := StringTable(files);
    var index := Index(files, start + HEADER_SIZE);
    var size := LittleEndian(HEADER_SIZE + |blocks|, 4);
    Slice(ALT_FILE_TAG, size, blocks + table + index, Image(files, start));
    Slice(ALT_FILE_TAG + size + blocks, table, index, Image(files, start));
    SliceOfSlice(Image(files, start), HEADER_SIZE + |blocks|, HEADER_SIZE + |blocks| + |table|, 0, 4);
  }

  // What the writer patches into the header: the size of everything before the string
  // table, counted from where the archive starts.
  function FooterField(files: seq<VolumeFile>, start: nat): nat
    requires AllWritable(files)
  {
    HEADER_SIZE + |Blocks(files, start + HEADER_SIZE)|
  }

  lemma InsideOverwrite(base: seq<Byte>, start: nat, image: seq<Byte>, p: nat, q: nat)
    requires start <= |base| && p <= q <= |image|
    ensures Overwrite(base, start, image)[start + p..start + q] == image[p..q]
  {
    var data := Overwrite(base, start, image);
    assert data[start..start + |image|] == image;
    SliceOfSlice(data, start, start + |image|, p, q);
  }

  // Started at the archive, the reader takes the header field as a position counted
  // from the origin of the stream, and so ends up behind the size of the archive's own
  // string table exactly when the archive is written at the origin.
  lemma OwnTableReadExactlyAtOrigin(base: seq<Byte>, files: seq<VolumeFile>, start: nat)
    requires AllWritable(files) && start <= |base| && FooterField(files, start) < 0x1_0000_0000
    ensures var data := Overwrite(base, start, Image(files, start));
            var footer := FooterField(files, start);
            var (size, at) := FileListOffset(data, Cursor(start, false));
            && start + footer + HEADER_SIZE <= |data| && data[start + footer..start + footer + 4] == STRING_TAG
            && size == Ok(FromLittleEndian(ReadBytes(data, Cursor(footer, false), HEADER_SIZE)[4..8]))
            && at == AfterRead(data, Cursor(footer, false), HEADER_SIZE)
            && (at == Cursor(start + footer + HEADER_SIZE, false) <==> start == 0)
  {
    hide Blocks, Image, LittleEndian, FromLittleEndian, FooterField, FileListOffset, Overwrite;
    var image := Image(files, start);
    var data := Overwrite(base, start, image);
    var footer := FooterField(files, start);
    ImageFront(files, start);
    InsideOverwrite(base, start, image, 0, 4);
    InsideOverwrite(base, start, image, 4, 8);
    InsideOverwrite(base, start, image, footer, footer + 4);
    InsideOverwrite(base, start, image, footer, |image|);
    assert start + |image| <= |data| by { OverwriteSize(base, start, image); }
    assert image[0..4] == image[..4];
    HeaderAt(data, start, footer);
  }

  lemma OverwriteSize(base: seq<Byte>, start: nat, image: seq<Byte>)
    requires start <= |base|
    ensures start + |image| <= |Overwrite(base, start, image)|
  {
  }

  // Behind enough zero bytes an archive is not listed: the reader finds neither names
  // nor an index among them.
  lemma NotListedBehindZeros(files: seq<VolumeFile>, start: nat)
    requires AllWritable(files) && FooterField(files, start) < 0x1_0000_0000
    requires FooterField(files, start) + 2 * HEADER_SIZE <= start
    ensures FileMetadata(Overwrite(Zeros(start), start, Image(files, start)), Cursor(start, false)).0
         == Err(IndexMissing)
  {
    hide Image, FooterField, FileListOffset, Overwrite, SplitNames;
    var data := Overwrite(Zeros(start), start, Image(files, start));
    var footer := FooterField(files, start);
    OwnTableReadExactlyAtOrigin(Zeros(start), files, start);
    OverwriteKeepsFront(Zeros(start), start, Image(files, start));
    ReadsZeros(data, start, footer);
    ReadsZeros(data, start, footer + HEADER_SIZE);
    NoSizeInZeros();
    assert ReadBytes(data, Cursor(footer + HEADER_SIZE, false), 0) == [];
    assert Zeros(HEADER_SIZE)[..4][0] == 0 && INDEX_TAG[0] != 0;
  }

  lemma OverwriteKeepsFront(base: seq<Byte>, start: nat, image: seq<Byte>)
    requires start <= |base|
    ensures start + |image| <= |Overwrite(base, start, image)|
    ensures Overwrite(base, start, image)[..start] == base[..start]
  {
  }

  lemma ReadsZeros(data: seq<Byte>, start: nat, at: nat)
    requires at + HEADER_SIZE <= start <= |data| && data[..start] == Zeros(start)[..start]
    ensures ReadBytes(data, Cursor(at, false), HEADER_SIZE) == Zeros(HEADER_SIZE)
    ensures AfterRead(data, Cursor(at, false), HEADER_SIZE) == Cursor(at + HEADER_SIZE, false)
  {
    SliceOfSlice(data, 0, start, at, at + HEADER_SIZE);
    assert data[0..start] == Zeros(start);
    assert Zeros(start)[at..at + HEADER_SIZE] == Zeros(HEADER_SIZE);
  }

  lemma NoSizeInZeros()
    ensures FromLittleEndian(Zeros(HEADER_SIZE)[4..8]) == 0
  {
    assert Zeros(HEADER_SIZE)[4..8] == [0, 0, 0, 0];
    assert FromLittleEndian([0, 0]) == 0;
    assert [0, 0, 0, 0][1..][1..] == [0, 0];
  }

  // All the reader takes from where it is started is the header: an archive with the
  // same header as the one at the origin is listed as that one.
  lemma SameHeaderSameListing(data: seq<Byte>, start: nat)
    requires start + HEADER_SIZE <= |data| && data[start..start + HEADER_SIZE] == data[..HEADER_SIZE]
    requires data[..4] == ALT_FILE_TAG
    ensures FileMetadata(data, Cursor(start, false)) == FileMetadata(data, Cursor(0, false))
  {
    assert data[0..HEADER_SIZE] == data[..HEADER_SIZE];
    assert ReadBytes(data, Cursor(start, false), HEADER_SIZE) == ReadBytes(data, Cursor(0, false), HEADER_SIZE);
    assert data[..HEADER_SIZE][..4] == ALT_FILE_TAG;
    assert FileListOffset(data, Cursor(start, false)) == FileListOffset(data, Cursor(0, false));
  }

  // Written behind another archive whose blocks take up as much space, an archive is
  // listed as that other one.
  lemma SecondArchiveIsListedAsFirst(first: seq<VolumeFile>, second: seq<VolumeFile>)
    requires AllWritable(first) && AllPlain(first) && |Image(first, 0)| < 0x1_0000_0000
    requires AllWritable(second) && FooterField(second, |Image(first, 0)|) == FooterField(first, 0)
    ensures var start := |Image(first, 0)|;
            FileMetadata(Overwrite(Image(first, 0), start, Image(second, start)), Cursor(start, false)).0
            == Ok(Listing(first, 0))
  {
    hide Image, Overwrite, FileMetadata, Listing, AllPlain, AllWritable, FooterField;
    var image := Image(first, 0);
    var start := |image|;
    var behind := Image(second, start);
    var data := Overwrite(image, start, behind);
    OverwriteAtEnd(image, behind);
    ListedBefore(first, behind);
    ImageFront(first, 0);
    ImageFront(second, start);
    EightBytes(image);
    EightBytes(behind);
    InsideOverwrite(image, start, behind, 0, HEADER_SIZE);
    assert data[..HEADER_SIZE] == image[..HEADER_SIZE];
    assert data[..4] == image[..4];
    SameHeaderSameListing(data, start);
  }

  lemma OverwriteAtEnd(base: seq<Byte>, image: seq<Byte>)
    ensures Overwrite(base, |base|, image) == base + image
  {
  }

  lemma EightBytes(data: seq<Byte>)
    requires |data| >= HEADER_SIZE
    ensures data[..HEADER_SIZE] == data[..4] + data[4..8] == data[0..HEADER_SIZE]
  {
  }
}
