// The Darkstar VOL archive: what the writer lays out and what the reader takes
// a byte sequence to mean.
module VolFormat {
  import opened Bytes
  import opened Streams
  import opened Wrappers

  datatype Result<+T> = Ok(value: T) | Err(error: VolError)

  // NotAVolume, IndexMissing: the two exceptions of the reader.
  // OldFormat: the three-space layout, which has no writer.
  // OutOfBounds: the reader would index past one of its own vectors.
  datatype VolError = NotAVolume | IndexMissing | OldFormat | OutOfBounds

  type Name = seq<Byte>

  type Int32 = x: int | -0x8000_0000 <= x < 0x8000_0000

  // A file handed to the writer. `content` is what its stream still holds.
  datatype VolumeFile = VolumeFile(
    filename: Name,
    size: Int32,
    compressedSize: Option<Int32>,
    compressionType: Byte,
    content: seq<Byte>)

  // An entry of the listing the reader returns.
  datatype FileInfo = FileInfo(filename: Name, offset: nat, size: nat, compressionType: Byte)

  const INDEX_TAG: seq<Byte> := [0x76, 0x6F, 0x6C, 0x69]
  const STRING_TAG: seq<Byte> := [0x76, 0x6F, 0x6C, 0x73]
  const FILE_TAG: seq<Byte> := [0x20, 0x56, 0x4F, 0x4C]
  const ALT_FILE_TAG: seq<Byte> := [0x50, 0x56, 0x4F, 0x4C]
  const OLD_FILE_TAG: seq<Byte> := [0x56, 0x4F, 0x4C, 0x20]
  const BLOCK_TAG: seq<Byte> := [0x56, 0x42, 0x4C, 0x4B]

  const HEADER_SIZE: nat := 8
  const ENTRY_SIZE: nat := 17
  const MAX_NAME_SIZE: nat := 100

  // ----- the image the writer produces -----

  // The length a block header can express: the low 24 bits of the stored size.
  function StoredSize(file: VolumeFile): nat {
    var declared := if file.compressedSize.Some? then file.compressedSize.value else file.size;
    declared % 0x100_0000
  }

  // What the writer asks of a file: its stream holds the bytes to be copied.
  predicate Writable(file: VolumeFile) {
    StoredSize(file) <= |file.content|
  }

  predicate AllWritable(files: seq<VolumeFile>) {
    forall i :: 0 <= i < |files| ==> Writable(files[i])
  }

  function BlockHeader(file: VolumeFile): (r: seq<Byte>)
    ensures |r| == HEADER_SIZE
  {
    BLOCK_TAG + LittleEndian(StoredSize(file), 3) + [0x80]
  }

  function Payload(file: VolumeFile): (r: seq<Byte>)
    requires Writable(file)
    ensures |r| == StoredSize(file)
  {
    file.content[..StoredSize(file)]
  }

  // The blocks of `files`, the first of which is written at position `from`.
  function Blocks(files: seq<VolumeFile>, from: nat): (r: seq<Byte>)
    requires AllWritable(files)
  {
    if |files| == 0 then []
    else
      var init := Blocks(files[..|files| - 1], from);
      var block := BlockHeader(files[|files| - 1]) + Payload(files[|files| - 1]);
      init + block + Zeros(PaddingSize(from + |init| + |block|, 4))
  }

  // The position at which block `i` starts.
  function Location(files: seq<VolumeFile>, from: nat, i: nat): (r: nat)
    requires AllWritable(files) && i < |files|
  {
    from + |Blocks(files[..i], from)|
  }

  lemma BlocksStep(files: seq<VolumeFile>, from: nat, k: nat, before: seq<Byte>)
    requires AllWritable(files) && k < |files|
    ensures before + Blocks(files[..k], from) + (BlockHeader(files[k]) + Payload(files[k]))
            + Zeros(PaddingSize(Location(files, from, k) + HEADER_SIZE + StoredSize(files[k]), 4))
         == before + Blocks(files[..k + 1], from)
  {
    hide Blocks, BlockHeader, Payload, StoredSize, PaddingSize;
    LastBlock(files, from, k);
    var block := BlockHeader(files[k]) + Payload(files[k]);
    Associate(before, Blocks(files[..k], from), block,
              Zeros(PaddingSize(Location(files, from, k) + HEADER_SIZE + StoredSize(files[k]), 4)));
  }

  lemma LastBlock(files: seq<VolumeFile>, from: nat, k: nat)
    requires AllWritable(files) && k < |files|
    ensures var padding := PaddingSize(Location(files, from, k) + HEADER_SIZE + StoredSize(files[k]), 4);
            Blocks(files[..k + 1], from)
            == Blocks(files[..k], from) + (BlockHeader(files[k]) + Payload(files[k])) + Zeros(padding)
  {
    hide BlockHeader, Payload, StoredSize, PaddingSize;
    assert files[..k + 1][..k] == files[..k];
  }

  lemma Associate(a: seq<Byte>, b: seq<Byte>, c: seq<Byte>, d: seq<Byte>)
    ensures a + b + c + d == a + (b + c + d)
  {
  }

  lemma NoBlocks(files: seq<VolumeFile>, from: nat, before: seq<Byte>)
    requires AllWritable(files)
    ensures before + Blocks(files[..0], from) == before
  {
  }

  function FirstWithName(files: seq<VolumeFile>, name: Name): (r: nat)
    requires exists i :: 0 <= i < |files| && files[i].filename == name
    ensures r < |files| && files[r].filename == name
    ensures forall j :: 0 <= j < r ==> files[j].filename != name
  {
    if files[0].filename == name then 0
    else
      assert exists i :: 0 <= i < |files[1..]| && files[1..][i].filename == name by {
        var i :| 0 <= i < |files| && files[i].filename == name;
        assert files[1..][i - 1] == files[i];
      }
      1 + FirstWithName(files[1..], name)
  }

  // The NUL-terminated names, one after the other.
  function NameBytes(files: seq<VolumeFile>): seq<Byte> {
    if |files| == 0 then []
    else NameBytes(files[..|files| - 1]) + files[|files| - 1].filename + [0]
  }

  function StringTable(files: seq<VolumeFile>): seq<Byte> {
    var names := NameBytes(files);
    STRING_TAG + LittleEndian(|names|, 4) + names + Zeros(PaddingSize(|names|, 2))
  }

  function EntryBytes(location: nat, file: VolumeFile): (r: seq<Byte>)
    ensures |r| == ENTRY_SIZE
  {
    Zeros(4) + Zeros(4) + LittleEndian(location, 4) + LittleEndian(file.size, 4) + [file.compressionType]
  }

  // Entry `i` points at the first file that carries its name.
  function Entry(files: seq<VolumeFile>, from: nat, i: nat): (r: seq<Byte>)
    requires AllWritable(files) && i < |files|
    ensures |r| == ENTRY_SIZE
  {
    EntryBytes(Location(files, from, FirstWithName(files, files[i].filename)), files[i])
  }

  // The first `count` entries of the index.
  function Entries(files: seq<VolumeFile>, from: nat, count: nat): (r: seq<Byte>)
    requires AllWritable(files) && count <= |files|
    ensures |r| == ENTRY_SIZE * count
  {
    if count == 0 then [] else Entries(files, from, count - 1) + Entry(files, from, count - 1)
  }

  function Index(files: seq<VolumeFile>, from: nat): seq<Byte>
    requires AllWritable(files)
  {
    INDEX_TAG + LittleEndian(ENTRY_SIZE * |files|, 4) + Entries(files, from, |files|)
  }

  // The whole archive, written from position `start` of a stream. The footer
  // offset is counted from `start`, the block locations from the stream's origin.
  function Image(files: seq<VolumeFile>, start: nat): seq<Byte>
    requires AllWritable(files)
  {
    var blocks := Blocks(files, start + HEADER_SIZE);
    ALT_FILE_TAG + LittleEndian(HEADER_SIZE + |blocks|, 4) + blocks
      + StringTable(files) + Index(files, start + HEADER_SIZE)
  }

  // ----- what the reader makes of a byte sequence -----

  function UntilNul(s: seq<Byte>): (r: seq<Byte>)
    ensures |r| <= |s| && r == s[..|r|] && 0 !in r
    ensures |r| < |s| ==> s[|r|] == 0
  {
    if |s| == 0 || s[0] == 0 then [] else [s[0]] + UntilNul(s[1..])
  }

  // The names of a string table, up to the first that is too long.
  function SplitNames(chars: seq<Byte>): seq<Name>
    decreases |chars|
  {
    if |chars| == 0 then []
    else
      var name := UntilNul(chars);
      if |name| > MAX_NAME_SIZE then []
      else if |name| == |chars| then [name]
      else [name] + SplitNames(chars[|name| + 1..])
  }

  function TerminateLast(chars: seq<Byte>): (r: seq<Byte>)
    ensures |r| == |chars|
  {
    if |chars| > 0 && chars[|chars| - 1] != 0 then chars[|chars| - 1 := 0] else chars
  }

  // The size of the file list, with the cursor at the list.
  function FileListOffset(data: seq<Byte>, at: Cursor): (Result<nat>, Cursor) {
    var header := ReadBytes(data, at, HEADER_SIZE);
    var at := AfterRead(data, at, HEADER_SIZE);
    var tag := header[..4];
    if tag == FILE_TAG then
      var at := AfterSeek(at, FromLittleEndian(header[4..8]));
      var footer := ReadBytes(data, at, 24);
      (Ok(FromLittleEndian(footer[20..24])), AfterRead(data, at, 24))
    else if tag == ALT_FILE_TAG then
      var at := AfterSeek(at, FromLittleEndian(header[4..8]));
      var footer := ReadBytes(data, at, HEADER_SIZE);
      (Ok(FromLittleEndian(footer[4..8])), AfterRead(data, at, HEADER_SIZE))
    else if tag == OLD_FILE_TAG then (Err(OldFormat), at)
    else (Err(NotAVolume), at)
  }

  function FileNames(data: seq<Byte>, at: Cursor): (Result<seq<Name>>, Cursor) {
    var (size, at) := FileListOffset(data, at);
    if size.Err? then (Err(size.error), at)
    else
      var chars := ReadBytes(data, at, size.value);
      var at := AfterRead(data, at, size.value);
      var at := if size.value % 2 != 0 then AfterSeek(at, at.pos + 1) else at;
      (Ok(SplitNames(TerminateLast(chars))), at)
  }

  function Prepend(infos: seq<FileInfo>, r: Result<seq<FileInfo>>): Result<seq<FileInfo>> {
    if r.Err? then r else Ok(infos + r.value)
  }

  // The entries of a raw index, matched to names in order; the listing stops
  // when the index or the names run out.
  function ParseEntries(raw: seq<Byte>, names: seq<Name>, done: nat): Result<seq<FileInfo>>
    requires done <= |names|
    decreases |names| - done
  {
    if ENTRY_SIZE * done >= |raw| then Ok([])
    else if ENTRY_SIZE * (done + 1) > |raw| || done == |names| then Err(OutOfBounds)
    else
      var entry := raw[ENTRY_SIZE * done..ENTRY_SIZE * (done + 1)];
      var info := FileInfo(names[done], FromLittleEndian(entry[8..12]), FromLittleEndian(entry[12..16]), entry[16]);
      if done + 1 == |names| then Ok([info])
      else
        Prepend([info], ParseEntries(raw, names, done + 1))
  }

  function FileMetadata(data: seq<Byte>, at: Cursor): (Result<seq<FileInfo>>, Cursor) {
    var (names, at) := FileNames(data, at);
    if names.Err? then (Err(names.error), at)
    else
      var header := ReadBytes(data, at, HEADER_SIZE);
      var at := AfterRead(data, at, HEADER_SIZE);
      if header[..4] != INDEX_TAG then (Err(IndexMissing), at)
      else
        var size := FromLittleEndian(header[4..8]);
        (ParseEntries(ReadBytes(data, at, size), names.value, 0), AfterRead(data, at, size))
  }
}
