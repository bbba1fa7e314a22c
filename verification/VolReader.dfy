// Reading a VOL archive: `get_file_list_offsets`, `get_file_names`,
// `get_file_metadata`, `set_stream_position` and the uncompressed branch of
// `extract_file_contents`.
module VolReader {
  import opened Bytes
  import opened Streams
  import opened VolFormat

  method GetFileListOffset(stream: InputStream) returns (size: Result<nat>)
    modifies stream
    ensures (size, stream.cursor) == FileListOffset(stream.data, old(stream.cursor))
  {
    var header := stream.Read(HEADER_SIZE);
    var tag := header[..4];
    if tag == FILE_TAG {
      stream.Seek(FromLittleEndian(header[4..8]));
      var footer := stream.Read(24);
      return Ok(FromLittleEndian(footer[20..24]));
    } else if tag == ALT_FILE_TAG {
      stream.Seek(FromLittleEndian(header[4..8]));
      var footer := stream.Read(HEADER_SIZE);
      return Ok(FromLittleEndian(footer[4..8]));
    } else if tag == OLD_FILE_TAG {
      return Err(OldFormat);
    } else {
      return Err(NotAVolume);
    }
  }

  function NamesFrom(chars: seq<Byte>, index: nat): seq<Name> {
    if index < |chars| then SplitNames(chars[index..]) else []
  }

  // The names `before` and those still to come.
  function NamesAfter(before: seq<Name>, chars: seq<Byte>, index: nat): seq<Name> {
    before + NamesFrom(chars, index)
  }

  lemma NamesStep(before: seq<Name>, chars: seq<Byte>, index: nat, name: Name)
    requires index < |chars| && name == UntilNul(chars[index..])
    ensures NamesAfter(before, chars, index)
         == if |name| > MAX_NAME_SIZE then before else NamesAfter(before + [name], chars, index + |name| + 1)
  {
    hide UntilNul, SplitNames;
    var rest := chars[index..];
    SplitNamesStep(rest, name);
    if |name| < |rest| {
      assert rest[|name| + 1..] == chars[index + |name| + 1..];
      assert |name| + 1 == |rest| ==> rest[|name| + 1..] == [];
    }
    Regroup(before, name, NamesFrom(chars, index + |name| + 1));
  }

  lemma SplitNamesStep(chars: seq<Byte>, name: Name)
    requires |chars| > 0 && name == UntilNul(chars)
    ensures SplitNames([]) == []
    ensures SplitNames(chars)
         == if |name| > MAX_NAME_SIZE then []
            else if |name| == |chars| then [name]
            else [name] + SplitNames(chars[|name| + 1..])
  {
  }

  lemma Regroup(before: seq<Name>, name: Name, rest: seq<Name>)
    ensures before + ([name] + rest) == before + [name] + rest
    ensures before + [] == before && before + [name] + [] == before + [name]
  {
  }

  lemma NamesOutside(before: seq<Name>, chars: seq<Byte>, index: nat)
    ensures index >= |chars| ==> NamesAfter(before, chars, index) == before
    ensures NamesAfter([], chars, 0) == SplitNames(chars)
  {
    assert chars[0..] == chars;
    if |chars| == 0 {
      assert SplitNames(chars) == [];
    }
  }

  method GetFileNames(stream: InputStream) returns (names: Result<seq<Name>>)
    modifies stream
    ensures (names, stream.cursor) == FileNames(stream.data, old(stream.cursor))
  {
    hide SplitNames, FileListOffset, ReadBytes, AfterRead;
    var size := GetFileListOffset(stream);
    if size.Err? {
      return Err(size.error);
    }
    var chars := stream.Read(size.value);
    if size.value % 2 != 0 {
      stream.Skip(1);
    }
    if |chars| > 0 && chars[|chars| - 1] != 0 {
      chars := chars[|chars| - 1 := 0];
    }
    var results := ReadNames(chars);
    names := Ok(results);
  }

  // The loop over the NUL-terminated names.
  method ReadNames(chars: seq<Byte>) returns (results: seq<Name>)
    ensures results == SplitNames(chars)
  {
    hide SplitNames, UntilNul, NamesAfter;
    results := [];
    var index := 0;
    NamesOutside([], chars, 0);
    while index < |chars|
      invariant SplitNames(chars) == NamesAfter(results, chars, index)
      decreases |chars| - index
    {
      var name := UntilNul(chars[index..]);
      NamesStep(results, chars, index, name);
      if |name| > MAX_NAME_SIZE {
        return;
      }
      results := results + [name];
      index := index + |name| + 1;
    }
    NamesOutside(results, chars, index);
  }

  lemma PrependNothing(infos: seq<FileInfo>, r: Result<seq<FileInfo>>)
    ensures Prepend([], r) == r
    ensures Prepend(infos, Ok([])) == Ok(infos)
  {
    assert infos + [] == infos;
    if r.Ok? {
      assert [] + r.value == r.value;
    }
  }

  lemma PrependTwice(a: seq<FileInfo>, b: seq<FileInfo>, r: Result<seq<FileInfo>>)
    ensures Prepend(a, Prepend(b, r)) == Prepend(a + b, r)
  {
    if r.Ok? {
      assert a + (b + r.value) == (a + b) + r.value;
    }
  }

  // The loop over the 17-byte entries.
  method ReadEntries(raw: seq<Byte>, names: seq<Name>) returns (results: Result<seq<FileInfo>>)
    ensures results == ParseEntries(raw, names, 0)
  {
    var infos: seq<FileInfo> := [];
    var index := 0;
    PrependNothing([], ParseEntries(raw, names, 0));
    while index < |raw|
      invariant |infos| <= |names| && index == ENTRY_SIZE * |infos|
      invariant |infos| > 0 ==> |infos| < |names|
      invariant ParseEntries(raw, names, 0) == Prepend(infos, ParseEntries(raw, names, |infos|))
      decreases |names| - |infos|
    {
      if index + ENTRY_SIZE > |raw| || |infos| == |names| {
        return Err(OutOfBounds);
      }
      var entry := raw[index..index + ENTRY_SIZE];
      var info := FileInfo(names[|infos|], FromLittleEndian(entry[8..12]), FromLittleEndian(entry[12..16]), entry[16]);
      if |infos| + 1 == |names| {
        return Ok(infos + [info]);
      }
      PrependTwice(infos, [info], ParseEntries(raw, names, |infos| + 1));
      infos := infos + [info];
      index := index + ENTRY_SIZE;
    }
    PrependNothing(infos, Ok([]));
    results := Ok(infos);
  }

  method GetFileMetadata(stream: InputStream) returns (listing: Result<seq<FileInfo>>)
    modifies stream
    ensures (listing, stream.cursor) == FileMetadata(stream.data, old(stream.cursor))
  {
    var names := GetFileNames(stream);
    if names.Err? {
      return Err(names.error);
    }
    var header := stream.Read(HEADER_SIZE);
    if header[..4] != INDEX_TAG {
      return Err(IndexMissing);
    }
    var raw := stream.Read(FromLittleEndian(header[4..8]));
    listing := ReadEntries(raw, names.value);
  }

  // Wherever the stream stands, the cursor ends behind the block's header: it
  // skips the header when it stands on it, stays when it is already past it,
  // and seeks otherwise.
  method SetStreamPosition(stream: InputStream, info: FileInfo)
    requires !stream.cursor.failed
    modifies stream
    ensures stream.cursor == Cursor(info.offset + HEADER_SIZE, false)
  {
    if stream.cursor.pos == info.offset {
      stream.Skip(HEADER_SIZE);
    } else if stream.cursor.pos != info.offset + HEADER_SIZE {
      stream.Seek(info.offset + HEADER_SIZE);
    }
  }

  // Copying an uncompressed file out: the bytes behind the block's header.
  // The copy reads exactly `size` bytes, so they must be there.
  method ExtractFileContents(stream: InputStream, info: FileInfo) returns (contents: seq<Byte>)
    requires !stream.cursor.failed
    requires info.offset + HEADER_SIZE + info.size <= |stream.data|
    modifies stream
    ensures contents == stream.data[info.offset + HEADER_SIZE..info.offset + HEADER_SIZE + info.size]
    ensures stream.cursor == Cursor(info.offset + HEADER_SIZE + (if info.size == 0 then 0 else info.size - 1), false)
  {
    SetStreamPosition(stream, info);
    contents := stream.CopyN(info.size);
  }
}
