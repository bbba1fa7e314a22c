// Linking a MechWarrior 2 BWD file: chunks that refer to other files of the
// project are written with those files' bytes appended.
module BwdLinker {
  import opened Bytes
  import opened Streams
  import opened Wrappers

  const CHUNK_HEADER: nat := 8
  const ROOT_HEADER: nat := 12

  const BWD_TAG: seq<Byte> := [0x42, 0x57, 0x44, 0]
  const OBJ_TAG: seq<Byte> := [0x4F, 0x42, 0x4A, 0]
  const ANIM_TAG: seq<Byte> := [0x41, 0x4E, 0x49, 0x4D]
  const VPTF_TAG: seq<Byte> := [0x56, 0x50, 0x54, 0x46]
  const PITF_TAG: seq<Byte> := [0x50, 0x49, 0x54, 0x46]
  const CPTF_TAG: seq<Byte> := [0x43, 0x50, 0x54, 0x46]
  const MGDF_TAG: seq<Byte> := [0x4D, 0x47, 0x44, 0x46]
  const ASND_TAG: seq<Byte> := [0x41, 0x53, 0x4E, 0x44]

  // ----- chunk streams -----

  datatype Chunk = Chunk(tag: seq<Byte>, data: seq<Byte>)

  predicate WellSized(chunk: Chunk) {
    |chunk.tag| == 4 && |chunk.data| + CHUNK_HEADER < 0x1_0000_0000
  }

  predicate AllWellSized(chunks: seq<Chunk>) {
    forall i :: 0 <= i < |chunks| ==> WellSized(chunks[i])
  }

  // A chunk declares its size with its header included.
  function ChunkBytes(chunk: Chunk): seq<Byte> {
    chunk.tag + LittleEndian(|chunk.data| + CHUNK_HEADER, 4) + chunk.data
  }

  function ChunkStream(chunks: seq<Chunk>): seq<Byte> {
    if |chunks| == 0 then [] else ChunkStream(chunks[..|chunks| - 1]) + ChunkBytes(chunks[|chunks| - 1])
  }

  function TotalSize(chunks: seq<Chunk>): nat {
    if |chunks| == 0 then 0 else TotalSize(chunks[..|chunks| - 1]) + CHUNK_HEADER + |chunks[|chunks| - 1].data|
  }

  // Reading a chunk stream: None if a declared size does not cover its own header
  // or reaches past the end. Fewer bytes than a header end the stream.
  function Parse(bytes: seq<Byte>): Option<seq<Chunk>>
    decreases |bytes|
  {
    if |bytes| < CHUNK_HEADER then Some([])
    else
      var size := FromLittleEndian(bytes[4..8]);
      if size < CHUNK_HEADER || size > |bytes| then None
      else
        var rest := Parse(bytes[size..]);
        if rest.None? then None else Some([Chunk(bytes[..4], bytes[CHUNK_HEADER..size])] + rest.value)
  }

  lemma {:induction false} ChunkStreamFromFront(chunks: seq<Chunk>)
    requires |chunks| > 0
    ensures ChunkStream(chunks) == ChunkBytes(chunks[0]) + ChunkStream(chunks[1..])
  {
    hide ChunkBytes, ChunkStream;
    var n := |chunks|;
    LastChunk(chunks);
    NoChunk();
    if n == 1 {
      assert chunks[..0] == [] && chunks[1..] == [];
      Tail([], ChunkBytes(chunks[0]), []);
    } else {
      var middle := chunks[1..][..n - 2];
      ChunkStreamFromFront(chunks[..n - 1]);
      LastChunk(chunks[1..]);
      assert chunks[..n - 1][1..] == middle;
      Tail(ChunkBytes(chunks[0]), ChunkStream(middle), ChunkBytes(chunks[n - 1]));
    }
  }

  lemma LastChunk(chunks: seq<Chunk>)
    requires |chunks| > 0
    ensures ChunkStream(chunks) == ChunkStream(chunks[..|chunks| - 1]) + ChunkBytes(chunks[|chunks| - 1])
  {
  }

  lemma Tail(a: seq<Byte>, b: seq<Byte>, c: seq<Byte>)
    ensures a + (b + c) == a + b + c
    ensures [] + b == b + [] == b
  {
  }

  lemma ParsesFirstChunk(chunk: Chunk, rest: seq<Byte>)
    requires WellSized(chunk)
    ensures Parse(ChunkBytes(chunk) + rest)
         == (if Parse(rest).None? then None else Some([chunk] + Parse(rest).value))
  {
    hide LittleEndian, FromLittleEndian;
    var size := |chunk.data| + CHUNK_HEADER;
    var bytes := ChunkBytes(chunk) + rest;
    FieldWidths();
    StoreThenLoad(size, 4);
    assert bytes[4..8] == LittleEndian(size, 4);
    assert bytes[..4] == chunk.tag && bytes[CHUNK_HEADER..size] == chunk.data && bytes[size..] == rest;
  }

  // A written chunk stream reads back as its chunks.
  lemma {:induction false} ChunkStreamParses(chunks: seq<Chunk>)
    requires AllWellSized(chunks)
    ensures Parse(ChunkStream(chunks)) == Some(chunks)
  {
    hide Parse, ChunkStream, ChunkBytes;
    if chunks == [] {
      EmptyStreamParses();
    } else {
      assert WellSized(chunks[0]);
      ChunkStreamFromFront(chunks);
      ChunkStreamParses(chunks[1..]);
      ParsesFirstChunk(chunks[0], ChunkStream(chunks[1..]));
      assert [chunks[0]] + chunks[1..] == chunks;
    }
  }

  lemma EmptyStreamParses()
    ensures Parse(ChunkStream([])) == Some([])
  {
  }

  lemma {:induction false} ChunkStreamSize(chunks: seq<Chunk>)
    requires AllWellSized(chunks)
    ensures |ChunkStream(chunks)| == TotalSize(chunks)
  {
    if |chunks| > 0 {
      ChunkStreamSize(chunks[..|chunks| - 1]);
      assert WellSized(chunks[|chunks| - 1]);
    }
  }

  // ----- what linking does to a chunk -----

  // A file of the project, by its place in the project's stream.
  datatype FileRef = FileRef(offset: nat, size: nat)

  // The files by index, for each kind of reference that is resolved.
  datatype Project = Project(
    wtb: map<nat, FileRef>,
    tdi: map<nat, FileRef>,
    cpi: map<nat, FileRef>,
    bwd: map<nat, FileRef>,
    sfl: map<nat, FileRef>)

  datatype Decision = Drop | Keep | Attach(file: FileRef)

  // Where a chunk keeps the index of the file it refers to; the data must reach
  // that far.
  predicate HasReference(chunk: Chunk) {
    if chunk.tag == OBJ_TAG then |chunk.data| >= 4
    else if chunk.tag in {ANIM_TAG, VPTF_TAG, CPTF_TAG, PITF_TAG, MGDF_TAG, ASND_TAG} then |chunk.data| >= 2
    else true
  }

  function Reference(chunk: Chunk): nat
    requires HasReference(chunk)
  {
    if chunk.tag == OBJ_TAG then FromLittleEndian(chunk.data[|chunk.data| - 4..|chunk.data| - 2])
    else if |chunk.data| >= 2 then FromLittleEndian(chunk.data[..2])
    else 0
  }

  function Resolve(files: map<nat, FileRef>, index: nat, otherwise: Decision): Decision {
    if index in files then Attach(files[index]) else otherwise
  }

  // The reference of an OBJ chunk must resolve or the chunk is lost; VPTF and MGDF chunks
  // are always dropped; every other chunk is kept, resolved or not.
  function Decide(chunk: Chunk, project: Project): Decision
    requires HasReference(chunk)
  {
    if chunk.tag == OBJ_TAG then Resolve(project.wtb, Reference(chunk), Drop)
    else if chunk.tag == ANIM_TAG then Resolve(project.tdi, Reference(chunk), Keep)
    else if chunk.tag == VPTF_TAG then Drop
    else if chunk.tag == CPTF_TAG then Resolve(project.cpi, Reference(chunk), Keep)
    else if chunk.tag == PITF_TAG then Resolve(project.bwd, Reference(chunk), Keep)
    else if chunk.tag == MGDF_TAG then Drop
    else if chunk.tag == ASND_TAG then Resolve(project.sfl, Reference(chunk), Keep)
    else Keep
  }

  predicate InStream(file: FileRef, data: seq<Byte>) {
    file.offset + file.size <= |data|
  }

  function Contents(file: FileRef, data: seq<Byte>): (r: seq<Byte>)
    requires InStream(file, data)
    ensures |r| == file.size
  {
    data[file.offset..file.offset + file.size]
  }

  predicate AllInStream(files: map<nat, FileRef>, data: seq<Byte>) {
    forall k :: k in files ==> InStream(files[k], data)
  }

  // Every file of the project lies within its stream.
  predicate ProjectInStream(project: Project, data: seq<Byte>) {
    && AllInStream(project.wtb, data)
    && AllInStream(project.tdi, data)
    && AllInStream(project.cpi, data)
    && AllInStream(project.bwd, data)
    && AllInStream(project.sfl, data)
  }

  // The bytes a chunk gains.
  function Appendix(chunk: Chunk, project: Project, data: seq<Byte>): seq<Byte>
    requires HasReference(chunk) && ProjectInStream(project, data)
  {
    var decision := Decide(chunk, project);
    if decision.Attach? then Contents(decision.file, data) else []
  }

  predicate AllHaveReferences(chunks: seq<Chunk>) {
    forall i :: 0 <= i < |chunks| ==> HasReference(chunks[i])
  }

  // The chunks that are kept, in order, each with what it gains.
  function Linked(chunks: seq<Chunk>, project: Project, data: seq<Byte>): seq<Chunk>
    requires AllHaveReferences(chunks) && ProjectInStream(project, data)
  {
    if |chunks| == 0 then []
    else
      var init := Linked(chunks[..|chunks| - 1], project, data);
      var last := chunks[|chunks| - 1];
      if Decide(last, project).Drop? then init
      else init + [Chunk(last.tag, last.data + Appendix(last, project, data))]
  }

  function Gained(chunks: seq<Chunk>, project: Project, data: seq<Byte>): nat
    requires AllHaveReferences(chunks) && ProjectInStream(project, data)
  {
    if |chunks| == 0 then 0
    else Gained(chunks[..|chunks| - 1], project, data) + |Appendix(chunks[|chunks| - 1], project, data)|
  }

  function Dropped(chunks: seq<Chunk>, project: Project): seq<Chunk>
    requires AllHaveReferences(chunks)
  {
    if |chunks| == 0 then []
    else
      var init := Dropped(chunks[..|chunks| - 1], project);
      var last := chunks[|chunks| - 1];
      if Decide(last, project).Drop? then init + [last] else init
  }

  // Sizes balance: what is written, and what is dropped, is what was read and gained.
  lemma {:induction false} SizesBalance(chunks: seq<Chunk>, project: Project, data: seq<Byte>)
    requires AllHaveReferences(chunks) && ProjectInStream(project, data)
    ensures TotalSize(Linked(chunks, project, data)) + TotalSize(Dropped(chunks, project))
         == TotalSize(chunks) + Gained(chunks, project, data)
  {
    hide Decide, Resolve, Reference, InStream;
    var n := |chunks|;
    if n > 0 {
      var init, last := chunks[..n - 1], chunks[n - 1];
      SizesBalance(init, project, data);
      if Decide(last, project).Drop? {
        var dropped := Dropped(init, project) + [last];
        assert dropped[..|dropped| - 1] == Dropped(init, project);
      } else {
        var linked := Linked(init, project, data) + [Chunk(last.tag, last.data + Appendix(last, project, data))];
        assert linked[..|linked| - 1] == Linked(init, project, data);
      }
    }
  }

  // ----- the linking code -----

  // Copies a file of the project behind the chunk, whose declared size grows by
  // the file's size.
  method WriteWithFile(stream: InputStream, chunk: Chunk, file: FileRef, output: OutputStream,
                       ghost base: seq<Byte>, ghost at: nat, ghost before: seq<Byte>)
    requires stream as object != output as object
    requires !stream.cursor.failed && InStream(file, stream.data) && Wrote(output, base, at, before)
    modifies stream, output
    ensures !stream.cursor.failed
    ensures Wrote(output, base, at,
                  before + ChunkBytes(Chunk(chunk.tag, chunk.data + Contents(file, stream.data))))
  {
    hide Wrote, LittleEndian;
    if stream.cursor.pos != file.offset {
      stream.Seek(file.offset);
    }
    var size := LittleEndian(|chunk.data| + CHUNK_HEADER + file.size, 4);
    Append(output, chunk.tag, base, at, before);
    Append(output, size, base, at, before + chunk.tag);
    Append(output, chunk.data, base, at, before + chunk.tag + size);
    var contents := stream.CopyN(file.size);
    Append(output, contents, base, at, before + chunk.tag + size + chunk.data);
    assert contents == Contents(file, stream.data);
    assert |chunk.data + contents| + CHUNK_HEADER == |chunk.data| + CHUNK_HEADER + file.size;
    assert before + chunk.tag + size + chunk.data + contents == before + (chunk.tag + size + (chunk.data + contents));
  }

  method WriteAsIs(chunk: Chunk, output: OutputStream, ghost base: seq<Byte>, ghost at: nat, ghost before: seq<Byte>)
    requires Wrote(output, base, at, before)
    modifies output
    ensures Wrote(output, base, at, before + ChunkBytes(chunk))
  {
    hide Wrote, LittleEndian;
    var size := LittleEndian(|chunk.data| + CHUNK_HEADER, 4);
    Append(output, chunk.tag, base, at, before);
    Append(output, size, base, at, before + chunk.tag);
    Append(output, chunk.data, base, at, before + chunk.tag + size);
    assert before + chunk.tag + size + chunk.data == before + (chunk.tag + size + chunk.data);
  }

  // What is written for a chunk.
  function Written(chunk: Chunk, project: Project, data: seq<Byte>): seq<Byte>
    requires HasReference(chunk) && ProjectInStream(project, data)
  {
    if Decide(chunk, project).Drop? then []
    else ChunkBytes(Chunk(chunk.tag, chunk.data + Appendix(chunk, project, data)))
  }

  method WriteResolved(stream: InputStream, chunk: Chunk, files: map<nat, FileRef>, index: nat, otherwise: Decision,
                       output: OutputStream, ghost base: seq<Byte>, ghost at: nat, ghost before: seq<Byte>)
    returns (gained: nat)
    requires stream as object != output as object
    requires !stream.cursor.failed && Wrote(output, base, at, before)
    requires AllInStream(files, stream.data)
    requires !otherwise.Attach?
    modifies stream, output
    ensures !stream.cursor.failed
    ensures gained == if index in files then files[index].size else 0
    ensures Wrote(output, base, at,
                  before + (if index in files then
                              ChunkBytes(Chunk(chunk.tag, chunk.data + Contents(files[index], stream.data)))
                            else if otherwise.Drop? then [] else ChunkBytes(chunk)))
  {
    hide Wrote, ChunkBytes;
    gained := 0;
    if index in files {
      WriteWithFile(stream, chunk, files[index], output, base, at, before);
      gained := files[index].size;
    } else if otherwise.Keep? {
      WriteAsIs(chunk, output, base, at, before);
    } else {
      assert before + [] == before;
    }
  }

  // The branches of the chunk loop.
  method LinkChunk(stream: InputStream, chunk: Chunk, project: Project, output: OutputStream,
                   ghost base: seq<Byte>, ghost at: nat, ghost before: seq<Byte>)
    returns (gained: nat)
    requires stream as object != output as object
    requires !stream.cursor.failed && Wrote(output, base, at, before)
    requires HasReference(chunk) && ProjectInStream(project, stream.data)
    modifies stream, output
    ensures !stream.cursor.failed
    ensures gained == |Appendix(chunk, project, stream.data)|
    ensures Wrote(output, base, at, before + Written(chunk, project, stream.data))
  {
    hide Wrote, ChunkBytes, FromLittleEndian;
    assert before + [] == before;
    assert chunk.data + [] == chunk.data;
    var n := |chunk.data|;
    if chunk.tag == OBJ_TAG {
      var index := FromLittleEndian(chunk.data[n - 4..n - 2]);
      gained := WriteResolved(stream, chunk, project.wtb, index, Drop, output, base, at, before);
    } else if chunk.tag == ANIM_TAG {
      var index := FromLittleEndian(chunk.data[..2]);
      gained := WriteResolved(stream, chunk, project.tdi, index, Keep, output, base, at, before);
    } else if chunk.tag == VPTF_TAG {
      gained := 0;
    } else if chunk.tag == CPTF_TAG {
      var index := FromLittleEndian(chunk.data[..2]);
      gained := WriteResolved(stream, chunk, project.cpi, index, Keep, output, base, at, before);
    } else if chunk.tag == PITF_TAG {
      var index := FromLittleEndian(chunk.data[..2]);
      gained := WriteResolved(stream, chunk, project.bwd, index, Keep, output, base, at, before);
    } else if chunk.tag == MGDF_TAG {
      gained := 0;
    } else if chunk.tag == ASND_TAG {
      var index := FromLittleEndian(chunk.data[..2]);
      gained := WriteResolved(stream, chunk, project.sfl, index, Keep, output, base, at, before);
    } else {
      WriteAsIs(chunk, output, base, at, before);
      gained := 0;
    }
  }

  // ----- the whole file -----

  // What a root declares: its header and what its body holds.
  function RootSize(chunks: seq<Chunk>, stray: seq<Byte>): nat {
    ROOT_HEADER + TotalSize(chunks) + |stray|
  }

  // A root that can be read: the size fits its field, and behind the last chunk there
  // are too few bytes for the header of another.
  predicate Readable(version: seq<Byte>, chunks: seq<Chunk>, stray: seq<Byte>) {
    && |version| == 4 && |stray| < CHUNK_HEADER
    && AllWellSized(chunks) && RootSize(chunks, stray) < 0x1_0000_0000
  }

  // The input: a root that declares the size of everything, its four version bytes,
  // the chunks, and stray bytes behind the last of them.
  function BwdBytes(version: seq<Byte>, chunks: seq<Chunk>, stray: seq<Byte>): seq<Byte> {
    BWD_TAG + LittleEndian(RootSize(chunks, stray), 4) + version + (ChunkStream(chunks) + stray)
  }

  // The output: the kept chunks, under a root that declares the input's size plus
  // what was gained.
  function LinkedBytes(version: seq<Byte>, chunks: seq<Chunk>, stray: seq<Byte>,
                       project: Project, data: seq<Byte>): seq<Byte>
    requires AllHaveReferences(chunks) && ProjectInStream(project, data)
  {
    BWD_TAG + LittleEndian(RootSize(chunks, stray) + Gained(chunks, project, data), 4) + version
      + ChunkStream(Linked(chunks, project, data))
  }

  lemma LinkedStep(chunks: seq<Chunk>, i: nat, project: Project, data: seq<Byte>, before: seq<Byte>)
    requires AllHaveReferences(chunks) && ProjectInStream(project, data) && i < |chunks|
    ensures before + ChunkStream(Linked(chunks[..i], project, data)) + Written(chunks[i], project, data)
         == before + ChunkStream(Linked(chunks[..i + 1], project, data))
    ensures Gained(chunks[..i + 1], project, data)
         == Gained(chunks[..i], project, data) + |Appendix(chunks[i], project, data)|
  {
    hide Decide, ChunkBytes, Appendix, ProjectInStream;
    assert chunks[..i + 1][..i] == chunks[..i];
    var linked := Linked(chunks[..i], project, data);
    if !Decide(chunks[i], project).Drop? {
      var grown := linked + [Chunk(chunks[i].tag, chunks[i].data + Appendix(chunks[i], project, data))];
      assert grown[..|linked|] == linked;
    }
  }

  lemma NextChunk(chunks: seq<Chunk>, i: nat, stray: seq<Byte>)
    requires AllWellSized(chunks) && i < |chunks|
    ensures var rest := ChunkStream(chunks[i..]) + stray;
            var size := |chunks[i].data| + CHUNK_HEADER;
            && size <= |rest|
            && rest[..4] == chunks[i].tag && FromLittleEndian(rest[4..8]) == size
            && rest[CHUNK_HEADER..size] == chunks[i].data
            && rest[size..] == ChunkStream(chunks[i + 1..]) + stray
  {
    hide LittleEndian, FromLittleEndian, ChunkStream;
    var chunk := chunks[i];
    assert WellSized(chunk);
    ChunkStreamFromFront(chunks[i..]);
    assert chunks[i..][1..] == chunks[i + 1..] && chunks[i..][0] == chunk;
    FieldWidths();
    StoreThenLoad(|chunk.data| + CHUNK_HEADER, 4);
    ChunkPieces(chunk.tag, LittleEndian(|chunk.data| + CHUNK_HEADER, 4), chunk.data,
                ChunkStream(chunks[i + 1..]), stray);
  }

  lemma ChunkPieces(tag: seq<Byte>, size: seq<Byte>, data: seq<Byte>, rest: seq<Byte>, stray: seq<Byte>)
    requires |tag| == |size| == 4
    ensures var whole := tag + size + data + rest + stray;
            && whole[..4] == tag && whole[4..8] == size && whole[8..|data| + 8] == data
            && whole[|data| + 8..] == rest + stray
  {
  }

  lemma NoChunk()
    ensures ChunkStream([]) == []
  {
  }

  // The loop over the chunks of the root's body. It ends when there is no room for
  // another header.
  method LinkChunks(stream: InputStream, body: seq<Byte>, project: Project, output: OutputStream,
                    ghost chunks: seq<Chunk>, ghost stray: seq<Byte>,
                    ghost base: seq<Byte>, ghost at: nat, ghost before: seq<Byte>)
    returns (gained: nat)
    requires stream as object != output as object
    requires !stream.cursor.failed && Wrote(output, base, at, before)
    requires body == ChunkStream(chunks) + stray && AllWellSized(chunks) && |stray| < CHUNK_HEADER
    requires AllHaveReferences(chunks) && ProjectInStream(project, stream.data)
    modifies stream, output
    ensures gained == Gained(chunks, project, stream.data)
    ensures Wrote(output, base, at, before + ChunkStream(Linked(chunks, project, stream.data)))
  {
    hide Wrote, ChunkStream, Linked, Gained, Written, Appendix, FromLittleEndian, AllWellSized;
    gained := 0;
    var bytes := body;
    ghost var i := 0;
    NothingLinked(project, stream.data, before);
    assert chunks[..0] == [] && chunks[0..] == chunks && chunks[|chunks|..] == [];
    NoChunk();
    assert [] + stray == stray;
    while |bytes| >= CHUNK_HEADER
      invariant i <= |chunks| && bytes == ChunkStream(chunks[i..]) + stray
      invariant !stream.cursor.failed
      invariant gained == Gained(chunks[..i], project, stream.data)
      invariant Wrote(output, base, at, before + ChunkStream(Linked(chunks[..i], project, stream.data)))
      decreases |bytes|
    {
      NextChunk(chunks, i, stray);
      LinkedStep(chunks, i, project, stream.data, before);
      var size := FromLittleEndian(bytes[4..8]);
      var chunk := Chunk(bytes[..4], bytes[CHUNK_HEADER..size]);
      assert chunk == chunks[i];
      var more := LinkChunk(stream, chunk, project, output, base, at,
                            before + ChunkStream(Linked(chunks[..i], project, stream.data)));
      gained := gained + more;
      bytes := bytes[size..];
      i := i + 1;
    }
    if i < |chunks| {
      NextChunk(chunks, i, stray);
    }
    assert chunks[..|chunks|] == chunks;
  }

  lemma NothingLinked(project: Project, data: seq<Byte>, before: seq<Byte>)
    requires ProjectInStream(project, data)
    ensures Gained([], project, data) == 0
    ensures before + ChunkStream(Linked([], project, data)) == before
  {
  }

  // The linking branch of `extract_file_contents`, the stream standing at the file:
  // copy the root, link the chunks, then go back and patch the root's size.
  method ExtractLinked(stream: InputStream, offset: nat, project: Project, output: OutputStream,
                       ghost version: seq<Byte>, ghost chunks: seq<Chunk>, ghost stray: seq<Byte>)
    requires stream as object != output as object
    requires stream.cursor == Cursor(offset, false) && output.Valid()
    requires Readable(version, chunks, stray)
    requires offset + |BwdBytes(version, chunks, stray)| <= |stream.data|
    requires stream.data[offset..offset + |BwdBytes(version, chunks, stray)|] == BwdBytes(version, chunks, stray)
    requires AllHaveReferences(chunks) && ProjectInStream(project, stream.data)
    modifies stream, output
    ensures output.data
         == Overwrite(old(output.data), old(output.pos), LinkedBytes(version, chunks, stray, project, stream.data))
    ensures output.pos == old(output.pos) + 8
  {
    hide ChunkStream, Linked, Gained, LittleEndian, FromLittleEndian, ProjectInStream, AllWellSized, Overwrite,
         BwdBytes, LinkedBytes, RootSize;
    ghost var base := output.data;
    var start := output.pos;
    NothingWritten(base, start);
    RootReads(stream.data, offset, version, chunks, stray);
    var header := stream.Read(CHUNK_HEADER);
    var size := FromLittleEndian(header[4..8]);
    Append(output, header, base, start, []);
    var versionBytes := stream.Read(4);
    Append(output, versionBytes, base, start, [] + header);
    ghost var front := [] + header + versionBytes;
    var body := stream.Read(size - ROOT_HEADER);
    var gained := LinkChunks(stream, body, project, output, chunks, stray, base, start, front);

    output.Seek(start + 4);
    var patched := LittleEndian(size + gained, 4);
    ghost var linked := ChunkStream(Linked(chunks, project, stream.data));
    RootPieces(header, version, linked);
    OverwriteInside(base, start, BWD_TAG, header[4..8], version + linked, patched);
    output.Write(patched);
    RootPatched(version, chunks, stray, project, stream.data);
  }

  lemma RootPieces(header: seq<Byte>, version: seq<Byte>, linked: seq<Byte>)
    requires |header| == 8 && header[..4] == BWD_TAG
    ensures [] + header + version + linked == BWD_TAG + header[4..8] + (version + linked)
  {
    assert header == header[..4] + header[4..8];
  }

  lemma RootPatched(version: seq<Byte>, chunks: seq<Chunk>, stray: seq<Byte>, project: Project, data: seq<Byte>)
    requires AllHaveReferences(chunks) && ProjectInStream(project, data)
    ensures BWD_TAG + LittleEndian(RootSize(chunks, stray) + Gained(chunks, project, data), 4)
            + (version + ChunkStream(Linked(chunks, project, data)))
         == LinkedBytes(version, chunks, stray, project, data)
  {
    hide ChunkStream, Linked, Gained, LittleEndian, RootSize, ProjectInStream, AllHaveReferences;
    Tail(BWD_TAG + LittleEndian(RootSize(chunks, stray) + Gained(chunks, project, data), 4), version,
         ChunkStream(Linked(chunks, project, data)));
  }

  lemma RootReads(data: seq<Byte>, offset: nat, version: seq<Byte>, chunks: seq<Chunk>, stray: seq<Byte>)
    requires Readable(version, chunks, stray)
    requires offset + |BwdBytes(version, chunks, stray)| <= |data|
    requires data[offset..offset + |BwdBytes(version, chunks, stray)|] == BwdBytes(version, chunks, stray)
    ensures var size := RootSize(chunks, stray);
            && |BwdBytes(version, chunks, stray)| == size >= ROOT_HEADER && offset + size <= |data|
            && data[offset..offset + 8] == BWD_TAG + LittleEndian(size, 4)
            && FromLittleEndian(data[offset..offset + 8][4..8]) == size
            && data[offset + 8..offset + 12] == version
            && data[offset + 12..offset + size] == ChunkStream(chunks) + stray
  {
    hide ChunkStream, LittleEndian, FromLittleEndian, AllWellSized;
    var size := RootSize(chunks, stray);
    ChunkStreamSize(chunks);
    FieldWidths();
    StoreThenLoad(size, 4);
    var whole := data[offset..offset + size];
    assert whole == BwdBytes(version, chunks, stray);
    assert whole[..8] == BWD_TAG + LittleEndian(size, 4);
    SliceOfSlice(data, offset, offset + size, 0, 8);
    assert whole[0..8] == whole[..8];
    assert (BWD_TAG + LittleEndian(size, 4))[4..8] == LittleEndian(size, 4);
    SliceOfSlice(data, offset, offset + size, 8, 12);
    SliceOfSlice(data, offset, offset + size, 12, size);
    assert whole[8..12] == version && whole[12..size] == ChunkStream(chunks) + stray;
  }

  // ----- what the output is -----

  lemma {:induction false} LinkedWellSized(chunks: seq<Chunk>, project: Project, data: seq<Byte>)
    requires AllHaveReferences(chunks) && ProjectInStream(project, data) && AllWellSized(chunks)
    requires TotalSize(chunks) + Gained(chunks, project, data) < 0x1_0000_0000
    ensures AllWellSized(Linked(chunks, project, data))
  {
    hide Decide, Appendix, ProjectInStream;
    if |chunks| > 0 {
      var last := chunks[|chunks| - 1];
      assert WellSized(last);
      LinkedWellSized(chunks[..|chunks| - 1], project, data);
    }
  }

  // Read again, the linked file's chunks are the kept ones in order, each declaring
  // the size it was written with; and the size patched into the root exceeds the
  // bytes written by exactly the size of what was dropped and of what was stray.
  lemma LinkedFileReadsBack(version: seq<Byte>, chunks: seq<Chunk>, stray: seq<Byte>, project: Project, data: seq<Byte>)
    requires Readable(version, chunks, stray) && AllHaveReferences(chunks) && ProjectInStream(project, data)
    requires RootSize(chunks, stray) + Gained(chunks, project, data) < 0x1_0000_0000
    ensures var output := LinkedBytes(version, chunks, stray, project, data);
            && |output| >= ROOT_HEADER
            && Parse(output[ROOT_HEADER..]) == Some(Linked(chunks, project, data))
            && FromLittleEndian(output[4..8]) == |output| + TotalSize(Dropped(chunks, project)) + |stray|
  {
    hide ChunkStream, Linked, Gained, Dropped, Parse, LittleEndian, FromLittleEndian, ProjectInStream, TotalSize;
    var linked := Linked(chunks, project, data);
    var size := RootSize(chunks, stray) + Gained(chunks, project, data);
    LinkedWellSized(chunks, project, data);
    ChunkStreamParses(linked);
    ChunkStreamSize(linked);
    SizesBalance(chunks, project, data);
    FieldWidths();
    StoreThenLoad(size, 4);
    var output := LinkedBytes(version, chunks, stray, project, data);
    assert output[ROOT_HEADER..] == ChunkStream(linked);
    assert output[4..8] == LittleEndian(size, 4);
  }

  // The root's size is right exactly when no chunk was dropped and no byte was stray.
  lemma RootSizeRightExactlyWhenNothingDropped(version: seq<Byte>, chunks: seq<Chunk>, stray: seq<Byte>,
                                               project: Project, data: seq<Byte>)
    requires Readable(version, chunks, stray) && AllHaveReferences(chunks) && ProjectInStream(project, data)
    requires RootSize(chunks, stray) + Gained(chunks, project, data) < 0x1_0000_0000
    ensures var output := LinkedBytes(version, chunks, stray, project, data);
            && |output| >= ROOT_HEADER
            && (FromLittleEndian(output[4..8]) == |output|
                <==> stray == [] && forall i :: 0 <= i < |chunks| ==> !Decide(chunks[i], project).Drop?)
  {
    hide LinkedBytes, Decide, FromLittleEndian, ProjectInStream, Gained, Dropped;
    LinkedFileReadsBack(version, chunks, stray, project, data);
    DroppedNothing(chunks, project);
  }

  // One VPTF chunk, and the root declares ten bytes that are not there.
  lemma VptfBreaksRootSize(version: seq<Byte>, reference: seq<Byte>, project: Project, data: seq<Byte>)
    requires |version| == 4 && |reference| == 2 && ProjectInStream(project, data)
    ensures var chunks := [Chunk(VPTF_TAG, reference)];
            var output := LinkedBytes(version, chunks, [], project, data);
            |output| == 12 && FromLittleEndian(output[4..8]) == 22
  {
    hide ProjectInStream, LittleEndian, FromLittleEndian;
    var chunk := Chunk(VPTF_TAG, reference);
    assert VPTF_TAG[0] == 0x56 && OBJ_TAG[0] == 0x4F && ANIM_TAG[0] == 0x41;
    assert Decide(chunk, project) == Drop;
    assert [chunk][..0] == [] && [chunk][0] == chunk;
    NoChunk();
    assert TotalSize([]) == 0;
    var declared := LittleEndian(ROOT_HEADER + 10, 4);
    FieldWidths();
    StoreThenLoad(ROOT_HEADER + 10, 4);
    var output := LinkedBytes(version, [chunk], [], project, data);
    assert TotalSize([chunk]) == 10 && Gained([chunk], project, data) == 0;
    assert Linked([chunk], project, data) == [];
    assert output == BWD_TAG + declared + version + [];
    assert output[4..8] == declared;
  }

  lemma {:induction false} DroppedNothing(chunks: seq<Chunk>, project: Project)
    requires AllHaveReferences(chunks)
    ensures TotalSize(Dropped(chunks, project)) == 0
            <==> forall i :: 0 <= i < |chunks| ==> !Decide(chunks[i], project).Drop?
  {
    hide Decide;
    var n := |chunks|;
    if n > 0 {
      var init, last := chunks[..n - 1], chunks[n - 1];
      DroppedNothing(init, project);
      assert forall i :: 0 <= i < n - 1 ==> init[i] == chunks[i];
      if Decide(last, project).Drop? {
        var dropped := Dropped(init, project) + [last];
        assert dropped[..|dropped| - 1] == Dropped(init, project);
      }
    }
  }
}
