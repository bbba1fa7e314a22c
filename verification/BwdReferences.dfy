// Linked chunks byte by byte: where a chunk keeps its reference, which files resolve it,
// and what comes out.
module BwdReferences {
  import opened Bytes
  import opened BwdLinker

  // ----- the bytes of a project -----

  lemma ChunkInBytes(chunk: Chunk)
    requires WellSized(chunk)
    ensures var bytes := ChunkBytes(chunk);
            && |bytes| == 8 + |chunk.data|
            && bytes[..4] == chunk.tag && FromLittleEndian(bytes[4..8]) == 8 + |chunk.data| && bytes[8..] == chunk.data
  {
    hide LittleEndian, FromLittleEndian;
    FieldWidths();
    StoreThenLoad(8 + |chunk.data|, 4);
    assert ChunkBytes(chunk)[4..8] == LittleEndian(8 + |chunk.data|, 4);
  }

  // The root of an input declares all of its bytes.
  lemma RootInBytes(version: seq<Byte>, chunks: seq<Chunk>, stray: seq<Byte>)
    requires Readable(version, chunks, stray)
    ensures var bytes := BwdBytes(version, chunks, stray);
            && |bytes| == 12 + |ChunkStream(chunks)| + |stray|
            && bytes[..4] == [0x42, 0x57, 0x44, 0x00] && FromLittleEndian(bytes[4..8]) == |bytes|
            && bytes[8..12] == version && bytes[12..] == ChunkStream(chunks) + stray
  {
    hide LittleEndian, FromLittleEndian, ChunkStream, AllWellSized;
    ChunkStreamSize(chunks);
    FieldWidths();
    StoreThenLoad(RootSize(chunks, stray), 4);
    RootSlices(LittleEndian(RootSize(chunks, stray), 4), version, ChunkStream(chunks) + stray);
  }

  lemma RootSlices(size: seq<Byte>, version: seq<Byte>, body: seq<Byte>)
    requires |size| == |version| == 4
    ensures var bytes := [0x42, 0x57, 0x44, 0x00] + size + version + body;
            && bytes[..4] == [0x42, 0x57, 0x44, 0x00] && bytes[4..8] == size && bytes[8..12] == version
            && bytes[12..] == body
  {
  }

  // The root of the output keeps tag and version; in front of its chunks it declares the
  // input's bytes and those gained.
  lemma LinkedRootInBytes(version: seq<Byte>, chunks: seq<Chunk>, stray: seq<Byte>, project: Project, data: seq<Byte>)
    requires Readable(version, chunks, stray) && AllHaveReferences(chunks) && ProjectInStream(project, data)
    requires RootSize(chunks, stray) + Gained(chunks, project, data) < 0x1_0000_0000
    ensures var bytes := LinkedBytes(version, chunks, stray, project, data);
            && |bytes| >= 12
            && bytes[..4] == [0x42, 0x57, 0x44, 0x00]
            && FromLittleEndian(bytes[4..8]) == |BwdBytes(version, chunks, stray)| + Gained(chunks, project, data)
            && bytes[8..12] == version && bytes[12..] == ChunkStream(Linked(chunks, project, data))
  {
    hide LittleEndian, FromLittleEndian, ChunkStream, AllWellSized, Linked, Gained, ProjectInStream, AllHaveReferences;
    ChunkStreamSize(chunks);
    var size := RootSize(chunks, stray) + Gained(chunks, project, data);
    FieldWidths();
    StoreThenLoad(size, 4);
    RootSlices(LittleEndian(size, 4), version, ChunkStream(Linked(chunks, project, data)));
  }

  // Chunks are linked one by one, in order.
  lemma {:induction false} LinkedAddsUp(a: seq<Chunk>, b: seq<Chunk>, project: Project, data: seq<Byte>)
    requires AllHaveReferences(a) && AllHaveReferences(b) && ProjectInStream(project, data)
    ensures AllHaveReferences(a + b)
    ensures Linked(a + b, project, data) == Linked(a, project, data) + Linked(b, project, data)
  {
    hide Decide, Appendix, ProjectInStream, HasReference;
    if |b| == 0 {
      assert a + b == a;
    } else {
      LinkedAddsUp(a, b[..|b| - 1], project, data);
      assert (a + b)[..|a + b| - 1] == a + b[..|b| - 1];
    }
  }

  // ----- what becomes of a chunk -----

  lemma TagsDiffer()
    ensures OBJ_TAG == [0x4F, 0x42, 0x4A, 0x00] && ANIM_TAG == [0x41, 0x4E, 0x49, 0x4D]
    ensures VPTF_TAG == [0x56, 0x50, 0x54, 0x46] && PITF_TAG == [0x50, 0x49, 0x54, 0x46]
    ensures CPTF_TAG == [0x43, 0x50, 0x54, 0x46] && MGDF_TAG == [0x4D, 0x47, 0x44, 0x46]
    ensures ASND_TAG == [0x41, 0x53, 0x4E, 0x44]
    ensures OBJ_TAG[0] == 0x4F && ANIM_TAG[0] == 0x41 && ANIM_TAG[1] == 0x4E && VPTF_TAG[0] == 0x56
    ensures PITF_TAG[0] == 0x50 && CPTF_TAG[0] == 0x43 && MGDF_TAG[0] == 0x4D
    ensures ASND_TAG[0] == 0x41 && ASND_TAG[1] == 0x53
  {
  }

  lemma LinkedSingle(chunk: Chunk, project: Project, data: seq<Byte>)
    requires HasReference(chunk) && ProjectInStream(project, data)
    ensures AllHaveReferences([chunk])
    ensures Linked([chunk], project, data)
         == match Decide(chunk, project)
            case Drop => []
            case Keep => [chunk]
            case Attach(file) => [Chunk(chunk.tag, chunk.data + data[file.offset..file.offset + file.size])]
  {
    hide Decide, ProjectInStream;
    assert [chunk][..0] == [];
    assert chunk.data + [] == chunk.data;
    match Decide(chunk, project) {
      case Attach(file) => AttachedIsInStream(chunk, project, data);
      case Keep =>
      case Drop =>
    }
  }

  lemma AttachedIsInStream(chunk: Chunk, project: Project, data: seq<Byte>)
    requires HasReference(chunk) && ProjectInStream(project, data) && Decide(chunk, project).Attach?
    ensures InStream(Decide(chunk, project).file, data)
  {
  }

  lemma StoredReference(index: nat)
    requires index < 0x1_0000
    ensures |LittleEndian(index, 2)| == 2 && FromLittleEndian(LittleEndian(index, 2)) == index
  {
    FieldWidths();
    StoreThenLoad(index, 2);
  }

  // The chunk with a file's bytes behind its data.
  function WithFile(chunk: Chunk, file: FileRef, data: seq<Byte>): Chunk
    requires file.offset + file.size <= |data|
  {
    Chunk(chunk.tag, chunk.data + data[file.offset..file.offset + file.size])
  }

  // What a chunk becomes whose reference is resolved by `files`, and what if it is not.
  predicate Resolves(chunk: Chunk, files: map<nat, FileRef>, index: nat, unresolved: seq<Chunk>, project: Project,
                     data: seq<Byte>)
    requires ProjectInStream(project, data)
  {
    && AllHaveReferences([chunk])
    && if index in files then
         && files[index].offset + files[index].size <= |data|
         && Linked([chunk], project, data) == [WithFile(chunk, files[index], data)]
       else Linked([chunk], project, data) == unresolved
  }

  // The reference of an OBJ chunk stands four bytes before its end, into the table of WTB
  // files; unresolved the chunk is dropped.
  lemma ObjNeedsFile(front: seq<Byte>, index: nat, x: Byte, y: Byte, project: Project, data: seq<Byte>)
    requires index < 0x1_0000 && ProjectInStream(project, data)
    ensures var chunk := Chunk([0x4F, 0x42, 0x4A, 0x00], front + LittleEndian(index, 2) + [x, y]);
            Resolves(chunk, project.wtb, index, [], project, data)
  {
    hide LittleEndian, FromLittleEndian;
    var chunk := Chunk([0x4F, 0x42, 0x4A, 0x00], front + LittleEndian(index, 2) + [x, y]);
    var n := |chunk.data|;
    StoredReference(index);
    TagsDiffer();
    assert chunk.data[n - 4..n - 2] == LittleEndian(index, 2);
    LinkedSingle(chunk, project, data);
  }

  lemma ReferenceInFront(tag: seq<Byte>, index: nat, rest: seq<Byte>)
    requires index < 0x1_0000 && tag != OBJ_TAG
    ensures var chunk := Chunk(tag, LittleEndian(index, 2) + rest);
            HasReference(chunk) && Reference(chunk) == index
  {
    hide LittleEndian, FromLittleEndian;
    StoredReference(index);
    assert (LittleEndian(index, 2) + rest)[..2] == LittleEndian(index, 2);
  }

  // ANIM, CPTF, PITF and ASND chunks have their reference in front, each into its own table
  // of files; unresolved they are kept as they are.
  lemma AnimIsKept(index: nat, rest: seq<Byte>, project: Project, data: seq<Byte>)
    requires index < 0x1_0000 && ProjectInStream(project, data)
    ensures var chunk := Chunk([0x41, 0x4E, 0x49, 0x4D], LittleEndian(index, 2) + rest);
            Resolves(chunk, project.tdi, index, [chunk], project, data)
  {
    hide LittleEndian, Reference;
    TagsDiffer();
    ReferenceInFront([0x41, 0x4E, 0x49, 0x4D], index, rest);
    LinkedSingle(Chunk([0x41, 0x4E, 0x49, 0x4D], LittleEndian(index, 2) + rest), project, data);
  }

  lemma CptfIsKept(index: nat, rest: seq<Byte>, project: Project, data: seq<Byte>)
    requires index < 0x1_0000 && ProjectInStream(project, data)
    ensures var chunk := Chunk([0x43, 0x50, 0x54, 0x46], LittleEndian(index, 2) + rest);
            Resolves(chunk, project.cpi, index, [chunk], project, data)
  {
    hide LittleEndian, Reference;
    TagsDiffer();
    ReferenceInFront([0x43, 0x50, 0x54, 0x46], index, rest);
    LinkedSingle(Chunk([0x43, 0x50, 0x54, 0x46], LittleEndian(index, 2) + rest), project, data);
  }

  lemma PitfIsKept(index: nat, rest: seq<Byte>, project: Project, data: seq<Byte>)
    requires index < 0x1_0000 && ProjectInStream(project, data)
    ensures var chunk := Chunk([0x50, 0x49, 0x54, 0x46], LittleEndian(index, 2) + rest);
            Resolves(chunk, project.bwd, index, [chunk], project, data)
  {
    hide LittleEndian, Reference;
    TagsDiffer();
    ReferenceInFront([0x50, 0x49, 0x54, 0x46], index, rest);
    LinkedSingle(Chunk([0x50, 0x49, 0x54, 0x46], LittleEndian(index, 2) + rest), project, data);
  }

  lemma AsndIsKept(index: nat, rest: seq<Byte>, project: Project, data: seq<Byte>)
    requires index < 0x1_0000 && ProjectInStream(project, data)
    ensures var chunk := Chunk([0x41, 0x53, 0x4E, 0x44], LittleEndian(index, 2) + rest);
            Resolves(chunk, project.sfl, index, [chunk], project, data)
  {
    hide LittleEndian, Reference;
    TagsDiffer();
    ReferenceInFront([0x41, 0x53, 0x4E, 0x44], index, rest);
    LinkedSingle(Chunk([0x41, 0x53, 0x4E, 0x44], LittleEndian(index, 2) + rest), project, data);
  }

  // VPTF and MGDF chunks are dropped; a chunk with any other tag is kept.
  lemma VptfAndMgdfAreDropped(tag: seq<Byte>, bytes: seq<Byte>, project: Project, data: seq<Byte>)
    requires |tag| == 4 && HasReference(Chunk(tag, bytes)) && ProjectInStream(project, data)
    ensures AllHaveReferences([Chunk(tag, bytes)])
    ensures tag == [0x56, 0x50, 0x54, 0x46] || tag == [0x4D, 0x47, 0x44, 0x46] ==>
              Linked([Chunk(tag, bytes)], project, data) == []
    ensures tag !in {[0x4F, 0x42, 0x4A, 0x00], [0x41, 0x4E, 0x49, 0x4D], [0x56, 0x50, 0x54, 0x46],
                     [0x50, 0x49, 0x54, 0x46], [0x43, 0x50, 0x54, 0x46], [0x4D, 0x47, 0x44, 0x46],
                     [0x41, 0x53, 0x4E, 0x44]} ==>
              Linked([Chunk(tag, bytes)], project, data) == [Chunk(tag, bytes)]
  {
    hide Reference;
    TagsDiffer();
    LinkedSingle(Chunk(tag, bytes), project, data);
  }
}
