// Packing files into a VOL archive and taking them out again, with the writer and
// the reader themselves.
module VolArchive {
  import opened Bytes
  import opened Streams
  import opened VolFormat
  import VolWriter
  import VolReader
  import opened VolRoundTrip

  // What the round trip asks of the files.
  predicate Packable(files: seq<VolumeFile>) {
    && AllWritable(files) && AllPlain(files) && NamesDistinct(files)
    && |Image(files, 0)| < 0x1_0000_0000
    && forall i :: 0 <= i < |files| ==> Uncompressed(files[i]) && files[i].size < 0x100_0000
  }

  predicate Lists(listing: seq<FileInfo>, files: seq<VolumeFile>) {
    && |listing| == |files|
    && forall i :: 0 <= i < |files| ==>
         && listing[i].filename == files[i].filename
         && listing[i].size == files[i].size
         && listing[i].compressionType == files[i].compressionType
  }

  // A fresh archive, listed, and every listed file extracted in order from one
  // stream, wherever the one before left it.
  method PackAndUnpack(files: seq<VolumeFile>) returns (listing: Result<seq<FileInfo>>, contents: seq<seq<Byte>>)
    requires Packable(files)
    ensures listing.Ok? && Lists(listing.value, files)
    ensures |contents| == |files| && forall i :: 0 <= i < |files| ==> contents[i] == files[i].content
  {
    hide Image, FileMetadata, AllWritable, AllPlain, NamesDistinct;
    var output := new OutputStream([]);
    Packed(files);
    VolWriter.CreateVolFile(output, files);

    var header := new InputStream(output.data);
    listing := VolReader.GetFileMetadata(header);

    var stream := new InputStream(output.data);
    contents := [];
    for i := 0 to |files|
      invariant stream.data == Image(files, 0) && !stream.cursor.failed
      invariant |contents| == i
      invariant forall k :: 0 <= k < i ==> contents[k] == files[k].content
    {
      var content := VolReader.ExtractFileContents(stream, listing.value[i]);
      contents := contents + [content];
    }
  }

  lemma Packed(files: seq<VolumeFile>)
    requires Packable(files)
    ensures Overwrite([], 0, Image(files, 0)) == Image(files, 0)
    ensures var listing := FileMetadata(Image(files, 0), Cursor(0, false)).0;
            && listing.Ok? && Lists(listing.value, files)
            && forall i :: 0 <= i < |files| ==> HoldsFile(Image(files, 0), listing.value[i], files[i])
  {
    hide Image, FileMetadata;
    ArchiveRoundTrip(files);
  }
}
