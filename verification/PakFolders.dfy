// The folder index of a PAK archive and what the recursive walk finds in it.
module PakFolders {
  import opened Selections
  import opened Wrappers
  import opened Listing
  import opened ListingCount

  // A directory entry of the archive: the names of its folder, and the file. Quake and
  // SiN archives know no compression.
  datatype PakEntry =
    | PlainEntry(folder: seq<string>, filename: string, offset: nat, size: nat)
    | DaikatanaEntry(folder: seq<string>, filename: string, offset: nat, size: nat, compressedSize: nat)
    | DatEntry(folder: seq<string>, filename: string, offset: nat, size: nat, compressedSize: nat)

  type FolderIndex = map<Path, seq<PakEntry>>

  function EntriesIn(entries: seq<PakEntry>, archive: Path, folder: Path): seq<PakEntry> {
    if |entries| == 0 then []
    else
      var init := EntriesIn(entries[..|entries| - 1], archive, folder);
      if archive + entries[|entries| - 1].folder == folder then init + [entries[|entries| - 1]] else init
  }

  // A folder is a key of the index if it holds a file, or if a folder in it does.
  predicate Indexed(entries: seq<PakEntry>, archive: Path, folder: Path) {
    exists i :: 0 <= i < |entries| &&
      (archive + entries[i].folder == folder
       || (Parent(archive + entries[i].folder) == folder && folder != archive))
  }

  ghost predicate IndexOf(folders: FolderIndex, entries: seq<PakEntry>, archive: Path) {
    && (forall p :: p in folders <==> Indexed(entries, archive, p))
    && (forall p :: p in folders ==> folders[p] == EntriesIn(entries, archive, p))
  }

  lemma IndexedGrows(entries: seq<PakEntry>, k: nat, archive: Path)
    requires k < |entries|
    ensures forall p :: Indexed(entries[..k + 1], archive, p)
                   <==> Indexed(entries[..k], archive, p) || archive + entries[k].folder == p
                        || (Parent(archive + entries[k].folder) == p && p != archive)
  {
    forall p
      ensures Indexed(entries[..k + 1], archive, p)
         <==> Indexed(entries[..k], archive, p) || archive + entries[k].folder == p
              || (Parent(archive + entries[k].folder) == p && p != archive)
    {
      if Indexed(entries[..k], archive, p) {
        var i :| 0 <= i < k &&
          (archive + entries[..k][i].folder == p || (Parent(archive + entries[..k][i].folder) == p && p != archive));
        assert entries[..k + 1][i] == entries[..k][i];
      }
      if Indexed(entries[..k + 1], archive, p) {
        var i :| 0 <= i < k + 1 &&
          (archive + entries[..k + 1][i].folder == p
           || (Parent(archive + entries[..k + 1][i].folder) == p && p != archive));
        if i < k {
          assert entries[..k + 1][i] == entries[..k][i];
        }
      }
      assert entries[..k + 1][k] == entries[k];
    }
  }

  lemma {:induction false} NothingIndexed(entries: seq<PakEntry>, archive: Path, folder: Path)
    requires !Indexed(entries, archive, folder)
    ensures EntriesIn(entries, archive, folder) == []
  {
    if |entries| > 0 {
      IndexedGrows(entries, |entries| - 1, archive);
      assert entries[..|entries|] == entries;
      NothingIndexed(entries[..|entries| - 1], archive, folder);
    }
  }

  lemma EntriesInGrows(entries: seq<PakEntry>, k: nat, archive: Path)
    requires k < |entries|
    ensures forall p :: EntriesIn(entries[..k + 1], archive, p)
                     == if archive + entries[k].folder == p then EntriesIn(entries[..k], archive, p) + [entries[k]]
                        else EntriesIn(entries[..k], archive, p)
  {
    assert entries[..k + 1][..k] == entries[..k];
  }

  // The loop that files every entry under its folder, and makes sure that folder's
  // parent has a place, too.
  method IndexFolders(entries: seq<PakEntry>, archive: Path) returns (folders: FolderIndex)
    ensures IndexOf(folders, entries, archive)
  {
    hide IndexOf, Parent;
    folders := map[];
    EmptyIndex(archive);
    assert entries[..0] == [];
    for k := 0 to |entries|
      invariant IndexOf(folders, entries[..k], archive)
    {
      ghost var before := folders;
      var entry := entries[k];
      var parent := archive + entry.folder;
      if parent !in folders {
        folders := folders[parent := []];
      }
      folders := folders[parent := folders[parent] + [entry]];
      if Parent(parent) != archive && Parent(parent) !in folders {
        folders := folders[Parent(parent) := []];
      }
      FiledTwice(before, parent, entry);
      EntryFiled(before, folders, entries, k, archive);
    }
    assert entries[..|entries|] == entries;
  }

  lemma EmptyIndex(archive: Path)
    ensures IndexOf(map[], [], archive)
  {
  }

  // Making a place first and then filing is filing.
  lemma FiledTwice(before: FolderIndex, parent: Path, entry: PakEntry)
    ensures parent !in before ==> before[parent := []][parent := [] + [entry]] == before[parent := [] + [entry]]
  {
  }

  lemma EntryFiled(before: FolderIndex, after: FolderIndex, entries: seq<PakEntry>, k: nat, archive: Path)
    requires k < |entries| && IndexOf(before, entries[..k], archive)
    requires var parent := archive + entries[k].folder;
             var filed := before[parent := (if parent in before then before[parent] else []) + [entries[k]]];
             after == if Parent(parent) != archive && Parent(parent) !in filed
                      then filed[Parent(parent) := []] else filed
    ensures IndexOf(after, entries[..k + 1], archive)
  {
    hide Indexed, EntriesIn;
    IndexedGrows(entries, k, archive);
    EntriesInGrows(entries, k, archive);
    forall p | p in after ensures after[p] == EntriesIn(entries[..k + 1], archive, p) {
      if p !in before {
        NothingIndexed(entries[..k], archive, p);
      }
    }
  }

  // ----- the listing -----

  function NameOf(path: Path): string {
    if path == [] then "" else path[|path| - 1]
  }

  function FileOf(entry: PakEntry, folder: Path, archive: Path): ContentInfo {
    match entry
    case PlainEntry(_, filename, offset, size) => FileInfo(filename, offset, size, None, Uncompressed, folder, archive)
    case DaikatanaEntry(_, filename, offset, size, compressed) =>
      FileInfo(filename, offset, size, Some(compressed),
               if size == compressed then Uncompressed else CodeRle, folder, archive)
    case DatEntry(_, filename, offset, size, compressed) =>
      FileInfo(filename, offset, size, Some(compressed), Lz77Huffman, folder, archive)
  }

  function FolderOf(folders: FolderIndex, p: Path, archive: Path): ContentInfo
    requires p in folders
  {
    FolderInfo(NameOf(p), Some(|folders[p]|), p, archive)
  }

  function FilesOf(entries: seq<PakEntry>, folder: Path, archive: Path): (r: seq<ContentInfo>)
    ensures |r| == |entries|
    ensures forall i :: 0 <= i < |r| ==> r[i] == FileOf(entries[i], folder, archive)
  {
    seq(|entries|, i requires 0 <= i < |entries| => FileOf(entries[i], folder, archive))
  }

  // All folders with their files, in the order the index is iterated in.
  function Flat(folders: FolderIndex, order: seq<Path>, archive: Path): seq<ContentInfo>
    requires forall i :: 0 <= i < |order| ==> order[i] in folders
  {
    if |order| == 0 then []
    else
      var p := order[|order| - 1];
      Flat(folders, order[..|order| - 1], archive) + [FolderOf(folders, p, archive)] + FilesOf(folders[p], p, archive)
  }

  // An iteration order visits every key once.
  ghost predicate IterationOrder(folders: FolderIndex, order: seq<Path>) {
    && (forall i :: 0 <= i < |order| ==> order[i] in folders)
    && (forall p :: p in folders ==> p in order)
    && (forall i, j :: 0 <= i < j < |order| ==> order[i] != order[j])
  }

  lemma {:induction false} FilteredAddsUp(a: seq<ContentInfo>, b: seq<ContentInfo>, folder: Path)
    ensures Filtered(a + b, folder) == Filtered(a, folder) + Filtered(b, folder)
  {
    if |b| == 0 {
      assert a + b == a;
    } else {
      FilteredAddsUp(a, b[..|b| - 1], folder);
      assert (a + b)[..|a + b| - 1] == a + b[..|b| - 1];
    }
  }

  lemma FilesOfStep(entries: seq<PakEntry>, p: Path, archive: Path)
    ensures FilesOf([], p, archive) == []
    ensures |entries| > 0 ==>
              var last := entries[|entries| - 1];
              FilesOf(entries, p, archive) == FilesOf(entries[..|entries| - 1], p, archive) + [FileOf(last, p, archive)]
  {
  }

  lemma FilteredSnoc(listing: seq<ContentInfo>, last: ContentInfo, folder: Path)
    ensures Filtered([], folder) == []
    ensures Filtered(listing + [last], folder)
         == Filtered(listing, folder) + (if IsShownIn(last, folder) then [last] else [])
  {
    assert (listing + [last])[..|listing|] == listing;
  }

  lemma FileShownInOwnFolder(entry: PakEntry, p: Path, archive: Path, folder: Path)
    ensures IsShownIn(FileOf(entry, p, archive), folder) <==> p == folder
  {
  }

  lemma {:induction false} FilesShownInOwnFolder(entries: seq<PakEntry>, p: Path, archive: Path, folder: Path)
    ensures Filtered(FilesOf(entries, p, archive), folder) == if p == folder then FilesOf(entries, p, archive) else []
  {
    hide Filtered, FilesOf, FileOf, IsShownIn;
    FilesOfStep(entries, p, archive);
    if |entries| == 0 {
      assert entries == [];
      FilteredSnoc([], FolderInfo("", None, p, archive), folder);
    } else {
      var init, last := entries[..|entries| - 1], entries[|entries| - 1];
      FilesShownInOwnFolder(init, p, archive, folder);
      FilteredSnoc(FilesOf(init, p, archive), FileOf(last, p, archive), folder);
      FileShownInOwnFolder(last, p, archive, folder);
    }
  }

  // The listing half of `get_content_listing`: what one folder shows, out of the
  // whole index. The code sizes its result by dividing by the number of folders.
  method ListFolder(folders: FolderIndex, order: seq<Path>, archive: Path, folder: Path)
    returns (results: seq<ContentInfo>)
    requires order != []
    requires forall i :: 0 <= i < |order| ==> order[i] in folders
    requires folder != []
    ensures results == Filtered(Flat(folders, order, archive), folder)
  {
    hide Flat, Filtered, FilesOf;
    NothingShown(folders, archive, folder);
    assert order[..0] == [];
    results := [];
    for i := 0 to |order|
      invariant results == Filtered(Flat(folders, order[..i], archive), folder)
    {
      var p := order[i];
      OneFolderShown(folders, order, i, archive, folder);
      if Parent(p) == folder && p != folder {
        results := results + [FolderOf(folders, p, archive)];
      }
      if p == folder {
        var files := ListFiles(folders[p], folder, archive);
        results := results + files;
      }
    }
    assert order[..|order|] == order;
  }

  lemma NothingShown(folders: FolderIndex, archive: Path, folder: Path)
    ensures Filtered(Flat(folders, [], archive), folder) == []
  {
  }

  // The loop over the files of the folder that is asked for.
  method ListFiles(entries: seq<PakEntry>, folder: Path, archive: Path) returns (files: seq<ContentInfo>)
    ensures files == FilesOf(entries, folder, archive)
  {
    files := [];
    for j := 0 to |entries|
      invariant files == FilesOf(entries, folder, archive)[..j]
    {
      files := files + [FileOf(entries[j], folder, archive)];
    }
  }

  lemma OneFolderShown(folders: FolderIndex, order: seq<Path>, i: nat, archive: Path, folder: Path)
    requires i < |order| && folder != []
    requires forall i :: 0 <= i < |order| ==> order[i] in folders
    ensures var p := order[i];
            Filtered(Flat(folders, order[..i + 1], archive), folder)
            == Filtered(Flat(folders, order[..i], archive), folder)
               + (if Parent(p) == folder then [FolderOf(folders, p, archive)]
                  else if p == folder then FilesOf(folders[p], p, archive) else [])
  {
    var p := order[i];
    var init := Flat(folders, order[..i], archive);
    var head := [FolderOf(folders, p, archive)];
    var files := FilesOf(folders[p], p, archive);
    assert order[..i + 1][..i] == order[..i];
    FilteredAddsUp(init + head, files, folder);
    FilteredAddsUp(init, head, folder);
    FilesShownInOwnFolder(folders[p], p, archive, folder);
    assert Filtered(head, folder) == if Parent(p) == folder then head else [] by {
      assert head[..0] == [];
    }
  }

  // ----- what the walk finds -----

  lemma {:induction false} FolderCopiesAddUp(a: seq<ContentInfo>, b: seq<ContentInfo>, p: Path)
    ensures FolderCopies(a + b, p) == FolderCopies(a, p) + FolderCopies(b, p)
  {
    if |b| == 0 {
      assert a + b == a;
    } else {
      FolderCopiesAddUp(a, b[..|b| - 1], p);
      assert (a + b)[..|a + b| - 1] == a + b[..|b| - 1];
    }
  }

  lemma {:induction false} FilesAreNoFolders(files: seq<ContentInfo>, p: Path)
    requires forall i :: 0 <= i < |files| ==> files[i].FileInfo?
    ensures FolderCopies(files, p) == 0
  {
    if |files| > 0 {
      FilesAreNoFolders(files[..|files| - 1], p);
    }
  }

  lemma FlatStep(folders: FolderIndex, order: seq<Path>, archive: Path)
    requires |order| > 0 && forall i :: 0 <= i < |order| ==> order[i] in folders
    ensures var p := order[|order| - 1];
            Flat(folders, order, archive)
            == Flat(folders, order[..|order| - 1], archive)
               + ([FolderOf(folders, p, archive)] + FilesOf(folders[p], p, archive))
  {
  }

  lemma FoldersOfFlatStep(folders: FolderIndex, order: seq<Path>, archive: Path, p: Path)
    requires |order| > 0 && forall i :: 0 <= i < |order| ==> order[i] in folders
    ensures var n := |order|;
            FolderCopies(Flat(folders, order, archive), p)
            == FolderCopies(Flat(folders, order[..n - 1], archive), p) + (if order[n - 1] == p then 1 else 0)
  {
    hide FilesOf, Flat, FolderCopies;
    var last := order[|order| - 1];
    var head := [FolderOf(folders, last, archive)];
    var files := FilesOf(folders[last], last, archive);
    FlatStep(folders, order, archive);
    FolderCopiesAddUp(Flat(folders, order[..|order| - 1], archive), head + files, p);
    FolderCopiesAddUp(head, files, p);
    FilesAreNoFolders(files, p);
    OneFolderCopy(head[0], p);
  }

  lemma OneFolderCopy(item: ContentInfo, p: Path)
    requires item.FolderInfo?
    ensures FolderCopies([item], p) == if item.fullPath == p then 1 else 0
  {
    assert [item][..0] == [];
  }

  lemma NoFoldersFlat(folders: FolderIndex, archive: Path, p: Path)
    ensures FolderCopies(Flat(folders, [], archive), p) == 0
  {
  }

  lemma {:induction false} FoldersOfFlat(folders: FolderIndex, order: seq<Path>, archive: Path, p: Path)
    requires forall i :: 0 <= i < |order| ==> order[i] in folders
    requires forall i, j :: 0 <= i < j < |order| ==> order[i] != order[j]
    ensures FolderCopies(Flat(folders, order, archive), p) == if p in order then 1 else 0
  {
    hide Flat, FolderCopies;
    if |order| == 0 {
      assert order == [];
      NoFoldersFlat(folders, archive, p);
    } else {
      FoldersOfFlat(folders, order[..|order| - 1], archive, p);
      FoldersOfFlatStep(folders, order, archive, p);
      LastOfOrder(order, p);
    }
  }

  // What one more folder of the index adds to the copies of a file.
  lemma FilesOfFlatStep(folders: FolderIndex, order: seq<Path>, archive: Path, file: ContentInfo)
    requires |order| > 0 && forall i :: 0 <= i < |order| ==> order[i] in folders
    requires file.FileInfo?
    ensures var n := |order|;
            var last := order[n - 1];
            Copies(Flat(folders, order, archive), file)
            == Copies(Flat(folders, order[..n - 1], archive), file)
               + (if file.folderPath == last then Copies(FilesOf(folders[last], last, archive), file) else 0)
  {
    hide FilesOf, Flat, Copies;
    var last := order[|order| - 1];
    var head := [FolderOf(folders, last, archive)];
    var files := FilesOf(folders[last], last, archive);
    FlatStep(folders, order, archive);
    CopiesAddUp(Flat(folders, order[..|order| - 1], archive), head + files, file);
    CopiesAddUp(head, files, file);
    OneCopy(head[0], file);
    if file.folderPath != last {
      ForeignFile(folders[last], last, archive, file);
    }
  }

  lemma NothingFlat(folders: FolderIndex, archive: Path, file: ContentInfo)
    ensures Copies(Flat(folders, [], archive), file) == 0
  {
  }

  lemma LastOfOrder(order: seq<Path>, p: Path)
    requires |order| > 0 && forall i, j :: 0 <= i < j < |order| ==> order[i] != order[j]
    ensures p in order <==> p == order[|order| - 1] || p in order[..|order| - 1]
    ensures order[|order| - 1] !in order[..|order| - 1]
  {
    assert order == order[..|order| - 1] + [order[|order| - 1]];
  }

  lemma {:induction false} FilesOfFlat(folders: FolderIndex, order: seq<Path>, archive: Path, file: ContentInfo)
    requires forall i :: 0 <= i < |order| ==> order[i] in folders
    requires forall i, j :: 0 <= i < j < |order| ==> order[i] != order[j]
    requires file.FileInfo?
    ensures Copies(Flat(folders, order, archive), file)
         == if file.folderPath in order
            then Copies(FilesOf(folders[file.folderPath], file.folderPath, archive), file) else 0
  {
    hide FilesOf, Flat, Copies;
    if |order| == 0 {
      assert order == [];
      NothingFlat(folders, archive, file);
    } else {
      FilesOfFlat(folders, order[..|order| - 1], archive, file);
      FilesOfFlatStep(folders, order, archive, file);
      LastOfOrder(order, file.folderPath);
    }
  }

  lemma ForeignFile(entries: seq<PakEntry>, folder: Path, archive: Path, file: ContentInfo)
    requires file.FileInfo? && file.folderPath != folder
    ensures Copies(FilesOf(entries, folder, archive), file) == 0
  {
    assert file !in FilesOf(entries, folder, archive);
  }

  // Every folder strictly between the archive and `folder` holds a file directly or
  // has a child folder that does.
  ghost predicate Reachable(entries: seq<PakEntry>, archive: Path, folder: Path) {
    forall p :: archive < p && p < folder ==> Indexed(entries, archive, p)
  }

  ghost predicate OneEntryEach(listing: seq<ContentInfo>, from: Path, to: Path) {
    forall p :: from < p && p <= to ==> FolderCopies(listing, p) == 1
  }

  lemma BetweenPaths(from: Path, to: Path, p: Path)
    requires from < to && from < p && p <= to
    ensures p == to[..|from| + 1] || to[..|from| + 1] < p
  {
    assert to[..|p|] == p;
    assert p[..|from| + 1] == to[..|from| + 1];
  }

  lemma {:induction false} WaysThroughIndex(listing: seq<ContentInfo>, from: Path, to: Path)
    requires from <= to
    requires forall p :: FolderCopies(listing, p) <= 1
    ensures Ways(listing, from, to) == if OneEntryEach(listing, from, to) then 1 else 0
    decreases |to| - |from|
  {
    hide FolderCopies;
    if from != to {
      var next := to[..|from| + 1];
      assert from < next && next <= to;
      WaysThroughIndex(listing, next, to);
      assert OneEntryEach(listing, from, to)
         <==> FolderCopies(listing, next) == 1 && OneEntryEach(listing, next, to) by {
        if FolderCopies(listing, next) == 1 && OneEntryEach(listing, next, to) {
          forall p | from < p && p <= to ensures FolderCopies(listing, p) == 1 {
            BetweenPaths(from, to, p);
          }
        }
        if OneEntryEach(listing, from, to) {
          forall p | next < p && p <= to ensures FolderCopies(listing, p) == 1 {
            assert from < p;
          }
        }
      }
    }
  }

  // The walk over the index returns the files of an entry's folder, each as often
  // as the archive lists it, exactly when the folder is reachable; otherwise it
  // returns none of them.
  lemma PakWalkFinds(entries: seq<PakEntry>, folders: FolderIndex, order: seq<Path>, archive: Path, e: PakEntry)
    requires archive != [] && e in entries
    requires IndexOf(folders, entries, archive) && IterationOrder(folders, order)
    ensures var folder := archive + e.folder;
            var file := FileOf(e, folder, archive);
            Copies(AllFiles(Flat(folders, order, archive), archive), file)
            == if Reachable(entries, archive, folder)
               then Copies(FilesOf(EntriesIn(entries, archive, folder), folder, archive), file) else 0
  {
    hide AllFiles, Flat, FolderCopies, FilesOf, EntriesIn, Ways;
    var folder := archive + e.folder;
    var file := FileOf(e, folder, archive);
    var listing := Flat(folders, order, archive);
    var i :| 0 <= i < |entries| && entries[i] == e;
    assert Indexed(entries, archive, folder);
    FilesUnder(listing, archive, file);
    FilesOfFlat(folders, order, archive, file);
    forall p ensures FolderCopies(listing, p) == if Indexed(entries, archive, p) then 1 else 0 {
      FoldersOfFlat(folders, order, archive, p);
    }
    WaysThroughIndex(listing, archive, folder);
    ReachableByEntries(listing, entries, archive, folder);
  }

  lemma ReachableByEntries(listing: seq<ContentInfo>, entries: seq<PakEntry>, archive: Path, folder: Path)
    requires Indexed(entries, archive, folder)
    requires forall p :: FolderCopies(listing, p) == if Indexed(entries, archive, p) then 1 else 0
    ensures OneEntryEach(listing, archive, folder) <==> Reachable(entries, archive, folder)
  {
    hide FolderCopies, Indexed;
    if OneEntryEach(listing, archive, folder) {
      forall p | archive < p && p < folder ensures Indexed(entries, archive, p) {
        assert FolderCopies(listing, p) == 1;
      }
    }
    if Reachable(entries, archive, folder) {
      forall p | archive < p && p <= folder ensures FolderCopies(listing, p) == 1 {
        assert p == folder || p < folder;
      }
    }
  }

  // Every entry is found as often as it is listed exactly when every folder is reachable.
  lemma PakWalkCompleteExactlyWhenReachable(entries: seq<PakEntry>, folders: FolderIndex, order: seq<Path>,
                                            archive: Path)
    requires archive != []
    requires IndexOf(folders, entries, archive) && IterationOrder(folders, order)
    ensures (forall e :: e in entries ==> FoundAsListed(entries, folders, order, archive, e))
            <==> forall e :: e in entries ==> Reachable(entries, archive, archive + e.folder)
  {
    hide Flat, FilesOf, EntriesIn, Reachable, IndexOf, IterationOrder, AllFiles, Copies;
    forall e | e in entries
      ensures FoundAsListed(entries, folders, order, archive, e) <==> Reachable(entries, archive, archive + e.folder)
    {
      PakWalkFinds(entries, folders, order, archive, e);
      EntryIsListed(entries, archive, e);
    }
  }

  ghost predicate FoundAsListed(entries: seq<PakEntry>, folders: FolderIndex, order: seq<Path>,
                                archive: Path, e: PakEntry)
    requires archive != [] && IndexOf(folders, entries, archive) && IterationOrder(folders, order)
  {
    var folder := archive + e.folder;
    var file := FileOf(e, folder, archive);
    Copies(AllFiles(Flat(folders, order, archive), archive), file)
    == Copies(FilesOf(EntriesIn(entries, archive, folder), folder, archive), file)
  }

  lemma {:induction false} EntryIsListed(entries: seq<PakEntry>, archive: Path, e: PakEntry)
    requires e in entries
    ensures e in EntriesIn(entries, archive, archive + e.folder)
    ensures var folder := archive + e.folder;
            Copies(FilesOf(EntriesIn(entries, archive, folder), folder, archive), FileOf(e, folder, archive)) > 0
  {
    var folder := archive + e.folder;
    var init, last := entries[..|entries| - 1], entries[|entries| - 1];
    assert entries == init + [last];
    var listed := EntriesIn(entries, archive, folder);
    if last != e {
      EntryIsListed(init, archive, e);
      assert e in EntriesIn(init, archive, folder);
    } else {
      assert listed == EntriesIn(init, archive, folder) + [e];
    }
    assert e in listed;
    var i :| 0 <= i < |listed| && listed[i] == e;
    assert FilesOf(listed, folder, archive)[i] == FileOf(e, folder, archive);
  }

  // An entry at most two folders deep is always found.
  lemma TwoFoldersDeepIsReachable(entries: seq<PakEntry>, archive: Path, e: PakEntry)
    requires archive != [] && e in entries && |e.folder| <= 2
    ensures Reachable(entries, archive, archive + e.folder)
  {
    var folder := archive + e.folder;
    var i :| 0 <= i < |entries| && entries[i] == e;
    forall p | archive < p && p < folder ensures Indexed(entries, archive, p) {
      assert p == Parent(folder);
    }
  }

  // A lone entry three folders deep is not, in whatever order the index is iterated.
  lemma ThreeFoldersDeepIsLost(archive: Path, e: PakEntry, folders: FolderIndex, order: seq<Path>)
    requires archive != [] && |e.folder| == 3
    requires IndexOf(folders, [e], archive) && IterationOrder(folders, order)
    ensures !Reachable([e], archive, archive + e.folder)
    ensures Copies(AllFiles(Flat(folders, order, archive), archive), FileOf(e, archive + e.folder, archive)) == 0
  {
    hide IndexOf, IterationOrder, AllFiles, Flat, Copies, FileOf, FilesOf, EntriesIn;
    var folder := archive + e.folder;
    var p := folder[..|archive| + 1];
    assert archive < p && p < folder;
    assert |Parent(folder)| == |archive| + 2;
    assert !Indexed([e], archive, p);
    assert e in [e];
    PakWalkFinds([e], folders, order, archive, e);
  }

  // ----- the index and the listing in detail -----

  // The folders of the index are those of the entries and their parents, except that the
  // archive counts only if an entry lies directly in it.
  lemma IndexKeys(folders: FolderIndex, entries: seq<PakEntry>, archive: Path, p: Path)
    requires archive != [] && IndexOf(folders, entries, archive)
    ensures p in folders <==> exists i :: 0 <= i < |entries| && IsOwnOrParent(p, archive + entries[i].folder, archive)
  {
    hide EntriesIn;
    if Indexed(entries, archive, p) {
      var i :| 0 <= i < |entries| &&
        (archive + entries[i].folder == p || (Parent(archive + entries[i].folder) == p && p != archive));
      assert IsOwnOrParent(p, archive + entries[i].folder, archive);
    }
  }

  predicate IsOwnOrParent(p: Path, folder: Path, archive: Path)
    requires folder != []
  {
    p == folder || (p != archive && p == folder[..|folder| - 1])
  }

  function LiesIn(entries: seq<PakEntry>, folder: Path, archive: Path): (r: seq<bool>)
    ensures |r| == |entries| && forall i :: 0 <= i < |r| ==> r[i] == (archive + entries[i].folder == folder)
  {
    seq(|entries|, i requires 0 <= i < |entries| => archive + entries[i].folder == folder)
  }

  lemma LastEntryIn(entries: seq<PakEntry>, archive: Path, folder: Path)
    requires |entries| > 0
    ensures var init, last := entries[..|entries| - 1], entries[|entries| - 1];
            && entries == init + [last]
            && EntriesIn(entries, archive, folder)
               == EntriesIn(init, archive, folder) + (if archive + last.folder == folder then [last] else [])
            && LiesIn(entries, folder, archive) == LiesIn(init, folder, archive) + [archive + last.folder == folder]
  {
  }

  // A folder's entries are the archive's entries in that folder, all of them, in their
  // order.
  lemma {:induction false} EntriesInAreExact(entries: seq<PakEntry>, archive: Path, folder: Path) returns (at: seq<nat>)
    ensures PlacesOf(at, LiesIn(entries, folder, archive)) && StandsAt(EntriesIn(entries, archive, folder), entries, at)
  {
    hide PlacesOf, StandsAt;
    var n := |entries|;
    if n == 0 {
      at := [];
      NoPlaces<PakEntry>();
      assert LiesIn(entries, folder, archive) == [] && entries == [];
    } else {
      hide EntriesIn, LiesIn;
      var init, last := entries[..n - 1], entries[n - 1];
      var before := EntriesInAreExact(init, archive, folder);
      LastEntryIn(entries, archive, folder);
      PlacesSnoc(before, LiesIn(init, folder, archive), archive + last.folder == folder);
      StandsSnoc(EntriesIn(init, archive, folder), init, before, last);
      at := if archive + last.folder == folder then before + [n - 1] else before;
      assert EntriesIn(init, archive, folder) + [] == EntriesIn(init, archive, folder);
    }
  }

  // A folder is listed under its own name with the number of the archive's entries in it.
  lemma FolderIsCounted(entries: seq<PakEntry>, folders: FolderIndex, archive: Path, p: Path) returns (at: seq<nat>)
    requires IndexOf(folders, entries, archive) && p in folders && p != []
    ensures PlacesOf(at, LiesIn(entries, p, archive))
    ensures FolderOf(folders, p, archive) == FolderInfo(p[|p| - 1], Some(|at|), p, archive)
  {
    hide EntriesIn, PlacesOf, LiesIn;
    at := EntriesInAreExact(entries, archive, p);
  }

  // How a file is listed: Quake and SiN files without a compressed size; Daikatana files as
  // compressed exactly when the sizes differ; Anachronox files always.
  lemma FilesAreListed(folder: seq<string>, name: string, offset: nat, size: nat, compressed: nat,
                       p: Path, archive: Path)
    ensures FileOf(PlainEntry(folder, name, offset, size), p, archive)
         == FileInfo(name, offset, size, None, Uncompressed, p, archive)
    ensures FileOf(DaikatanaEntry(folder, name, offset, size, compressed), p, archive)
         == FileInfo(name, offset, size, Some(compressed), if compressed != size then CodeRle else Uncompressed,
                     p, archive)
    ensures FileOf(DatEntry(folder, name, offset, size, compressed), p, archive)
         == FileInfo(name, offset, size, Some(compressed), Lz77Huffman, p, archive)
  {
  }
}
