// Building a listing from rows of files: the folders on the way to each file are
// made up the first time they are met.
module ListingFolders {
  import opened Wrappers
  import opened Listing
  import opened ListingCount

  function FilesIn(listing: seq<ContentInfo>): seq<ContentInfo> {
    if |listing| == 0 then []
    else
      var init := FilesIn(listing[..|listing| - 1]);
      if listing[|listing| - 1].FileInfo? then init + [listing[|listing| - 1]] else init
  }

  // The folders below `archive` on the way to `folder`, itself included, down to
  // `depth` names.
  predicate OnTheWay(path: Path, folder: Path, archive: Path, depth: nat) {
    archive < path && path <= folder && |path| <= depth
  }

  // Every seen folder lies under the archive, with its ancestors down from there.
  ghost predicate ClosedUnderAncestors(folders: set<Path>, archive: Path) {
    && (forall p :: p in folders ==> archive <= p)
    && (forall p, q :: p in folders && archive < q && q <= p ==> q in folders)
  }

  // The listing holds one entry for every seen folder but the archive itself, and
  // none for any other.
  ghost predicate ListedOnce(folders: set<Path>, results: seq<ContentInfo>, archive: Path) {
    forall p :: FolderCopies(results, p) == if p in folders && p != archive then 1 else 0
  }

  // A folder entry carries the last name of its path and the archive it is in.
  predicate ProperFolders(results: seq<ContentInfo>, archive: Path) {
    forall item :: item in results && item.FolderInfo? ==>
      && item.fullPath != [] && item.name == item.fullPath[|item.fullPath| - 1]
      && item.fileCount == None && item.archivePath == archive
  }

  lemma OneMoreFolder(results: seq<ContentInfo>, item: ContentInfo, p: Path)
    ensures FolderCopies(results + [item], p)
         == FolderCopies(results, p) + (if item.FolderInfo? && item.fullPath == p then 1 else 0)
    ensures FilesIn(results + [item]) == if item.FileInfo? then FilesIn(results) + [item] else FilesIn(results)
  {
    assert (results + [item])[..|results|] == results;
  }

  // Folders from the top down, none deeper than `depth` names.
  predicate Descending(items: seq<ContentInfo>, depth: nat) {
    && (forall i :: 0 <= i < |items| ==> items[i].FolderInfo? && |items[i].fullPath| <= depth)
    && (forall i, j :: 0 <= i < j < |items| ==> |items[i].fullPath| < |items[j].fullPath|)
  }

  class FolderListing {
    const archive: Path
    var folders: set<Path>
    var results: seq<ContentInfo>

    ghost predicate Valid()
      reads this
    {
      && ClosedUnderAncestors(folders, archive)
      && ListedOnce(folders, results, archive)
      && ProperFolders(results, archive)
    }

    constructor (archive: Path)
      ensures Valid() && this.archive == archive && folders == {} && results == []
    {
      this.archive := archive;
      folders, results := {}, [];
    }

    method Emit(folder: Path)
      requires folder != []
      modifies this`results
      ensures results == old(results) + [FolderInfo(folder[|folder| - 1], None, folder, archive)]
    {
      results := results + [FolderInfo(folder[|folder| - 1], None, folder, archive)];
    }

    // `add_folders` for a file in `folder`.
    method AddFolders(folder: Path)
      requires Valid() && archive <= folder
      modifies this
      ensures Valid()
      ensures forall p :: p in folders <==> p in old(folders) || p == folder || OnTheWay(p, folder, archive, |folder|)
      ensures FilesIn(results) == FilesIn(old(results))
      ensures old(results) <= results && Descending(results[|old(results)|..], |folder|)
    {
      hide FolderCopies, FilesIn, OnTheWay, ClosedUnderAncestors, ListedOnce, ProperFolders, Descending;
      NothingDescending(results, |archive|, |folder|);
      var added := folder !in folders;
      ghost var seen := folders;
      BeforeTheWay(seen, results, folder, archive);
      folders := folders + {folder};
      if added && folder != archive {
        var newPath := archive;
        for k := |archive| to |folder|
          invariant newPath == folder[..k]
          invariant forall p :: p in folders <==> p in seen || p == folder || OnTheWay(p, folder, archive, k)
          invariant forall p :: FolderCopies(results, p)
                             == if (p in seen && p != archive) || OnTheWay(p, folder, archive, k) then 1 else 0
          invariant FilesIn(results) == FilesIn(old(results)) && old(results) <= results
          invariant ProperFolders(results, archive) && Descending(results[|old(results)|..], k)
        {
          newPath := newPath + [folder[k]];
          NextOnTheWay(folder, archive, k);
          DescendingDeeper(results[|old(results)|..], k);
          if newPath != folder && newPath in folders {
            continue;
          }
          folders := folders + {newPath};
          ghost var before := results;
          Emit(newPath);
          AllCountsAfter(before, results[|before|]);
          ProperFoldersGrow(before, results[|before|], archive);
          DescendingSnoc(before[|old(results)|..], k, results[|before|]);
          assert results[|old(results)|..] == before[|old(results)|..] + [results[|before|]];
        }
      }
      BehindTheWay(seen, folders, results, folder, archive);
    }

    // One row of the listing.
    method AddFile(file: ContentInfo)
      requires Valid() && file.FileInfo? && archive <= file.folderPath
      modifies this
      ensures Valid() && FilesIn(results) == FilesIn(old(results)) + [file]
      ensures |old(results)| < |results| && old(results) <= results && results[|results| - 1] == file
      ensures Descending(results[|old(results)|..|results| - 1], |file.folderPath|)
      ensures forall p :: p in folders <==> p in old(folders) || p == file.folderPath
                                            || OnTheWay(p, file.folderPath, archive, |file.folderPath|)
    {
      AddFolders(file.folderPath);
      AllCountsAfter(results, file);
      results := results + [file];
      assert results[|old(results)|..|results| - 1] == results[..|results| - 1][|old(results)|..];
    }
  }

  lemma AllCountsAfter(results: seq<ContentInfo>, item: ContentInfo)
    ensures forall p :: FolderCopies(results + [item], p)
                     == FolderCopies(results, p) + (if item.FolderInfo? && item.fullPath == p then 1 else 0)
    ensures FilesIn(results + [item]) == if item.FileInfo? then FilesIn(results) + [item] else FilesIn(results)
  {
    forall p
      ensures FolderCopies(results + [item], p)
           == FolderCopies(results, p) + (if item.FolderInfo? && item.fullPath == p then 1 else 0)
    {
      OneMoreFolder(results, item, p);
    }
    OneMoreFolder(results, item, []);
  }

  lemma NextOnTheWay(folder: Path, archive: Path, k: nat)
    requires archive <= folder && |archive| <= k < |folder|
    ensures folder[..k] + [folder[k]] == folder[..k + 1]
    ensures forall p :: OnTheWay(p, folder, archive, k + 1) <==> OnTheWay(p, folder, archive, k) || p == folder[..k + 1]
    ensures !OnTheWay(folder[..k + 1], folder, archive, k) && folder[..k + 1] != archive
  {
    forall p ensures OnTheWay(p, folder, archive, k + 1) <==> OnTheWay(p, folder, archive, k) || p == folder[..k + 1] {
      if OnTheWay(p, folder, archive, k + 1) && |p| == k + 1 {
        assert p == folder[..k + 1];
      }
    }
  }

  lemma NothingDescending(results: seq<ContentInfo>, k: nat, l: nat)
    ensures Descending(results[|results|..], k) && Descending(results[|results|..], l)
  {
  }

  lemma DescendingDeeper(items: seq<ContentInfo>, k: nat)
    requires Descending(items, k)
    ensures Descending(items, k + 1)
  {
  }

  lemma DescendingSnoc(items: seq<ContentInfo>, k: nat, item: ContentInfo)
    requires Descending(items, k) && item.FolderInfo? && |item.fullPath| == k + 1
    ensures Descending(items + [item], k + 1)
  {
  }

  lemma ProperFoldersGrow(results: seq<ContentInfo>, item: ContentInfo, archive: Path)
    requires ProperFolders(results, archive) && item.FolderInfo? && item.fullPath != []
    requires item.name == item.fullPath[|item.fullPath| - 1] && item.fileCount == None && item.archivePath == archive
    ensures ProperFolders(results + [item], archive)
  {
  }

  // Before anything is added nothing is on the way, and a folder seen has all of its
  // way seen.
  lemma BeforeTheWay(seen: set<Path>, results: seq<ContentInfo>, folder: Path, archive: Path)
    requires archive <= folder && ClosedUnderAncestors(seen, archive) && ListedOnce(seen, results, archive)
    ensures forall p :: !OnTheWay(p, folder, archive, |archive|)
    ensures forall p :: OnTheWay(p, folder, archive, |folder|) ==> p != archive
    ensures folder in seen || folder == archive ==> forall p :: OnTheWay(p, folder, archive, |folder|) ==> p in seen
    ensures forall p :: FolderCopies(results, p) == if p in seen && p != archive then 1 else 0
  {
    hide FolderCopies;
  }

  // Once the whole way is added the folders are closed and listed again.
  lemma BehindTheWay(seen: set<Path>, folders: set<Path>, results: seq<ContentInfo>, folder: Path, archive: Path)
    requires archive <= folder && ClosedUnderAncestors(seen, archive)
    requires forall p :: p in folders <==> p in seen || p == folder || OnTheWay(p, folder, archive, |folder|)
    requires forall p :: FolderCopies(results, p)
                      == if (p in seen && p != archive) || OnTheWay(p, folder, archive, |folder|) then 1 else 0
    ensures ClosedUnderAncestors(folders, archive) && ListedOnce(folders, results, archive)
  {
    hide FolderCopies;
    assert folder != archive ==> OnTheWay(folder, folder, archive, |folder|);
  }

  // ----- listing all rows -----

  predicate AllUnder(files: seq<ContentInfo>, archive: Path) {
    forall file :: file in files ==> file.FileInfo? && archive <= file.folderPath
  }

  // A folder some file lies in or under.
  predicate HoldsSome(files: seq<ContentInfo>, p: Path) {
    exists file :: file in files && file.FileInfo? && p <= file.folderPath
  }

  // The row loop of the cabinet listings: all files in order, and one folder entry
  // for every folder below the archive that holds a file somewhere under it.
  method BuildListing(files: seq<ContentInfo>, archive: Path) returns (listing: seq<ContentInfo>)
    requires AllUnder(files, archive)
    ensures FilesIn(listing) == files
    ensures forall p :: FolderCopies(listing, p) == if archive < p && HoldsSome(files, p) then 1 else 0
    ensures ProperFolders(listing, archive)
  {
    var builder := new FolderListing(archive);
    for i := 0 to |files|
      invariant builder.Valid() && builder.archive == archive && fresh(builder)
      invariant FilesIn(builder.results) == files[..i]
      invariant forall p :: archive < p ==> (p in builder.folders <==> HoldsSome(files[..i], p))
    {
      assert files[i] in files;
      HoldsSomeGrows(files, i, archive);
      builder.AddFile(files[i]);
    }
    assert files[..|files|] == files;
    listing := builder.results;
  }

  lemma HoldsSomeGrows(files: seq<ContentInfo>, i: nat, archive: Path)
    requires i < |files| && files[i].FileInfo?
    ensures files[..i + 1] == files[..i] + [files[i]]
    ensures forall p :: HoldsSome(files[..i + 1], p) <==> HoldsSome(files[..i], p) || p <= files[i].folderPath
    ensures forall p :: archive < p && p <= files[i].folderPath ==>
              OnTheWay(p, files[i].folderPath, archive, |files[i].folderPath|)
  {
    assert files[..i + 1] == files[..i] + [files[i]];
    forall p ensures HoldsSome(files[..i + 1], p) <==> HoldsSome(files[..i], p) || p <= files[i].folderPath {
      if HoldsSome(files[..i + 1], p) && !(p <= files[i].folderPath) {
        var file :| file in files[..i + 1] && file.FileInfo? && p <= file.folderPath;
        assert file in files[..i];
      }
      if HoldsSome(files[..i], p) {
        var file :| file in files[..i] && file.FileInfo? && p <= file.folderPath;
        assert file in files[..i + 1];
      }
      if p <= files[i].folderPath {
        assert files[i] in files[..i + 1];
      }
    }
  }

  // ----- completeness of the walk -----

  lemma {:induction false} FilesInCopies(listing: seq<ContentInfo>, file: ContentInfo)
    requires file.FileInfo?
    ensures Copies(FilesIn(listing), file) == Copies(listing, file)
  {
    if |listing| > 0 {
      var init, last := listing[..|listing| - 1], listing[|listing| - 1];
      FilesInCopies(init, file);
      assert listing == init + [last];
      CopiesAddUp(init, [last], file);
      CopiesAddUp(FilesIn(init), [last], file);
    }
  }

  // With one entry for every folder on the way there is one way.
  lemma {:induction false} OneWay(listing: seq<ContentInfo>, from: Path, to: Path)
    requires from <= to
    requires forall p :: from < p && p <= to ==> FolderCopies(listing, p) == 1
    ensures Ways(listing, from, to) == 1
    decreases |to| - |from|
  {
    if from != to {
      var next := to[..|from| + 1];
      assert from < next && next <= to;
      OneWay(listing, next, to);
    }
  }

  // The walk over a built listing, from the archive, returns every file exactly as
  // often as it was given, and nothing else.
  lemma WalkReturnsEveryFile(listing: seq<ContentInfo>, files: seq<ContentInfo>, archive: Path, file: ContentInfo)
    requires archive != [] && AllUnder(files, archive) && file.FileInfo?
    requires FilesIn(listing) == files
    requires forall p :: FolderCopies(listing, p) == if archive < p && HoldsSome(files, p) then 1 else 0
    ensures Copies(AllFiles(listing, archive), file) == Copies(files, file)
  {
    hide AllFiles, FolderCopies, FilesIn;
    FilesUnder(listing, archive, file);
    FilesInCopies(listing, file);
    if Copies(files, file) > 0 {
      assert file in files;
      forall p | archive < p && p <= file.folderPath ensures FolderCopies(listing, p) == 1 {
        assert HoldsSome(files, p);
      }
      OneWay(listing, archive, file.folderPath);
    }
  }

  lemma {:induction false} WalkReturnsOnlyFiles(listing: seq<ContentInfo>, items: seq<ContentInfo>, depth: nat)
    requires ItemsBelow(listing, items, depth)
    ensures forall item :: item in Walk(listing, items, depth) ==> item.FileInfo?
    decreases DeepestFolder(listing) + 1 - depth, |items|
  {
    if |items| > 0 {
      var init, last := items[..|items| - 1], items[|items| - 1];
      assert last in items;
      WalkReturnsOnlyFiles(listing, init, depth);
      if last.FolderInfo? {
        ItemsOfFolder(listing, last.fullPath);
        WalkReturnsOnlyFiles(listing, Filtered(listing, last.fullPath), depth + 1);
      }
    }
  }

  // Listing rows and walking the listing gives back the rows, as a multiset.
  method ListAndWalk(files: seq<ContentInfo>, archive: Path) returns (walked: seq<ContentInfo>)
    requires archive != [] && AllUnder(files, archive)
    ensures multiset(walked) == multiset(files)
  {
    var listing := BuildListing(files, archive);
    walked := GetAllFilesForQuery(listing, archive);
    ItemsOfFolder(listing, archive);
    WalkReturnsOnlyFiles(listing, Filtered(listing, archive), |archive|);
    forall item ensures Copies(walked, item) == Copies(files, item) {
      if item.FileInfo? {
        WalkReturnsEveryFile(listing, files, archive, item);
      } else {
        assert item !in walked && item !in files;
      }
    }
    SameCopiesSameMultiset(walked, files);
  }

  lemma SameCopiesSameMultiset(a: seq<ContentInfo>, b: seq<ContentInfo>)
    requires forall item :: Copies(a, item) == Copies(b, item)
    ensures multiset(a) == multiset(b)
  {
    forall item ensures multiset(a)[item] == multiset(b)[item] {
      assert Copies(a, item) == Copies(b, item);
    }
  }
}
