// Archive listings: filtering a flat listing for one folder, and the recursive
// walk that collects every file.
module Listing {
  import opened Selections
  import opened Wrappers

  // A path is the sequence of its names.
  type Path = seq<string>

  function Parent(path: Path): Path {
    if path == [] then [] else path[..|path| - 1]
  }

  datatype Compression = Uncompressed | CodeRle | Lz77Huffman

  datatype ContentInfo =
    | FolderInfo(name: string, fileCount: Option<nat>, fullPath: Path, archivePath: Path)
    | FileInfo(filename: string, offset: nat, size: nat, compressedSize: Option<nat>, compression: Compression,
               folderPath: Path, archivePath: Path)

  // ----- filtering -----

  predicate IsShownIn(item: ContentInfo, folder: Path) {
    match item
    case FileInfo(_, _, _, _, _, folderPath, _) => folderPath == folder
    case FolderInfo(_, _, fullPath, _) => Parent(fullPath) == folder
  }

  function Filtered(listing: seq<ContentInfo>, folder: Path): (r: seq<ContentInfo>)
    ensures forall item :: item in r ==> item in listing && IsShownIn(item, folder)
  {
    if |listing| == 0 then []
    else
      var init := Filtered(listing[..|listing| - 1], folder);
      if IsShownIn(listing[|listing| - 1], folder) then init + [listing[|listing| - 1]] else init
  }

  // `filter_results_for_query`.
  method FilterResultsForQuery(listing: seq<ContentInfo>, folder: Path) returns (results: seq<ContentInfo>)
    ensures results == Filtered(listing, folder)
  {
    results := [];
    for i := 0 to |listing|
      invariant results == Filtered(listing[..i], folder)
    {
      assert listing[..i + 1][..i] == listing[..i];
      if IsShownIn(listing[i], folder) {
        results := results + [listing[i]];
      }
    }
    assert listing[..|listing|] == listing;
  }

  function ShownIn(listing: seq<ContentInfo>, folder: Path): (r: seq<bool>)
    ensures |r| == |listing|
    ensures forall i :: 0 <= i < |r| ==>
              r[i] == match listing[i]
                      case FileInfo(_, _, _, _, _, folderPath, _) => folderPath == folder
                      case FolderInfo(_, _, fullPath, _) =>
                        if fullPath == [] then folder == [] else fullPath[..|fullPath| - 1] == folder
  {
    seq(|listing|, i requires 0 <= i < |listing| => IsShownIn(listing[i], folder))
  }

  lemma LastShown(listing: seq<ContentInfo>, folder: Path)
    requires |listing| > 0
    ensures var init, last := listing[..|listing| - 1], listing[|listing| - 1];
            && listing == init + [last]
            && Filtered(listing, folder) == Filtered(init, folder) + (if IsShownIn(last, folder) then [last] else [])
            && ShownIn(listing, folder) == ShownIn(init, folder) + [IsShownIn(last, folder)]
  {
  }

  // What is shown in a folder: the files in it and the folders whose parent it is, all of
  // them, in their order.
  lemma {:induction false} FilteredIsExact(listing: seq<ContentInfo>, folder: Path) returns (at: seq<nat>)
    ensures PlacesOf(at, ShownIn(listing, folder)) && StandsAt(Filtered(listing, folder), listing, at)
  {
    hide PlacesOf, StandsAt;
    var n := |listing|;
    if n == 0 {
      at := [];
      NoPlaces<ContentInfo>();
      assert ShownIn(listing, folder) == [] && listing == [];
    } else {
      hide Filtered, ShownIn, IsShownIn;
      var init, last := listing[..n - 1], listing[n - 1];
      var before := FilteredIsExact(init, folder);
      LastShown(listing, folder);
      PlacesSnoc(before, ShownIn(init, folder), IsShownIn(last, folder));
      StandsSnoc(Filtered(init, folder), init, before, last);
      at := if IsShownIn(last, folder) then before + [n - 1] else before;
      assert Filtered(init, folder) + [] == Filtered(init, folder);
    }
  }

  // ----- walking -----

  function DeepestFolder(listing: seq<ContentInfo>): (r: nat)
    ensures forall item :: item in listing && item.FolderInfo? ==> |item.fullPath| <= r
  {
    if |listing| == 0 then 0
    else
      var init := DeepestFolder(listing[..|listing| - 1]);
      var last := listing[|listing| - 1];
      if last.FolderInfo? && |last.fullPath| > init then |last.fullPath| else init
  }

  // Items of one folder of the listing: every folder among them is one level
  // below `depth`, so that a walk comes to an end.
  predicate ItemsBelow(listing: seq<ContentInfo>, items: seq<ContentInfo>, depth: nat) {
    depth > 0 && forall item :: item in items ==> item in listing && (item.FolderInfo? ==> |item.fullPath| == depth + 1)
  }

  lemma ItemsOfFolder(listing: seq<ContentInfo>, folder: Path)
    requires folder != []
    ensures ItemsBelow(listing, Filtered(listing, folder), |folder|)
  {
  }

  // The files met when `items` are walked in order, each folder by walking what
  // the listing shows in it.
  function Walk(listing: seq<ContentInfo>, items: seq<ContentInfo>, depth: nat): seq<ContentInfo>
    requires ItemsBelow(listing, items, depth)
    decreases DeepestFolder(listing) + 1 - depth, |items|
  {
    if |items| == 0 then []
    else
      var init := Walk(listing, items[..|items| - 1], depth);
      var last := items[|items| - 1];
      assert last in items;
      if last.FileInfo? then init + [last]
      else
        ItemsOfFolder(listing, last.fullPath);
        init + Walk(listing, Filtered(listing, last.fullPath), depth + 1)
  }

  // All files under `folder`, as the walk from there returns them.
  function AllFiles(listing: seq<ContentInfo>, folder: Path): seq<ContentInfo>
    requires folder != []
  {
    ItemsOfFolder(listing, folder);
    Walk(listing, Filtered(listing, folder), |folder|)
  }

  // `get_all_files_for_query`: a list the recursion appends to.
  class FileWalk {
    var results: seq<ContentInfo>

    constructor ()
      ensures results == []
    {
      results := [];
    }

    method GetFullListing(listing: seq<ContentInfo>, items: seq<ContentInfo>, depth: nat)
      requires ItemsBelow(listing, items, depth)
      modifies this
      ensures results == old(results) + Walk(listing, items, depth)
      decreases DeepestFolder(listing) + 1 - depth
    {
      hide Walk, Filtered, DeepestFolder;
      ghost var before := results;
      WalkNothing(listing, depth);
      assert items[..0] == [];
      for i := 0 to |items|
        invariant results == before + Walk(listing, items[..i], depth)
      {
        WalkStep(listing, items, i, depth);
        match items[i] {
          case FolderInfo(_, _, fullPath, _) =>
            ItemsOfFolder(listing, fullPath);
            var children := FilterResultsForQuery(listing, fullPath);
            GetFullListing(listing, children, depth + 1);
          case FileInfo(_, _, _, _, _, _, _) =>
            results := results + [items[i]];
        }
      }
      assert items[..|items|] == items;
    }
  }

  lemma WalkStep(listing: seq<ContentInfo>, items: seq<ContentInfo>, i: nat, depth: nat)
    requires ItemsBelow(listing, items, depth) && i < |items|
    ensures items[i] in items
    ensures items[i].FileInfo? ==> Walk(listing, items[..i + 1], depth) == Walk(listing, items[..i], depth) + [items[i]]
    ensures items[i].FolderInfo? ==>
              && ItemsBelow(listing, Filtered(listing, items[i].fullPath), depth + 1)
              && Walk(listing, items[..i + 1], depth)
                 == Walk(listing, items[..i], depth) + Walk(listing, Filtered(listing, items[i].fullPath), depth + 1)
  {
    assert items[..i + 1][..i] == items[..i];
    assert items[i] in items;
    if items[i].FolderInfo? {
      ItemsOfFolder(listing, items[i].fullPath);
    }
  }

  lemma WalkNothing(listing: seq<ContentInfo>, depth: nat)
    requires depth > 0
    ensures Walk(listing, [], depth) == []
  {
  }

  method GetAllFilesForQuery(listing: seq<ContentInfo>, folder: Path) returns (files: seq<ContentInfo>)
    requires folder != []
    ensures files == AllFiles(listing, folder)
  {
    var walk := new FileWalk();
    ItemsOfFolder(listing, folder);
    var items := FilterResultsForQuery(listing, folder);
    walk.GetFullListing(listing, items, |folder|);
    files := walk.results;
  }
}
