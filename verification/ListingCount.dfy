// How often the recursive walk returns a file.
module ListingCount {
  import opened Listing

  function Copies(items: seq<ContentInfo>, item: ContentInfo): nat {
    multiset(items)[item]
  }

  // How many folder entries of the listing stand for `path`.
  function FolderCopies(listing: seq<ContentInfo>, path: Path): nat {
    if |listing| == 0 then 0
    else
      var last := listing[|listing| - 1];
      FolderCopies(listing[..|listing| - 1], path) + (if last.FolderInfo? && last.fullPath == path then 1 else 0)
  }

  // How many ways there are from one folder down to another: at every level, as
  // many as there are folder entries for the next path.
  function Ways(listing: seq<ContentInfo>, from: Path, to: Path): nat
    decreases |to| - |from|
  {
    if !(from <= to) then 0
    else if from == to then 1
    else FolderCopies(listing, to[..|from| + 1]) * Ways(listing, to[..|from| + 1], to)
  }

  lemma CopiesAddUp(a: seq<ContentInfo>, b: seq<ContentInfo>, item: ContentInfo)
    ensures Copies(a + b, item) == Copies(a, item) + Copies(b, item)
  {
  }

  // The contribution of the first `k` entries of the listing to the walk of `folder`.
  function Expected(listing: seq<ContentInfo>, k: nat, folder: Path, file: ContentInfo): nat
    requires k <= |listing| && file.FileInfo?
  {
    if folder == file.folderPath then Copies(listing[..k], file)
    else if folder <= file.folderPath then
      var next := file.folderPath[..|folder| + 1];
      FolderCopies(listing[..k], next) * (Copies(listing, file) * Ways(listing, next, file.folderPath))
    else 0
  }

  lemma FilteredStep(listing: seq<ContentInfo>, k: nat, folder: Path)
    requires k < |listing| && folder != []
    ensures ItemsBelow(listing, Filtered(listing[..k], folder), |folder|)
    ensures ItemsBelow(listing, Filtered(listing[..k + 1], folder), |folder|)
    ensures !IsShownIn(listing[k], folder) ==> Filtered(listing[..k + 1], folder) == Filtered(listing[..k], folder)
    ensures IsShownIn(listing[k], folder) ==>
              Filtered(listing[..k + 1], folder) == Filtered(listing[..k], folder) + [listing[k]]
  {
    assert listing[..k + 1][..k] == listing[..k];
  }

  // A child of `folder` on the way to `to` is the next path on that way.
  lemma ChildOnTheWay(folder: Path, child: Path, to: Path)
    requires Parent(child) == folder && folder != []
    ensures child <= to <==> folder < to && child == to[..|folder| + 1]
  {
    assert child[..|folder|] == folder;
    if child <= to {
      assert to[..|child|] == child;
      assert to[..|folder|] == child[..|folder|];
    }
  }

  lemma FolderCopiesStep(listing: seq<ContentInfo>, k: nat, path: Path)
    requires k < |listing|
    ensures FolderCopies(listing[..k + 1], path)
         == FolderCopies(listing[..k], path) + (if listing[k].FolderInfo? && listing[k].fullPath == path then 1 else 0)
  {
    assert listing[..k + 1][..k] == listing[..k];
  }

  lemma CopiesStep(listing: seq<ContentInfo>, k: nat, file: ContentInfo)
    requires k < |listing|
    ensures Copies(listing[..k + 1], file) == Copies(listing[..k], file) + (if listing[k] == file then 1 else 0)
  {
    assert listing[..k + 1] == listing[..k] + [listing[k]];
  }

  lemma NoWayOffTheWay(listing: seq<ContentInfo>, from: Path, to: Path)
    requires !(from <= to)
    ensures Ways(listing, from, to) == 0
  {
  }

  // What one more listing entry adds to the walk of `folder`.
  function Contribution(listing: seq<ContentInfo>, item: ContentInfo, folder: Path, file: ContentInfo): nat
    requires file.FileInfo?
  {
    if !IsShownIn(item, folder) then 0
    else if item.FileInfo? then (if item == file then 1 else 0)
    else Copies(listing, file) * Ways(listing, item.fullPath, file.folderPath)
  }

  // A folder shown in `folder` leads to the file only if it is the next one on the way.
  lemma FolderContribution(listing: seq<ContentInfo>, item: ContentInfo, folder: Path, file: ContentInfo)
    requires item.FolderInfo? && file.FileInfo? && folder != []
    ensures var to := file.folderPath;
            Contribution(listing, item, folder, file)
            == if folder < to && item.fullPath == to[..|folder| + 1]
               then Copies(listing, file) * Ways(listing, to[..|folder| + 1], to) else 0
  {
    hide Copies, Ways;
    var to := file.folderPath;
    if Parent(item.fullPath) == folder {
      ChildOnTheWay(folder, item.fullPath, to);
      if !(item.fullPath <= to) {
        NoWayOffTheWay(listing, item.fullPath, to);
      }
    }
    assert folder < to ==> Parent(to[..|folder| + 1]) == folder;
  }

  lemma FileContribution(listing: seq<ContentInfo>, item: ContentInfo, folder: Path, file: ContentInfo)
    requires item.FileInfo? && file.FileInfo?
    ensures Contribution(listing, item, folder, file) == if item == file && folder == file.folderPath then 1 else 0
  {
  }

  lemma ExpectedStep(listing: seq<ContentInfo>, k: nat, folder: Path, file: ContentInfo)
    requires k < |listing| && file.FileInfo? && folder != []
    ensures Expected(listing, k + 1, folder, file)
         == Expected(listing, k, folder, file) + Contribution(listing, listing[k], folder, file)
  {
    hide Copies, FolderCopies, Ways, Contribution;
    var item := listing[k];
    var to := file.folderPath;
    CopiesStep(listing, k, file);
    if item.FolderInfo? {
      FolderContribution(listing, item, folder, file);
    } else {
      FileContribution(listing, item, folder, file);
    }
    if folder < to {
      var next := to[..|folder| + 1];
      FolderCopiesStep(listing, k, next);
      OneMore(FolderCopies(listing[..k], next), Copies(listing, file) * Ways(listing, next, to));
    }
  }

  lemma OneMore(n: nat, each: nat)
    ensures (n + 1) * each == n * each + each
  {
  }

  lemma {:induction false} WalkOfPrefix(listing: seq<ContentInfo>, k: nat, folder: Path, file: ContentInfo)
    requires k <= |listing| && folder != [] && file.FileInfo?
    ensures ItemsBelow(listing, Filtered(listing[..k], folder), |folder|)
    ensures Copies(Walk(listing, Filtered(listing[..k], folder), |folder|), file) == Expected(listing, k, folder, file)
    decreases DeepestFolder(listing) + 1 - |folder|, k
  {
    hide Walk, Expected, Ways, Copies, Filtered, DeepestFolder;
    if k == 0 {
      NothingExpected(listing, folder, file);
    } else {
      var item := listing[k - 1];
      var items := Filtered(listing[..k - 1], folder);
      WalkOfPrefix(listing, k - 1, folder, file);
      ExpectedStep(listing, k - 1, folder, file);
      FilteredStep(listing, k - 1, folder);
      if IsShownIn(item, folder) {
        var all := items + [item];
        WalkStep(listing, all, |items|, |folder|);
        assert all[..|items|] == items && all[..|items| + 1] == all;
        if item.FolderInfo? {
          CopiesAddUp(Walk(listing, items, |folder|),
                      Walk(listing, Filtered(listing, item.fullPath), |folder| + 1), file);
          assert item in listing;
          FilesUnder(listing, item.fullPath, file);
        } else {
          CopiesAddUp(Walk(listing, items, |folder|), [item], file);
          OneCopy(item, file);
        }
      }
    }
  }

  lemma OneCopy(item: ContentInfo, file: ContentInfo)
    ensures Copies([item], file) == if item == file then 1 else 0
  {
  }

  lemma NothingExpected(listing: seq<ContentInfo>, folder: Path, file: ContentInfo)
    requires folder != [] && file.FileInfo?
    ensures ItemsBelow(listing, Filtered(listing[..0], folder), |folder|)
    ensures Copies(Walk(listing, Filtered(listing[..0], folder), |folder|), file)
         == Expected(listing, 0, folder, file) == 0
  {
    assert listing[..0] == [];
  }

  lemma ExpectedOfAll(listing: seq<ContentInfo>, folder: Path, file: ContentInfo)
    requires file.FileInfo?
    ensures Expected(listing, |listing|, folder, file) == Copies(listing, file) * Ways(listing, folder, file.folderPath)
  {
    hide Copies, FolderCopies;
    assert listing[..|listing|] == listing;
    if folder <= file.folderPath && folder != file.folderPath {
      var next := file.folderPath[..|folder| + 1];
      Exchange(FolderCopies(listing, next), Copies(listing, file), Ways(listing, next, file.folderPath));
    }
  }

  lemma Exchange(a: nat, b: nat, c: nat)
    ensures a * (b * c) == b * (a * c)
  {
  }

  // The walk from a folder returns a file as often as it is listed, times the
  // number of ways down to its folder.
  lemma {:induction false} FilesUnder(listing: seq<ContentInfo>, folder: Path, file: ContentInfo)
    requires folder != [] && file.FileInfo?
    ensures ItemsBelow(listing, Filtered(listing, folder), |folder|)
    ensures Copies(AllFiles(listing, folder), file) == Copies(listing, file) * Ways(listing, folder, file.folderPath)
    decreases DeepestFolder(listing) + 1 - |folder|, |listing| + 1
  {
    hide Walk, Copies, Filtered, DeepestFolder;
    WalkOfPrefix(listing, |listing|, folder, file);
    assert listing[..|listing|] == listing;
    ExpectedOfAll(listing, folder, file);
  }
}
