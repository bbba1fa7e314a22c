// The cache in front of the external listers: `cached_get_content_listing`.
module ListingCache {
  import opened Wrappers
  import opened Listing

  // An archive as the cache sees it: its path, and its size if the file exists.
  datatype Archive = Archive(path: string, present: bool, size: nat)

  type Cache = map<string, seq<ContentInfo>>

  // A lister produces the whole listing of an archive, the same every time.
  type Lister = Archive -> seq<ContentInfo>

  function Digit(n: nat): char
    requires n < 10
  {
    "0123456789"[n]
  }

  function Decimal(n: nat): string {
    if n < 10 then [Digit(n)] else Decimal(n / 10) + [Digit(n % 10)]
  }

  // The path, with the file's size appended when the file exists.
  function CacheKey(archive: Archive): string {
    if archive.present then archive.path + Decimal(archive.size) else archive.path
  }

  function CacheAfter(cache: Cache, archive: Archive, lister: Lister): Cache {
    var key := CacheKey(archive);
    if key in cache || lister(archive) == [] then cache else cache[key := lister(archive)]
  }

  function Answer(cache: Cache, archive: Archive, folder: Path, lister: Lister): seq<ContentInfo> {
    var key := CacheKey(archive);
    if key in cache then Filtered(cache[key], folder) else Filtered(lister(archive), folder)
  }

  class ContentCache {
    var statCache: Cache

    constructor ()
      ensures statCache == map[]
    {
      statCache := map[];
    }

    // An empty listing is answered at once and not stored.
    method CachedGetContentListing(archive: Archive, folder: Path, lister: Lister) returns (results: seq<ContentInfo>)
      modifies this
      ensures results == Answer(old(statCache), archive, folder, lister)
      ensures statCache == CacheAfter(old(statCache), archive, lister)
    {
      var key := CacheKey(archive);
      if key !in statCache {
        var listing := lister(archive);
        if listing == [] {
          return [];
        }
        statCache := statCache[key := listing];
      }
      results := FilterResultsForQuery(statCache[key], folder);
    }
  }

  // ----- keys -----

  // The number a string of digits stands for.
  function Value(digits: string): int {
    if |digits| == 0 then 0
    else 10 * Value(digits[..|digits| - 1]) + (digits[|digits| - 1] as int - '0' as int)
  }

  lemma DigitValue(n: nat)
    requires n < 10
    ensures Digit(n) as int - '0' as int == n
  {
  }

  // The size is written in decimal, with no zero in front.
  lemma {:induction false} DecimalStandsFor(n: nat)
    ensures Value(Decimal(n)) == n && |Decimal(n)| > 0
    ensures Decimal(n)[0] == '0' ==> n == 0
  {
    hide Digit;
    DigitValue(n % 10);
    if n < 10 {
      assert Decimal(n)[..0] == "";
    } else {
      DecimalStandsFor(n / 10);
      var digits := Decimal(n);
      assert digits[..|digits| - 1] == Decimal(n / 10);
    }
  }

  // The key is the path and, if the file exists, its size; under one path two keys are the
  // same exactly when both files are missing or both exist with the same size.
  lemma KeyUnderOnePath(a: Archive, b: Archive)
    requires a.path == b.path
    ensures a.path <= CacheKey(a) && (CacheKey(a) == a.path <==> !a.present)
    ensures a.present ==> Value(CacheKey(a)[|a.path|..]) == a.size
    ensures CacheKey(a) == CacheKey(b) <==> a.present == b.present && (a.present ==> a.size == b.size)
  {
    hide Decimal, Value;
    DecimalStandsFor(a.size);
    DecimalStandsFor(b.size);
    assert (a.path + Decimal(a.size))[|a.path|..] == Decimal(a.size);
    assert (b.path + Decimal(b.size))[|b.path|..] == Decimal(b.size);
  }

  // ----- transparency -----

  datatype Query = Query(archive: Archive, folder: Path)

  function CacheAfterAll(cache: Cache, queries: seq<Query>, lister: Lister): Cache {
    if |queries| == 0 then cache
    else
      CacheAfter(CacheAfterAll(cache, queries[..|queries| - 1], lister), queries[|queries| - 1].archive, lister)
  }

  // The query that follows the given ones is answered as by a fresh listing.
  predicate AnswersFreshly(queries: seq<Query>, next: Query, lister: Lister) {
    Answer(CacheAfterAll(map[], queries, lister), next.archive, next.folder, lister)
    == Filtered(lister(next.archive), next.folder)
  }

  // Archives that share a key, the first of which has a listing to store, show the
  // same in every folder.
  ghost predicate KeysAgree(lister: Lister) {
    forall a, b, folder :: CacheKey(a) == CacheKey(b) && lister(a) != [] ==>
      Filtered(lister(a), folder) == Filtered(lister(b), folder)
  }

  // Every stored listing is that of some archive with its key.
  ghost predicate Sound(cache: Cache, lister: Lister) {
    forall key :: key in cache ==> exists a :: CacheKey(a) == key && cache[key] == lister(a) && lister(a) != []
  }

  lemma {:induction false} CacheIsSound(queries: seq<Query>, lister: Lister)
    ensures Sound(CacheAfterAll(map[], queries, lister), lister)
  {
    hide CacheKey;
    if |queries| > 0 {
      CacheIsSound(queries[..|queries| - 1], lister);
      var before := CacheAfterAll(map[], queries[..|queries| - 1], lister);
      var a := queries[|queries| - 1].archive;
      var after := CacheAfter(before, a, lister);
      forall key | key in after ensures exists a :: CacheKey(a) == key && after[key] == lister(a) && lister(a) != [] {
        if key in before {
          var b :| CacheKey(b) == key && before[key] == lister(b) && lister(b) != [];
          assert CacheKey(b) == key;
        } else {
          assert CacheKey(a) == key;
        }
      }
    }
  }

  // Whatever was asked before, answers are those of a fresh listing exactly when
  // the keys agree.
  lemma TransparentExactlyWhenKeysAgree(lister: Lister)
    ensures (forall queries, next :: AnswersFreshly(queries, next, lister)) <==> KeysAgree(lister)
  {
    hide CacheKey, Filtered;
    if KeysAgree(lister) {
      forall queries, next ensures AnswersFreshly(queries, next, lister) {
        CacheIsSound(queries, lister);
        var cache := CacheAfterAll(map[], queries, lister);
        if CacheKey(next.archive) in cache {
          var a :| CacheKey(a) == CacheKey(next.archive) && cache[CacheKey(a)] == lister(a) && lister(a) != [];
        }
      }
    }
    if forall queries, next :: AnswersFreshly(queries, next, lister) {
      forall a, b, folder | CacheKey(a) == CacheKey(b) && lister(a) != []
        ensures Filtered(lister(a), folder) == Filtered(lister(b), folder)
      {
        SecondAnswerIsTheFirstListing(a, b, folder, lister);
        assert AnswersFreshly([Query(a, folder)], Query(b, folder), lister);
      }
    }
  }

  lemma SecondAnswerIsTheFirstListing(a: Archive, b: Archive, folder: Path, lister: Lister)
    requires CacheKey(a) == CacheKey(b) && lister(a) != []
    ensures Answer(CacheAfterAll(map[], [Query(a, folder)], lister), b, folder, lister) == Filtered(lister(a), folder)
  {
    hide CacheKey;
    var queries := [Query(a, folder)];
    assert queries[..0] == [];
    assert CacheAfterAll(map[], queries[..0], lister) == map[];
  }

  // A lister under which every archive holds one file, named after the archive.
  function OneFile(archive: Archive): seq<ContentInfo> {
    [FileInfo(archive.path, 0, archive.size, None, Uncompressed, ["disc"], ["disc"])]
  }

  // Different archives can share a key, the size being appended without a separator;
  // the second one asked for is then answered with the files of the first.
  lemma KeysCanCollide()
    ensures var first, second := Archive("disc1", true, 23), Archive("disc12", true, 3);
            && CacheKey(first) == CacheKey(second)
            && !AnswersFreshly([Query(first, ["disc"])], Query(second, ["disc"]), OneFile)
  {
    hide Filtered, Answer, CacheAfterAll;
    var first, second := Archive("disc1", true, 23), Archive("disc12", true, 3);
    assert Decimal(23) == "23" && Decimal(3) == "3";
    assert "disc1" + "23" == "disc12" + "3";
    SecondAnswerIsTheFirstListing(first, second, ["disc"], OneFile);
    OneFileShown(first);
    OneFileShown(second);
    assert |first.path| != |second.path|;
    assert OneFile(first)[0] != OneFile(second)[0];
  }

  lemma OneFileShown(archive: Archive)
    ensures Filtered(OneFile(archive), ["disc"]) == OneFile(archive)
  {
    assert OneFile(archive)[..0] == [];
  }
}
