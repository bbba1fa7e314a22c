// Remapping the pixels of a bitmap from one palette to another.
module PaletteRemap {
  import opened Palette

  // ----- candidates, nearest first -----

  datatype Candidate = Candidate(distance: int, index: nat)

  // `distances[distance] = index` on an ordered map.
  function Put(candidates: seq<Candidate>, distance: int, index: nat): seq<Candidate> {
    if |candidates| == 0 || distance < candidates[0].distance then [Candidate(distance, index)] + candidates
    else if distance == candidates[0].distance then [Candidate(distance, index)] + candidates[1..]
    else [candidates[0]] + Put(candidates[1..], distance, index)
  }

  predicate Ascending(candidates: seq<Candidate>) {
    |candidates| > 0 ==>
      Ascending(candidates[1..]) && forall c :: c in candidates[1..] ==> candidates[0].distance < c.distance
  }

  // Putting a candidate in front, in place of the first, or further behind.
  lemma PutCases(candidates: seq<Candidate>, distance: int, index: nat)
    ensures var put := Candidate(distance, index);
            Put(candidates, distance, index)
            == (if |candidates| == 0 || distance < candidates[0].distance then [put] + candidates
                else if distance == candidates[0].distance then [put] + candidates[1..]
                else [candidates[0]] + Put(candidates[1..], distance, index))
  {
  }

  lemma AscendingFromFront(first: Candidate, rest: seq<Candidate>)
    ensures Ascending([first] + rest) <==> Ascending(rest) && forall c :: c in rest ==> first.distance < c.distance
  {
    assert ([first] + rest)[1..] == rest;
  }

  lemma {:induction false} PutKeepsOrder(candidates: seq<Candidate>, distance: int, index: nat)
    requires Ascending(candidates)
    ensures Ascending(Put(candidates, distance, index))
    ensures forall c :: c in Put(candidates, distance, index)
                   <==> c == Candidate(distance, index) || (c in candidates && c.distance != distance)
  {
    hide Put, Ascending;
    var put := Candidate(distance, index);
    PutCases(candidates, distance, index);
    AscendingFromFront(put, candidates);
    if |candidates| > 0 {
      var first, rest := candidates[0], candidates[1..];
      assert candidates == [first] + rest;
      AscendingFromFront(first, rest);
      AscendingFromFront(put, rest);
      if distance > first.distance {
        PutKeepsOrder(rest, distance, index);
        AscendingFromFront(first, Put(rest, distance, index));
      }
    }
  }

  // The candidates among the first `count` target colours.
  function Candidates(colour: Colour, targets: seq<Colour>, count: nat): seq<Candidate>
    requires count <= |targets|
  {
    if count == 0 then []
    else Put(Candidates(colour, targets, count - 1), SquaredDistance(colour, targets[count - 1]), count - 1)
  }

  // Some candidate at this distance stands for target `y` or a later one.
  ghost predicate Represented(candidates: seq<Candidate>, distance: int, y: nat) {
    exists c :: c in candidates && c.distance == distance && y <= c.index
  }

  predicate FromTargets(candidates: seq<Candidate>, colour: Colour, targets: seq<Colour>, count: nat)
    requires count <= |targets|
  {
    forall c :: c in candidates ==> c.index < count && c.distance == SquaredDistance(colour, targets[c.index])
  }

  lemma PutRepresents(candidates: seq<Candidate>, distance: int, index: nat, other: int, y: nat)
    requires Ascending(candidates)
    requires if other == distance then y <= index else Represented(candidates, other, y)
    ensures Represented(Put(candidates, distance, index), other, y)
  {
    hide Put, Ascending;
    PutKeepsOrder(candidates, distance, index);
    if other == distance {
      assert Candidate(distance, index) in Put(candidates, distance, index);
    } else {
      var c :| c in candidates && c.distance == other && y <= c.index;
      assert c in Put(candidates, distance, index);
    }
  }

  // The candidates are in order; each is a target with its distance; and every target's
  // distance is among them, standing for the last target that far away.
  lemma {:induction false} CandidatesCoverTargets(colour: Colour, targets: seq<Colour>, count: nat)
    requires count <= |targets|
    ensures Ascending(Candidates(colour, targets, count))
    ensures FromTargets(Candidates(colour, targets, count), colour, targets, count)
    ensures forall y :: 0 <= y < count ==>
              Represented(Candidates(colour, targets, count), SquaredDistance(colour, targets[y]), y)
  {
    hide SquaredDistance, Put, Represented;
    if count > 0 {
      CandidatesCoverTargets(colour, targets, count - 1);
      var before := Candidates(colour, targets, count - 1);
      var distance := SquaredDistance(colour, targets[count - 1]);
      PutKeepsOrder(before, distance, count - 1);
      forall y | 0 <= y < count
        ensures Represented(Put(before, distance, count - 1), SquaredDistance(colour, targets[y]), y)
      {
        PutRepresents(before, distance, count - 1, SquaredDistance(colour, targets[y]), y);
      }
    }
  }

  lemma FirstIsLeast(candidates: seq<Candidate>, c: Candidate)
    requires Ascending(candidates) && c in candidates
    ensures |candidates| > 0 && candidates[0].distance <= c.distance
  {
    assert candidates == [candidates[0]] + candidates[1..];
  }

  lemma FirstCandidateIsNearest(colour: Colour, targets: seq<Colour>)
    requires |targets| > 0
    ensures |Candidates(colour, targets, |targets|)| > 0
    ensures Nearest(colour, targets, Candidates(colour, targets, |targets|)[0].index)
  {
    hide SquaredDistance, Candidates, Ascending;
    CandidatesCoverTargets(colour, targets, |targets|);
    var candidates := Candidates(colour, targets, |targets|);
    forall y | 0 <= y < |targets|
      ensures |candidates| > 0 && candidates[0].distance <= SquaredDistance(colour, targets[y])
    {
      assert Represented(candidates, SquaredDistance(colour, targets[y]), y);
      var c :| c in candidates && c.distance == SquaredDistance(colour, targets[y]) && y <= c.index;
      FirstIsLeast(candidates, c);
    }
    assert Represented(candidates, SquaredDistance(colour, targets[0]), 0);
    assert candidates[0] in candidates;
  }

  // No target is nearer to the colour than the one at `index`.
  predicate Nearest(colour: Colour, targets: seq<Colour>, index: nat) {
    index < |targets| &&
    forall y :: 0 <= y < |targets| ==> SquaredDistance(colour, targets[index]) <= SquaredDistance(colour, targets[y])
  }

  // ----- choosing a target -----

  // The first target with the same red, green and blue; the length if there is none.
  function ExactMatch(colour: Colour, targets: seq<Colour>): (r: nat)
    ensures r <= |targets|
    ensures r < |targets| ==> SameRgb(colour, targets[r])
    ensures r == |targets| ==> forall y :: 0 <= y < |targets| ==> !SameRgb(colour, targets[y])
  {
    if |targets| == 0 then 0
    else if SameRgb(colour, targets[0]) then 0
    else
      var r := ExactMatch(colour, targets[1..]);
      assert forall y :: 1 <= y < |targets| ==> targets[y] == targets[1..][y - 1];
      r + 1
  }

  // The nearest candidate that is not taken; the nearest of all if all are.
  function FirstFree(candidates: seq<Candidate>, taken: seq<nat>, fallback: nat): nat {
    if |candidates| == 0 then fallback
    else if candidates[0].index !in taken then candidates[0].index
    else FirstFree(candidates[1..], taken, fallback)
  }

  function Choose(colour: Colour, targets: seq<Colour>, taken: seq<nat>, onlyUnique: bool): nat
    requires |targets| > 0
  {
    var exact := ExactMatch(colour, targets);
    if exact < |targets| then exact
    else
      var candidates := Candidates(colour, targets, |targets|);
      FirstCandidateIsNearest(colour, targets);
      if onlyUnique then FirstFree(candidates, taken, candidates[0].index) else candidates[0].index
  }

  // The targets of the first `count` source colours.
  function PaletteMap(sources: seq<Colour>, targets: seq<Colour>, onlyUnique: bool, count: nat): (r: seq<nat>)
    requires |targets| > 0 && count <= |sources|
    ensures |r| == count
  {
    if count == 0 then []
    else
      var before := PaletteMap(sources, targets, onlyUnique, count - 1);
      before + [Choose(sources[count - 1], targets, before, onlyUnique)]
  }

  method FindExact(colour: Colour, targets: seq<Colour>) returns (r: nat)
    ensures r == ExactMatch(colour, targets)
  {
    r := 0;
    while r < |targets|
      invariant r <= |targets|
      invariant forall y :: 0 <= y < r ==> !SameRgb(colour, targets[y])
    {
      if SameRgb(colour, targets[r]) {
        FirstExact(colour, targets, r);
        return;
      }
      r := r + 1;
    }
  }

  lemma {:induction false} FirstExact(colour: Colour, targets: seq<Colour>, r: nat)
    requires r < |targets| && SameRgb(colour, targets[r])
    requires forall y :: 0 <= y < r ==> !SameRgb(colour, targets[y])
    ensures ExactMatch(colour, targets) == r
  {
    if r > 0 {
      assert forall y :: 0 <= y < r - 1 ==> targets[1..][y] == targets[y + 1];
      FirstExact(colour, targets[1..], r - 1);
    }
  }

  method CollectDistances(colour: Colour, targets: seq<Colour>) returns (distances: seq<Candidate>)
    ensures distances == Candidates(colour, targets, |targets|)
  {
    hide Put, SquaredDistance;
    distances := [];
    for y := 0 to |targets|
      invariant distances == Candidates(colour, targets, y)
    {
      distances := Put(distances, SquaredDistance(colour, targets[y]), y);
    }
  }

  method FindFree(distances: seq<Candidate>, taken: seq<nat>) returns (index: nat)
    requires |distances| > 0
    ensures index == FirstFree(distances, taken, distances[0].index)
  {
    assert distances[0..] == distances;
    for i := 0 to |distances|
      invariant FirstFree(distances, taken, distances[0].index) == FirstFree(distances[i..], taken, distances[0].index)
    {
      if distances[i].index !in taken {
        return distances[i].index;
      }
    }
    index := distances[0].index;
  }

  // The loop over the source palette. A target must exist for every source colour.
  method MapPalette(sources: seq<Colour>, targets: seq<Colour>, onlyUnique: bool) returns (paletteMap: seq<nat>)
    requires |sources| > 0 ==> |targets| > 0
    ensures |sources| > 0 ==> paletteMap == PaletteMap(sources, targets, onlyUnique, |sources|)
    ensures |sources| == 0 ==> paletteMap == []
  {
    hide SquaredDistance, Candidates, ExactMatch, FirstFree;
    paletteMap := [];
    for x := 0 to |sources|
      invariant |targets| > 0 || x == 0
      invariant |targets| > 0 ==> paletteMap == PaletteMap(sources, targets, onlyUnique, x)
      invariant |paletteMap| == x
    {
      var index := FindExact(sources[x], targets);
      if index == |targets| {
        FirstCandidateIsNearest(sources[x], targets);
        var distances := CollectDistances(sources[x], targets);
        if onlyUnique {
          index := FindFree(distances, paletteMap);
        } else {
          index := distances[0].index;
        }
      }
      paletteMap := paletteMap + [index];
    }
  }

  // `remap_bitmap`. A pixel outside the source palette becomes 0.
  method RemapBitmap(pixels: seq<nat>, sources: seq<Colour>, targets: seq<Colour>, onlyUnique: bool)
    returns (results: seq<nat>)
    requires pixels != [] && sources != targets && |sources| > 0 ==> |targets| > 0
    ensures |results| == |pixels|
    ensures sources == targets ==> results == pixels
    ensures sources != targets ==>
              forall i :: 0 <= i < |pixels| ==>
                results[i]
                == if pixels[i] < |sources| then PaletteMap(sources, targets, onlyUnique, |sources|)[pixels[i]] else 0
  {
    hide PaletteMap;
    if pixels == [] || sources == targets {
      return pixels;
    }
    var paletteMap := MapPalette(sources, targets, onlyUnique);
    results := [];
    for i := 0 to |pixels|
      invariant |results| == i
      invariant forall k :: 0 <= k < i ==>
                  results[k]
                  == if pixels[k] < |sources| then PaletteMap(sources, targets, onlyUnique, |sources|)[pixels[k]] else 0
    {
      results := results + [if pixels[i] < |paletteMap| then paletteMap[pixels[i]] else 0];
    }
  }

  // ----- what the palette map guarantees -----

  lemma ExactIsNearest(colour: Colour, targets: seq<Colour>, index: nat)
    requires index < |targets| && SameRgb(colour, targets[index])
    ensures Nearest(colour, targets, index)
  {
    hide SquaredDistance;
    ZeroExactlyForSameRgb(colour, targets[index]);
    forall y | 0 <= y < |targets|
      ensures SquaredDistance(colour, targets[index]) <= SquaredDistance(colour, targets[y])
    {
      ZeroExactlyForSameRgb(colour, targets[y]);
    }
  }

  lemma {:induction false} MapEntry(sources: seq<Colour>, targets: seq<Colour>, onlyUnique: bool, count: nat, x: nat)
    requires |targets| > 0 && x < count <= |sources|
    ensures PaletteMap(sources, targets, onlyUnique, count)[x]
         == Choose(sources[x], targets, PaletteMap(sources, targets, onlyUnique, x), onlyUnique)
  {
    hide Choose;
    if x < count - 1 {
      MapEntry(sources, targets, onlyUnique, count - 1, x);
    }
  }

  // Without uniqueness every source colour goes to a target at the least distance.
  lemma EveryColourGoesToNearest(sources: seq<Colour>, targets: seq<Colour>, x: nat)
    requires |targets| > 0 && x < |sources|
    ensures Nearest(sources[x], targets, PaletteMap(sources, targets, false, |sources|)[x])
  {
    hide PaletteMap, Candidates, Nearest, SquaredDistance, ExactMatch;
    MapEntry(sources, targets, false, |sources|, x);
    var exact := ExactMatch(sources[x], targets);
    if exact < |targets| {
      ExactIsNearest(sources[x], targets, exact);
    } else {
      FirstCandidateIsNearest(sources[x], targets);
    }
  }

  // An exact match is taken in either mode, used before or not.
  lemma ExactMatchWins(sources: seq<Colour>, targets: seq<Colour>, onlyUnique: bool, x: nat)
    requires |targets| > 0 && x < |sources| && ExactMatch(sources[x], targets) < |targets|
    ensures var index := PaletteMap(sources, targets, onlyUnique, |sources|)[x];
            index < |targets| && SquaredDistance(sources[x], targets[index]) == 0
  {
    hide SquaredDistance, PaletteMap;
    MapEntry(sources, targets, onlyUnique, |sources|, x);
    ZeroExactlyForSameRgb(sources[x], targets[ExactMatch(sources[x], targets)]);
  }

  // ----- uniqueness -----

  predicate Distinct(s: seq<nat>) {
    forall i, j :: 0 <= i < j < |s| ==> s[i] != s[j]
  }

  // There is no target left for a source colour: its exact match is taken or, without
  // one, the target of every distance is.
  predicate NothingFree(colour: Colour, targets: seq<Colour>, taken: seq<nat>) {
    var exact := ExactMatch(colour, targets);
    if exact < |targets| then exact in taken
    else forall c :: c in Candidates(colour, targets, |targets|) ==> c.index in taken
  }

  lemma {:induction false} FirstFreeIsFree(candidates: seq<Candidate>, taken: seq<nat>, fallback: nat)
    ensures (exists c :: c in candidates && c.index !in taken) ==> FirstFree(candidates, taken, fallback) !in taken
    ensures (forall c :: c in candidates ==> c.index in taken) ==> FirstFree(candidates, taken, fallback) == fallback
  {
    if |candidates| > 0 {
      var first, rest := candidates[0], candidates[1..];
      assert candidates == [first] + rest;
      FirstFreeIsFree(rest, taken, fallback);
    }
  }

  // A choice repeats an earlier one exactly when nothing was free.
  lemma RepeatsExactlyWhenNothingFree(colour: Colour, targets: seq<Colour>, taken: seq<nat>)
    requires |targets| > 0
    ensures Choose(colour, targets, taken, true) in taken <==> NothingFree(colour, targets, taken)
  {
    hide Candidates, ExactMatch, SquaredDistance, FirstFree;
    var exact := ExactMatch(colour, targets);
    if exact == |targets| {
      FirstCandidateIsNearest(colour, targets);
      var candidates := Candidates(colour, targets, |targets|);
      FirstFreeIsFree(candidates, taken, candidates[0].index);
      assert candidates[0] in candidates;
    }
  }

  // With uniqueness a source without an exact match goes to the nearest of the targets that
  // are free, of those equally far away to the last.
  lemma ChoiceIsNearestFree(colour: Colour, targets: seq<Colour>, taken: seq<nat>, t: nat)
    requires ExactMatch(colour, targets) == |targets| && t < |targets| && t !in taken
    requires forall u :: t < u < |targets| ==>
               SquaredDistance(colour, targets[u]) != SquaredDistance(colour, targets[t])
    ensures var choice := Choose(colour, targets, taken, true);
            choice < |targets| && choice !in taken
            && SquaredDistance(colour, targets[choice]) <= SquaredDistance(colour, targets[t])
  {
    hide SquaredDistance, Candidates, ExactMatch, Ascending, FirstFree;
    CandidatesCoverTargets(colour, targets, |targets|);
    FirstCandidateIsNearest(colour, targets);
    var candidates := Candidates(colour, targets, |targets|);
    assert Represented(candidates, SquaredDistance(colour, targets[t]), t);
    var c :| c in candidates && c.distance == SquaredDistance(colour, targets[t]) && t <= c.index;
    assert c.index == t;
    FirstFreeIsFree(candidates, taken, candidates[0].index);
    var d := FirstFreeIsNearestFree(candidates, taken, candidates[0].index, c);
  }

  // When nothing is free it goes to the nearest target of all.
  lemma ChoiceWithoutFreeIsNearest(colour: Colour, targets: seq<Colour>, taken: seq<nat>)
    requires |targets| > 0 && ExactMatch(colour, targets) == |targets| && NothingFree(colour, targets, taken)
    ensures Nearest(colour, targets, Choose(colour, targets, taken, true))
  {
    hide SquaredDistance, Candidates, ExactMatch, Nearest, FirstFree;
    FirstCandidateIsNearest(colour, targets);
    var candidates := Candidates(colour, targets, |targets|);
    FirstFreeIsFree(candidates, taken, candidates[0].index);
  }

  // With uniqueness asked for, no target is used twice exactly when something was free
  // at every step.
  lemma {:induction false} UniqueExactlyWhenAlwaysFree(sources: seq<Colour>, targets: seq<Colour>, count: nat)
    requires |targets| > 0 && count <= |sources|
    ensures Distinct(PaletteMap(sources, targets, true, count))
       <==> forall x :: 0 <= x < count ==> !NothingFree(sources[x], targets, PaletteMap(sources, targets, true, x))
  {
    hide Choose, NothingFree, Distinct, PaletteMap;
    PaletteMapStep(sources, targets, count);
    if count > 0 {
      UniqueExactlyWhenAlwaysFree(sources, targets, count - 1);
      var before := PaletteMap(sources, targets, true, count - 1);
      RepeatsExactlyWhenNothingFree(sources[count - 1], targets, before);
      DistinctSnoc(before, Choose(sources[count - 1], targets, before, true));
    }
  }

  lemma PaletteMapStep(sources: seq<Colour>, targets: seq<Colour>, count: nat)
    requires |targets| > 0 && count <= |sources|
    ensures count == 0 ==> Distinct(PaletteMap(sources, targets, true, count))
    ensures count > 0 ==>
              var before := PaletteMap(sources, targets, true, count - 1);
              PaletteMap(sources, targets, true, count) == before + [Choose(sources[count - 1], targets, before, true)]
  {
  }

  lemma DistinctSnoc(s: seq<nat>, x: nat)
    ensures Distinct(s + [x]) <==> Distinct(s) && x !in s
  {
    var t := s + [x];
    assert t[|s|] == x;
    assert forall i :: 0 <= i < |s| ==> t[i] == s[i];
  }

  // Fewer numbers than `n` leave one below `n` out.
  lemma {:induction false} SomeNumberMissing(taken: seq<nat>, n: nat) returns (y: nat)
    requires |taken| < n
    ensures y < n && y !in taken
  {
    if n - 1 !in taken {
      y := n - 1;
    } else {
      var i :| 0 <= i < |taken| && taken[i] == n - 1;
      var others := taken[..i] + taken[i + 1..];
      y := SomeNumberMissing(others, n - 1);
      forall k | 0 <= k < |taken| ensures taken[k] != y {
        if k < i { assert others[k] == taken[k]; }
        if k > i { assert others[k - 1] == taken[k]; }
      }
    }
  }

  predicate DistancesDiffer(colour: Colour, targets: seq<Colour>) {
    forall y, z :: 0 <= y < z < |targets| ==> SquaredDistance(colour, targets[y]) != SquaredDistance(colour, targets[z])
  }

  // Then as long as a target is free, one of the candidates is.
  lemma FreeTargetIsACandidate(colour: Colour, targets: seq<Colour>, taken: seq<nat>)
    requires |taken| < |targets| && DistancesDiffer(colour, targets) && ExactMatch(colour, targets) == |targets|
    ensures !NothingFree(colour, targets, taken)
  {
    hide SquaredDistance, Candidates, ExactMatch, Ascending;
    var y := SomeNumberMissing(taken, |targets|);
    CandidatesCoverTargets(colour, targets, |targets|);
    var candidates := Candidates(colour, targets, |targets|);
    assert Represented(candidates, SquaredDistance(colour, targets[y]), y);
    var c :| c in candidates && c.distance == SquaredDistance(colour, targets[y]) && y <= c.index;
    assert c.index == y;
  }

  // Two sources with the same exact match share it, whatever stands between them.
  lemma SameExactMatchIsShared(sources: seq<Colour>, targets: seq<Colour>, x: nat, y: nat)
    requires x < y < |sources| && ExactMatch(sources[x], targets) == ExactMatch(sources[y], targets) < |targets|
    ensures var indices := PaletteMap(sources, targets, true, |sources|);
            indices[x] == indices[y] && !Distinct(indices)
  {
    hide ExactMatch, PaletteMap;
    MapEntry(sources, targets, true, |sources|, x);
    MapEntry(sources, targets, true, |sources|, y);
  }

  predicate HasExactMatch(colour: Colour, targets: seq<Colour>) {
    ExactMatch(colour, targets) < |targets|
  }

  // No two sources have the same exact match.
  predicate ExactMatchesDiffer(sources: seq<Colour>, targets: seq<Colour>) {
    forall x, y :: 0 <= x < y < |sources| && HasExactMatch(sources[x], targets) ==>
      ExactMatch(sources[x], targets) != ExactMatch(sources[y], targets)
  }

  // The targets nearer to a colour than target `e`.
  function Nearer(colour: Colour, targets: seq<Colour>, e: nat): set<nat>
    requires e < |targets|
  {
    set t: nat | t < |targets| && SquaredDistance(colour, targets[t]) < SquaredDistance(colour, targets[e])
  }

  // A source without an exact match, `x` places from the front, finds more than `x`
  // targets nearer than the exact match of any source behind it, and no two targets
  // equally far away.
  predicate LeavesLaterMatches(sources: seq<Colour>, targets: seq<Colour>, x: nat)
    requires x < |sources|
  {
    HasExactMatch(sources[x], targets)
    || (&& DistancesDiffer(sources[x], targets)
        && forall y :: x < y < |sources| && HasExactMatch(sources[y], targets) ==>
             |Nearer(sources[x], targets, ExactMatch(sources[y], targets))| > x)
  }

  predicate AllLeaveLaterMatches(sources: seq<Colour>, targets: seq<Colour>) {
    forall x :: 0 <= x < |sources| ==> LeavesLaterMatches(sources, targets, x)
  }

  // A set with more members than the sequence has entries has one that is not in it.
  lemma {:induction false} SomeMemberMissing(taken: seq<nat>, s: set<nat>) returns (y: nat)
    requires |taken| < |s|
    ensures y in s && y !in taken
  {
    if |taken| == 0 {
      y :| y in s;
    } else {
      var first, rest := taken[0], taken[1..];
      assert taken == [first] + rest;
      RemoveOne(s, first);
      y := SomeMemberMissing(rest, s - {first});
    }
  }

  lemma RemoveOne(s: set<nat>, x: nat)
    ensures |s - {x}| >= |s| - 1
  {
    if x in s {
      assert s == (s - {x}) + {x};
    } else {
      assert s - {x} == s;
    }
  }

  // The first free candidate is no farther away than any free one.
  lemma {:induction false} FirstFreeIsNearestFree(candidates: seq<Candidate>, taken: seq<nat>, fallback: nat,
                                                  c: Candidate)
    returns (d: Candidate)
    requires Ascending(candidates) && c in candidates && c.index !in taken
    ensures d in candidates && d.index == FirstFree(candidates, taken, fallback) && d.distance <= c.distance
  {
    var first, rest := candidates[0], candidates[1..];
    assert candidates == [first] + rest;
    if first.index !in taken {
      d := first;
      FirstIsLeast(candidates, c);
    } else {
      d := FirstFreeIsNearestFree(rest, taken, fallback, c);
    }
  }

  // With targets to choose from that are nearer than `e`, `e` is not chosen.
  lemma ChoosesNearer(colour: Colour, targets: seq<Colour>, taken: seq<nat>, e: nat)
    requires !HasExactMatch(colour, targets) && DistancesDiffer(colour, targets)
    requires e < |targets| && |Nearer(colour, targets, e)| > |taken|
    ensures Choose(colour, targets, taken, true) != e
  {
    hide SquaredDistance, Candidates, ExactMatch, Ascending, FirstFree;
    var t := SomeMemberMissing(taken, Nearer(colour, targets, e));
    CandidatesCoverTargets(colour, targets, |targets|);
    FirstCandidateIsNearest(colour, targets);
    var candidates := Candidates(colour, targets, |targets|);
    assert Represented(candidates, SquaredDistance(colour, targets[t]), t);
    var c :| c in candidates && c.distance == SquaredDistance(colour, targets[t]) && t <= c.index;
    assert c.index == t;
    var d := FirstFreeIsNearestFree(candidates, taken, candidates[0].index, c);
  }

  // Something is free for an exact match.
  lemma ExactMatchIsFree(sources: seq<Colour>, targets: seq<Colour>, y: nat)
    requires |targets| > 0 && AllLeaveLaterMatches(sources, targets) && ExactMatchesDiffer(sources, targets)
    requires y < |sources| && HasExactMatch(sources[y], targets)
    ensures !NothingFree(sources[y], targets, PaletteMap(sources, targets, true, y))
  {
    hide ExactMatch, PaletteMap, DistancesDiffer, Nearer;
    var taken := PaletteMap(sources, targets, true, y);
    var exact := ExactMatch(sources[y], targets);
    forall x | 0 <= x < y ensures taken[x] != exact {
      MapEntry(sources, targets, true, y, x);
      assert LeavesLaterMatches(sources, targets, x);
      if !HasExactMatch(sources[x], targets) {
        ChoosesNearer(sources[x], targets, PaletteMap(sources, targets, true, x), exact);
      }
    }
  }

  // With at least as many targets as sources, and exact matches left alone by the
  // sources before them, no target is used twice exactly when the exact matches differ.
  lemma UniqueExactlyWhenExactMatchesDiffer(sources: seq<Colour>, targets: seq<Colour>)
    requires 0 < |sources| <= |targets| && AllLeaveLaterMatches(sources, targets)
    ensures Distinct(PaletteMap(sources, targets, true, |sources|)) <==> ExactMatchesDiffer(sources, targets)
  {
    hide DistancesDiffer, NothingFree, Distinct, ExactMatch, PaletteMap, Nearer;
    if ExactMatchesDiffer(sources, targets) {
      forall x | 0 <= x < |sources|
        ensures !NothingFree(sources[x], targets, PaletteMap(sources, targets, true, x))
      {
        assert LeavesLaterMatches(sources, targets, x);
        if HasExactMatch(sources[x], targets) {
          ExactMatchIsFree(sources, targets, x);
        } else {
          FreeTargetIsACandidate(sources[x], targets, PaletteMap(sources, targets, true, x));
        }
      }
      UniqueExactlyWhenAlwaysFree(sources, targets, |sources|);
    } else {
      var x, y :| 0 <= x < y < |sources| && HasExactMatch(sources[x], targets)
        && ExactMatch(sources[x], targets) == ExactMatch(sources[y], targets);
      SameExactMatchIsShared(sources, targets, x, y);
    }
  }

  // In particular when the first `k` sources have exact matches and the others have
  // none.
  lemma UniqueExactlyWhenFirstMatchesDiffer(sources: seq<Colour>, targets: seq<Colour>, k: nat)
    requires 0 < |sources| <= |targets| && k <= |sources|
    requires forall x :: 0 <= x < k ==> HasExactMatch(sources[x], targets)
    requires forall x :: k <= x < |sources| ==>
               !HasExactMatch(sources[x], targets) && DistancesDiffer(sources[x], targets)
    ensures Distinct(PaletteMap(sources, targets, true, |sources|))
       <==> forall x, y :: 0 <= x < y < k ==> ExactMatch(sources[x], targets) != ExactMatch(sources[y], targets)
  {
    hide DistancesDiffer, Distinct, ExactMatch, PaletteMap, Nearer;
    UniqueExactlyWhenExactMatchesDiffer(sources, targets);
  }

  // In particular without exact matches.
  lemma EnoughTargetsAreUsedOnce(sources: seq<Colour>, targets: seq<Colour>)
    requires 0 < |sources| <= |targets|
    requires forall x :: 0 <= x < |sources| ==> ExactMatch(sources[x], targets) == |targets|
    requires forall x :: 0 <= x < |sources| ==> DistancesDiffer(sources[x], targets)
    ensures Distinct(PaletteMap(sources, targets, true, |sources|))
  {
    hide DistancesDiffer, Distinct, ExactMatch, PaletteMap;
    UniqueExactlyWhenFirstMatchesDiffer(sources, targets, 0);
  }

  // The order matters. The exact-match branch does not look at what is taken, and here
  // the first colour takes the exact match of the second, with a target to spare.
  lemma ExactMatchCanRepeat()
    ensures var near, exact, far := Colour(10, 10, 10, 0), Colour(11, 10, 10, 0), Colour(200, 200, 200, 0);
            PaletteMap([near, exact], [exact, far], true, 2) == [0, 0]
  {
    var near, exact, far := Colour(10, 10, 10, 0), Colour(11, 10, 10, 0), Colour(200, 200, 200, 0);
    var targets := [exact, far];
    assert SquaredDistance(near, exact) == 2;
    assert SquaredDistance(near, far) > 2;
    FirstExact(exact, targets, 0);
    FirstCandidateIsNearest(near, targets);
    var candidates := Candidates(near, targets, 2);
    assert candidates[0].index == 0;
    assert ExactMatch(near, targets) == 2;
    assert Choose(near, targets, [], true) == 0;
    assert PaletteMap([near, exact], targets, true, 1) == [0];
    assert Choose(exact, targets, [0], true) == 0;
  }

  // ----- the pixels -----

  // Without uniqueness every pixel inside the source palette shows a colour at the
  // least distance, also when equal palettes make the call return the pixels as they are.
  lemma PixelsShowNearestColours(pixels: seq<nat>, sources: seq<Colour>, targets: seq<Colour>,
                                 results: seq<nat>, i: nat)
    requires |results| == |pixels| && i < |pixels| && pixels[i] < |sources| && |targets| > 0
    requires sources == targets ==> results == pixels
    requires sources != targets ==> results[i] == PaletteMap(sources, targets, false, |sources|)[pixels[i]]
    ensures Nearest(sources[pixels[i]], targets, results[i])
  {
    if sources == targets {
      ExactIsNearest(sources[pixels[i]], targets, pixels[i]);
    } else {
      EveryColourGoesToNearest(sources, targets, pixels[i]);
    }
  }
}
