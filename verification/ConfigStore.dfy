// The configuration store: keys, entries and the operations of
// `text_game_config` in siege-content-common/src/shared.cpp.
module ConfigStore {
  import opened Selections

  // A key or a value is held as one segment, two segments, or a vector.
  datatype KeyType = One(first: string) | Two(first: string, second: string) | Many(all: seq<string>) {
    function Segments(): seq<string> {
      match this
      case One(a) => [a]
      case Two(a, b) => [a, b]
      case Many(s) => s
    }

    // `operator==`: alternatives of the same kind are compared as such, others
    // element by element.
    predicate Equals(other: KeyType) {
      if (One? && other.One?) || (Two? && other.Two?) || (Many? && other.Many?) then this == other
      else
        && |Segments()| == |other.Segments()|
        && forall i :: 0 <= i < |Segments()| ==> Segments()[i] == other.Segments()[i]
    }

    predicate Empty() {
      Segments() == []
    }

    function At(index: nat): string {
      if index < |Segments()| then Segments()[index] else ""
    }

    // The first two segments; missing ones are empty.
    function ToArray2(): (string, string) {
      match this
      case Two(a, b) => (a, b)
      case _ => (At(0), At(1))
    }
  }

  datatype ConfigLine = ConfigLine(rawLine: string, key: KeyType, value: KeyType)

  // How a key is held makes no difference to comparing it.
  lemma EqualKeysHaveEqualSegments(a: KeyType, b: KeyType)
    ensures a.Equals(b) <==> a.Segments() == b.Segments()
  {
  }

  // ----- the operations on the list of entries -----

  // The index of the last entry under `key`, or the length if there is none.
  function LastMatch(entries: seq<ConfigLine>, key: KeyType): (r: nat)
    ensures r <= |entries|
    ensures r < |entries| ==> entries[r].key.Equals(key)
    ensures forall i :: r < i < |entries| ==> !entries[i].key.Equals(key)
    ensures r == |entries| ==> forall i :: 0 <= i < |entries| ==> !entries[i].key.Equals(key)
  {
    var n := |entries|;
    if n == 0 then 0
    else if entries[n - 1].key.Equals(key) then n - 1
    else
      var r := LastMatch(entries[..n - 1], key);
      if r == n - 1 then n else r
  }

  function Found(entries: seq<ConfigLine>, key: KeyType): KeyType {
    var i := LastMatch(entries, key);
    if i < |entries| then entries[i].value else One("")
  }

  function Emplaced(entries: seq<ConfigLine>, key: KeyType, value: KeyType): seq<ConfigLine> {
    var i := LastMatch(entries, key);
    if i < |entries| then entries[i := entries[i].(value := value)] else entries + [ConfigLine("", key, value)]
  }

  function Matching(entries: seq<ConfigLine>, key: KeyType): seq<ConfigLine> {
    if |entries| == 0 then []
    else
      var init := Matching(entries[..|entries| - 1], key);
      if entries[|entries| - 1].key.Equals(key) then init + [entries[|entries| - 1]] else init
  }

  function Removed(entries: seq<ConfigLine>, key: KeyType): seq<ConfigLine> {
    if |entries| == 0 then []
    else
      var init := Removed(entries[..|entries| - 1], key);
      if entries[|entries| - 1].key.Equals(key) then init else init + [entries[|entries| - 1]]
  }

  function NamedKeys(entries: seq<ConfigLine>): seq<KeyType> {
    if |entries| == 0 then []
    else
      var init := NamedKeys(entries[..|entries| - 1]);
      if entries[|entries| - 1].key.Empty() then init else init + [entries[|entries| - 1].key]
  }

  class TextGameConfig {
    var lineEntries: seq<ConfigLine>

    constructor (entries: seq<ConfigLine>)
      ensures lineEntries == entries
    {
      lineEntries := entries;
    }

    // The reverse search every keyed operation starts with.
    method FindLast(key: KeyType) returns (i: nat)
      ensures i == LastMatch(lineEntries, key)
    {
      var n: nat := |lineEntries|;
      while n > 0
        invariant n <= |lineEntries|
        invariant forall j :: n <= j < |lineEntries| ==> !lineEntries[j].key.Equals(key)
      {
        if lineEntries[n - 1].key.Equals(key) {
          return n - 1;
        }
        n := n - 1;
      }
      i := |lineEntries|;
    }

    method Keys() returns (results: seq<KeyType>)
      ensures results == NamedKeys(lineEntries)
    {
      results := [];
      for i := 0 to |lineEntries|
        invariant results == NamedKeys(lineEntries[..i])
      {
        assert lineEntries[..i + 1][..i] == lineEntries[..i];
        if !lineEntries[i].key.Empty() {
          results := results + [lineEntries[i].key];
        }
      }
      assert lineEntries[..|lineEntries|] == lineEntries;
    }

    method Find(key: KeyType) returns (value: KeyType)
      ensures value == Found(lineEntries, key)
    {
      var i := FindLast(key);
      value := if i == |lineEntries| then One("") else lineEntries[i].value;
    }

    method Contains(key: KeyType) returns (r: bool)
      ensures r <==> exists i :: 0 <= i < |lineEntries| && lineEntries[i].key.Equals(key)
    {
      var i := FindLast(key);
      r := i < |lineEntries|;
    }

    method EntriesFor(key: KeyType) returns (results: seq<ConfigLine>)
      ensures results == Matching(lineEntries, key)
    {
      results := [];
      for i := 0 to |lineEntries|
        invariant results == Matching(lineEntries[..i], key)
      {
        assert lineEntries[..i + 1][..i] == lineEntries[..i];
        if lineEntries[i].key.Equals(key) {
          results := results + [lineEntries[i]];
        }
      }
      assert lineEntries[..|lineEntries|] == lineEntries;
    }

    method Emplace(key: KeyType, value: KeyType)
      modifies this
      ensures lineEntries == Emplaced(old(lineEntries), key, value)
    {
      var i := FindLast(key);
      if i != |lineEntries| {
        lineEntries := lineEntries[i := lineEntries[i].(value := value)];
      } else {
        lineEntries := lineEntries + [ConfigLine("", key, value)];
      }
    }

    method Remove(key: KeyType)
      modifies this
      ensures lineEntries == Removed(old(lineEntries), key)
    {
      var kept: seq<ConfigLine> := [];
      for i := 0 to |lineEntries|
        invariant kept == Removed(lineEntries[..i], key) && lineEntries == old(lineEntries)
      {
        assert lineEntries[..i + 1][..i] == lineEntries[..i];
        if !lineEntries[i].key.Equals(key) {
          kept := kept + [lineEntries[i]];
        }
      }
      assert lineEntries[..|lineEntries|] == lineEntries;
      lineEntries := kept;
    }
  }

  // ----- the store is a map in which the last entry wins -----

  type Dictionary = map<seq<string>, KeyType>

  function AsMap(entries: seq<ConfigLine>): Dictionary {
    if |entries| == 0 then map[]
    else
      var last := entries[|entries| - 1];
      AsMap(entries[..|entries| - 1])[last.key.Segments() := last.value]
  }

  lemma {:induction false} MapHoldsLastMatch(entries: seq<ConfigLine>, key: KeyType)
    ensures key.Segments() in AsMap(entries) <==> LastMatch(entries, key) < |entries|
    ensures key.Segments() in AsMap(entries) ==>
              AsMap(entries)[key.Segments()] == entries[LastMatch(entries, key)].value
  {
    var n := |entries|;
    if n > 0 {
      EqualKeysHaveEqualSegments(entries[n - 1].key, key);
      MapHoldsLastMatch(entries[..n - 1], key);
    }
  }

  // `find` answers from the map, with the empty string for an absent key;
  // `contains` is membership.
  lemma FindReadsMap(entries: seq<ConfigLine>, key: KeyType)
    ensures Found(entries, key) == if key.Segments() in AsMap(entries) then AsMap(entries)[key.Segments()] else One("")
    ensures (exists i :: 0 <= i < |entries| && entries[i].key.Equals(key)) <==> key.Segments() in AsMap(entries)
  {
    MapHoldsLastMatch(entries, key);
  }

  lemma {:induction false} AsMapUpdateLast(entries: seq<ConfigLine>, i: nat, value: KeyType)
    requires i < |entries|
    requires forall j :: i < j < |entries| ==> entries[j].key.Segments() != entries[i].key.Segments()
    ensures AsMap(entries[i := entries[i].(value := value)]) == AsMap(entries)[entries[i].key.Segments() := value]
  {
    var n := |entries|;
    var updated := entries[i := entries[i].(value := value)];
    if i == n - 1 {
      assert updated[..n - 1] == entries[..n - 1];
    } else {
      assert updated[..n - 1] == entries[..n - 1][i := entries[i].(value := value)];
      AsMapUpdateLast(entries[..n - 1], i, value);
    }
  }

  lemma EmplaceUpdatesMap(entries: seq<ConfigLine>, key: KeyType, value: KeyType)
    ensures AsMap(Emplaced(entries, key, value)) == AsMap(entries)[key.Segments() := value]
  {
    var i := LastMatch(entries, key);
    if i < |entries| {
      EqualKeysHaveEqualSegments(entries[i].key, key);
      forall j | i < j < |entries| ensures entries[j].key.Segments() != entries[i].key.Segments() {
        EqualKeysHaveEqualSegments(entries[j].key, key);
      }
      AsMapUpdateLast(entries, i, value);
    } else {
      var grown := entries + [ConfigLine("", key, value)];
      assert grown[..|entries|] == entries;
    }
  }

  lemma AsMapAppend(entries: seq<ConfigLine>, last: ConfigLine)
    ensures AsMap(entries + [last]) == AsMap(entries)[last.key.Segments() := last.value]
  {
    assert (entries + [last])[..|entries|] == entries;
  }

  lemma RemoveLast(entries: seq<ConfigLine>, key: KeyType)
    requires |entries| > 0
    ensures var init, last := entries[..|entries| - 1], entries[|entries| - 1];
            && entries == init + [last]
            && Removed(entries, key) == if last.key.Equals(key) then Removed(init, key) else Removed(init, key) + [last]
  {
  }

  lemma DeleteAfterUpdate(m: Dictionary, k: seq<string>, v: KeyType, x: seq<string>)
    ensures m[k := v] - {x} == if k == x then m - {x} else (m - {x})[k := v]
  {
  }

  lemma {:induction false} RemoveDeletesFromMap(entries: seq<ConfigLine>, key: KeyType)
    ensures AsMap(Removed(entries, key)) == AsMap(entries) - {key.Segments()}
  {
    hide *;
    if entries == [] {
      NothingStored(key);
    } else {
      var init, last := entries[..|entries| - 1], entries[|entries| - 1];
      RemoveLast(entries, key);
      RemoveDeletesFromMap(init, key);
      EqualKeysHaveEqualSegments(last.key, key);
      AsMapAppend(init, last);
      AsMapAppend(Removed(init, key), last);
      DeleteAfterUpdate(AsMap(init), last.key.Segments(), last.value, key.Segments());
    }
  }

  lemma NothingStored(key: KeyType)
    ensures AsMap([]) == map[] && Removed([], key) == []
  {
  }

  datatype Operation = Emplace(key: KeyType, value: KeyType) | Remove(key: KeyType)

  function Perform(entries: seq<ConfigLine>, operations: seq<Operation>): seq<ConfigLine> {
    if |operations| == 0 then entries
    else
      var before := Perform(entries, operations[..|operations| - 1]);
      match operations[|operations| - 1]
      case Emplace(key, value) => Emplaced(before, key, value)
      case Remove(key) => Removed(before, key)
  }

  function PerformOnMap(dictionary: Dictionary, operations: seq<Operation>): Dictionary {
    if |operations| == 0 then dictionary
    else
      var before := PerformOnMap(dictionary, operations[..|operations| - 1]);
      match operations[|operations| - 1]
      case Emplace(key, value) => before[key.Segments() := value]
      case Remove(key) => before - {key.Segments()}
  }

  // After any run of operations on any entries, duplicates included, the store
  // answers as the map after the same run.
  lemma {:induction false} StoreRefinesMap(entries: seq<ConfigLine>, operations: seq<Operation>, key: KeyType)
    ensures AsMap(Perform(entries, operations)) == PerformOnMap(AsMap(entries), operations)
    ensures var dictionary := PerformOnMap(AsMap(entries), operations);
            Found(Perform(entries, operations), key)
            == (if key.Segments() in dictionary then dictionary[key.Segments()] else One(""))
  {
    if |operations| > 0 {
      var before := operations[..|operations| - 1];
      StoreRefinesMap(entries, before, key);
      match operations[|operations| - 1] {
        case Emplace(k, value) => EmplaceUpdatesMap(Perform(entries, before), k, value);
        case Remove(k) => RemoveDeletesFromMap(Perform(entries, before), k);
      }
    }
    FindReadsMap(Perform(entries, operations), key);
  }

  // A key that a run does not name, however it is held, keeps its answer.
  lemma {:induction false} OtherKeysKeepTheirAnswers(entries: seq<ConfigLine>, operations: seq<Operation>, key: KeyType)
    requires forall i :: 0 <= i < |operations| ==> operations[i].key.Segments() != key.Segments()
    ensures Found(Perform(entries, operations), key) == Found(entries, key)
  {
    hide *;
    UntouchedInMap(AsMap(entries), operations, key.Segments());
    StoreRefinesMap(entries, operations, key);
    FindReadsMap(entries, key);
  }

  lemma {:induction false} UntouchedInMap(dictionary: Dictionary, operations: seq<Operation>, segments: seq<string>)
    requires forall i :: 0 <= i < |operations| ==> operations[i].key.Segments() != segments
    ensures segments in PerformOnMap(dictionary, operations) <==> segments in dictionary
    ensures segments in dictionary ==> PerformOnMap(dictionary, operations)[segments] == dictionary[segments]
  {
    if |operations| > 0 {
      assert operations[|operations| - 1].key.Segments() != segments;
      UntouchedInMap(dictionary, operations[..|operations| - 1], segments);
    }
  }

  // ----- the lists of matches and of keys -----

  function UnderKey(entries: seq<ConfigLine>, key: KeyType): (r: seq<bool>)
    ensures |r| == |entries| && forall i :: 0 <= i < |r| ==> r[i] == entries[i].key.Equals(key)
  {
    seq(|entries|, i requires 0 <= i < |entries| => entries[i].key.Equals(key))
  }

  lemma LastMatching(entries: seq<ConfigLine>, key: KeyType)
    requires |entries| > 0
    ensures var init, last := entries[..|entries| - 1], entries[|entries| - 1];
            && entries == init + [last]
            && Matching(entries, key) == Matching(init, key) + (if last.key.Equals(key) then [last] else [])
            && UnderKey(entries, key) == UnderKey(init, key) + [last.key.Equals(key)]
  {
  }

  // `entries_for` returns the entries under the key, all of them, in their order.
  lemma {:induction false} MatchingIsExact(entries: seq<ConfigLine>, key: KeyType) returns (at: seq<nat>)
    ensures PlacesOf(at, UnderKey(entries, key)) && StandsAt(Matching(entries, key), entries, at)
  {
    hide PlacesOf, StandsAt;
    var n := |entries|;
    if n == 0 {
      at := [];
      NoPlaces<ConfigLine>();
      assert UnderKey(entries, key) == [] && entries == [];
    } else {
      hide Matching, UnderKey, KeyType.Equals;
      var init, last := entries[..n - 1], entries[n - 1];
      var before := MatchingIsExact(init, key);
      LastMatching(entries, key);
      PlacesSnoc(before, UnderKey(init, key), last.key.Equals(key));
      StandsSnoc(Matching(init, key), init, before, last);
      at := if last.key.Equals(key) then before + [n - 1] else before;
      assert Matching(init, key) + [] == Matching(init, key);
    }
  }

  function OtherKey(entries: seq<ConfigLine>, key: KeyType): (r: seq<bool>)
    ensures |r| == |entries| && forall i :: 0 <= i < |r| ==> r[i] == !entries[i].key.Equals(key)
  {
    seq(|entries|, i requires 0 <= i < |entries| => !entries[i].key.Equals(key))
  }

  lemma LastOther(entries: seq<ConfigLine>, key: KeyType)
    requires |entries| > 0
    ensures var init, last := entries[..|entries| - 1], entries[|entries| - 1];
            && entries == init + [last]
            && Removed(entries, key) == Removed(init, key) + (if last.key.Equals(key) then [] else [last])
            && OtherKey(entries, key) == OtherKey(init, key) + [!last.key.Equals(key)]
  {
  }

  // `remove` leaves the entries under other keys, all of them, in their order.
  lemma {:induction false} RemovedIsExact(entries: seq<ConfigLine>, key: KeyType) returns (at: seq<nat>)
    ensures PlacesOf(at, OtherKey(entries, key)) && StandsAt(Removed(entries, key), entries, at)
  {
    hide PlacesOf, StandsAt;
    var n := |entries|;
    if n == 0 {
      at := [];
      NoPlaces<ConfigLine>();
      assert OtherKey(entries, key) == [] && entries == [];
    } else {
      hide Removed, OtherKey, KeyType.Equals;
      var init, last := entries[..n - 1], entries[n - 1];
      var before := RemovedIsExact(init, key);
      LastOther(entries, key);
      PlacesSnoc(before, OtherKey(init, key), !last.key.Equals(key));
      StandsSnoc(Removed(init, key), init, before, last);
      at := if last.key.Equals(key) then before else before + [n - 1];
      assert Removed(init, key) + [] == Removed(init, key);
    }
  }

  // `emplace` changes nothing but the value of the last entry under the key, or puts a
  // line of its own behind all others.
  lemma EmplacedIsExact(entries: seq<ConfigLine>, key: KeyType, value: KeyType, i: nat)
    ensures (forall j :: 0 <= j < |entries| ==> !entries[j].key.Equals(key)) ==>
              Emplaced(entries, key, value) == entries + [ConfigLine("", key, value)]
    ensures i < |entries| && entries[i].key.Equals(key)
            && (forall j :: i < j < |entries| ==> !entries[j].key.Equals(key)) ==>
              Emplaced(entries, key, value)
              == entries[..i] + [ConfigLine(entries[i].rawLine, entries[i].key, value)] + entries[i + 1..]
  {
    hide KeyType.Equals;
    var last := LastMatch(entries, key);
    if last < |entries| {
      ReplacedInPlace(entries, last, entries[last].(value := value));
    }
  }

  lemma ReplacedInPlace(entries: seq<ConfigLine>, i: nat, line: ConfigLine)
    requires i < |entries|
    ensures entries[i := line] == entries[..i] + [line] + entries[i + 1..]
  {
  }

  function KeysOf(entries: seq<ConfigLine>): (r: seq<KeyType>)
    ensures |r| == |entries| && forall i :: 0 <= i < |r| ==> r[i] == entries[i].key
  {
    seq(|entries|, i requires 0 <= i < |entries| => entries[i].key)
  }

  function HasSegments(entries: seq<ConfigLine>): (r: seq<bool>)
    ensures |r| == |entries| && forall i :: 0 <= i < |r| ==> r[i] == (entries[i].key.Segments() != [])
  {
    seq(|entries|, i requires 0 <= i < |entries| => entries[i].key.Segments() != [])
  }

  lemma LastNamedKey(entries: seq<ConfigLine>)
    requires |entries| > 0
    ensures var init, last := entries[..|entries| - 1], entries[|entries| - 1];
            && KeysOf(entries) == KeysOf(init) + [last.key]
            && NamedKeys(entries) == NamedKeys(init) + (if last.key.Segments() == [] then [] else [last.key])
            && HasSegments(entries) == HasSegments(init) + [last.key.Segments() != []]
  {
  }

  // `keys` returns the keys of the entries whose key has segments, in their order.
  lemma {:induction false} NamedKeysAreExact(entries: seq<ConfigLine>) returns (at: seq<nat>)
    ensures PlacesOf(at, HasSegments(entries)) && StandsAt(NamedKeys(entries), KeysOf(entries), at)
  {
    hide PlacesOf, StandsAt;
    var n := |entries|;
    if n == 0 {
      at := [];
      NoPlaces<KeyType>();
      assert HasSegments(entries) == [] && KeysOf(entries) == [];
    } else {
      hide NamedKeys, HasSegments, KeysOf, KeyType.Segments;
      var init, last := entries[..n - 1], entries[n - 1];
      var before := NamedKeysAreExact(init);
      LastNamedKey(entries);
      PlacesSnoc(before, HasSegments(init), last.key.Segments() != []);
      StandsSnoc(NamedKeys(init), KeysOf(init), before, last.key);
      at := if last.key.Segments() != [] then before + [n - 1] else before;
      assert NamedKeys(init) + [] == NamedKeys(init);
    }
  }

  // What `find` answers is the value of the last of `entries_for`.
  lemma FoundIsLastOfMatching(entries: seq<ConfigLine>, key: KeyType)
    ensures var matching := Matching(entries, key);
            Found(entries, key) == if matching == [] then One("") else matching[|matching| - 1].value
  {
    hide Matching, KeyType.Equals;
    var at := MatchingIsExact(entries, key);
    var last := LastMatch(entries, key);
    assert last < |entries| ==> UnderKey(entries, key)[last];
    if |at| > 0 {
      var end := at[|at| - 1];
      assert UnderKey(entries, key)[end];
      assert end <= last < |entries|;
      var i :| 0 <= i < |at| && at[i] == last;
      assert at[i] <= end;
    }
  }

  // The keys are those of the map, the one without segments left out.
  lemma KeysNameTheMap(entries: seq<ConfigLine>, key: KeyType)
    ensures (exists i :: 0 <= i < |NamedKeys(entries)| && NamedKeys(entries)[i].Equals(key))
            <==> key.Segments() != [] && key.Segments() in AsMap(entries)
  {
    hide NamedKeys, AsMap, KeyType.Equals, KeyType.Segments;
    var at := NamedKeysAreExact(entries);
    MapHoldsLastMatch(entries, key);
    if i :| 0 <= i < |NamedKeys(entries)| && NamedKeys(entries)[i].Equals(key) {
      EqualKeysHaveEqualSegments(NamedKeys(entries)[i], key);
      assert HasSegments(entries)[at[i]];
      assert entries[at[i]].key.Equals(key);
    }
    if key.Segments() != [] && key.Segments() in AsMap(entries) {
      var last := LastMatch(entries, key);
      EqualKeysHaveEqualSegments(entries[last].key, key);
      assert HasSegments(entries)[last];
      var i :| 0 <= i < |at| && at[i] == last;
      assert NamedKeys(entries)[i].Equals(key);
    }
  }
}
