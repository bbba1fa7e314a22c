// What it means that a list is a selection from another one.
module Selections {
  // The places at which a flag is set, in order and each once.
  predicate PlacesOf(at: seq<nat>, flags: seq<bool>) {
    && (forall i, j :: 0 <= i < j < |at| ==> at[i] < at[j])
    && (forall i :: 0 <= i < |at| ==> at[i] < |flags| && flags[at[i]])
    && (forall j :: 0 <= j < |flags| && flags[j] ==> j in at)
  }

  // What stands at these places.
  predicate StandsAt<T(==)>(picked: seq<T>, whole: seq<T>, at: seq<nat>) {
    |picked| == |at| && forall i :: 0 <= i < |at| ==> at[i] < |whole| && picked[i] == whole[at[i]]
  }

  lemma NoPlaces<T>()
    ensures PlacesOf([], []) && StandsAt<T>([], [], [])
  {
  }

  lemma PlacesSnoc(at: seq<nat>, flags: seq<bool>, flag: bool)
    requires PlacesOf(at, flags)
    ensures PlacesOf(if flag then at + [|flags|] else at, flags + [flag])
  {
    var more := if flag then at + [|flags|] else at;
    forall j | 0 <= j < |flags + [flag]| && (flags + [flag])[j] ensures j in more {
      if j == |flags| {
        assert more[|at|] == j;
      } else {
        var i :| 0 <= i < |at| && at[i] == j;
        assert more[i] == j;
      }
    }
  }

  lemma StandsSnoc<T>(picked: seq<T>, whole: seq<T>, at: seq<nat>, last: T)
    requires StandsAt(picked, whole, at)
    ensures StandsAt(picked, whole + [last], at) && StandsAt(picked + [last], whole + [last], at + [|whole|])
  {
  }
}
