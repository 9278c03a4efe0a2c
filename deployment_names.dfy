/**
 * Resolution of caller-supplied clues against the deployment names that a
 * list query returned.  Each listed name is bound to the first clue, in clue
 * order, that it contains; the call fails naming the first clue, in clue
 * order, that no name was bound to.
 *
 * The two loop methods are proved equal to the specification functions
 * `FindResult` and `ReadResult`; the lemmas below state what those mean.
 */
module DeploymentNames {
  import opened Wrappers
  import opened Substrings
  import opened ControlPlane

  /** One element of the list `ReadDeploymentNames` returns. */
  datatype Binding = Binding(clue: string, deployment: string)

  /** Index of the first clue, in clue order, that `name` contains. */
  function FirstClue(name: string, clues: seq<string>): (r: Option<nat>)
    ensures r.Some? ==> r.value < |clues| && Contains(name, clues[r.value])
    ensures forall k :: 0 <= k < |clues| && (r.None? || k < r.value) ==> !Contains(name, clues[k])
  {
    if |clues| == 0 then None
    else if Contains(name, clues[0]) then Some(0)
    else match FirstClue(name, clues[1..])
      case None => None
      case Some(k) => Some(k + 1)
  }

  /** The clue `name` binds, if any. */
  function ClueOf(name: string, clues: seq<string>): Option<string>
  {
    match FirstClue(name, clues)
    case None => None
    case Some(k) => Some(clues[k])
  }

  /** Some listed name binds clue `c`. */
  ghost predicate Bound(names: seq<string>, clues: seq<string>, c: string)
  {
    exists j :: 0 <= j < |names| && ClueOf(names[j], clues) == Some(c)
  }

  /** `name` contains at least one clue. */
  ghost predicate ContainsSomeClue(name: string, clues: seq<string>)
  {
    exists k :: 0 <= k < |clues| && Contains(name, clues[k])
  }

  /** The set `ret` after the names in `names` have been scanned. */
  function Matched(names: seq<string>, clues: seq<string>): set<string>
    decreases |names|
  {
    if names == [] then {}
    else
      var last := names[|names| - 1];
      Matched(names[..|names| - 1], clues) + (if FirstClue(last, clues).Some? then {last} else {})
  }

  /** The set `foundClues` after the names in `names` have been scanned. */
  function Found(names: seq<string>, clues: seq<string>): set<string>
    decreases |names|
  {
    if names == [] then {}
    else
      var last := names[|names| - 1];
      Found(names[..|names| - 1], clues) + (match ClueOf(last, clues) case None => {} case Some(c) => {c})
  }

  /** The map `cluesToDeployName` after the names in `names` have been scanned. */
  function Bindings(names: seq<string>, clues: seq<string>): map<string, string>
    decreases |names|
  {
    if names == [] then map[]
    else
      var last := names[|names| - 1];
      var m := Bindings(names[..|names| - 1], clues);
      match ClueOf(last, clues)
      case None => m
      case Some(c) => m[c := last]
  }

  /** Index of the first clue, in clue order, that is not in `found`. */
  function FirstMissing(clues: seq<string>, found: set<string>): (r: Option<nat>)
    ensures r.Some? ==> r.value < |clues| && clues[r.value] !in found
    ensures forall k :: 0 <= k < |clues| && (r.None? || k < r.value) ==> clues[k] in found
  {
    if |clues| == 0 then None
    else if clues[0] !in found then Some(0)
    else match FirstMissing(clues[1..], found)
      case None => None
      case Some(k) => Some(k + 1)
  }

  /** What `FindDeploymentNames` returns for a list query outcome. */
  function FindResult(listing: Result<seq<string>, Error>, clues: seq<string>): Result<set<string>, Error>
  {
    match listing
    case Failure(e) => Failure(e)
    case Success(names) =>
      match FirstMissing(clues, Found(names, clues))
      case Some(i) => Failure(ClueNotFound(clues[i]))
      case None => Success(Matched(names, clues))
  }

  /** What `ReadDeploymentNames` returns for a list query outcome. */
  function ReadResult(listing: Result<seq<string>, Error>, clues: seq<string>): Result<seq<Binding>, Error>
  {
    match listing
    case Failure(e) => Failure(e)
    case Success(names) =>
      var m := Bindings(names, clues);
      match FirstMissing(clues, m.Keys)
      case Some(i) => Failure(ClueNotFound(clues[i]))
      case None => Success(seq(|clues|, k requires 0 <= k < |clues| && clues[k] in m => Binding(clues[k], m[clues[k]])))
  }

  /**
   * `FindDeploymentNames`, with the list query's outcome as input: nested
   * scans insert each bound name and its clue into two sets, then the clues
   * are checked in order.
   */
  method FindDeploymentNames(listing: Result<seq<string>, Error>, clues: seq<string>)
    returns (r: Result<set<string>, Error>)
    ensures listing.Failure? ==> r == Failure(listing.error)
    ensures r == FindResult(listing, clues)
  {
    if listing.Failure? {
      return Failure(listing.error);
    }
    var names := listing.value;
    var ret: set<string> := {};
    var foundClues: set<string> := {};
    var i := 0;
    while i < |names|
      invariant 0 <= i <= |names|
      invariant ret == Matched(names[..i], clues)
      invariant foundClues == Found(names[..i], clues)
    {
      var name := names[i];
      assert names[..i + 1][..i] == names[..i];
      var j := 0;
      while j < |clues|
        invariant 0 <= j <= |clues|
        invariant forall k :: 0 <= k < j ==> !Contains(name, clues[k])
        invariant ret == Matched(names[..i], clues) && foundClues == Found(names[..i], clues)
      {
        if Contains(name, clues[j]) {
          assert FirstClue(name, clues) == Some(j);
          ret := ret + {name};
          foundClues := foundClues + {clues[j]};
          break;
        }
        j := j + 1;
      }
      i := i + 1;
    }
    assert names[..i] == names;
    var c := 0;
    while c < |clues|
      invariant 0 <= c <= |clues|
      invariant forall k :: 0 <= k < c ==> clues[k] in foundClues
    {
      if clues[c] !in foundClues {
        assert FirstMissing(clues, foundClues) == Some(c);
        return Failure(ClueNotFound(clues[c]));
      }
      c := c + 1;
    }
    return Success(ret);
  }

  /**
   * `ReadDeploymentNames`, with the list query's outcome as input: the
   * nested scans record clue-to-name bindings in a map (a later name
   * overwrites an earlier one), the clues are checked in order, and the
   * clues are mapped to pairs.
   */
  method ReadDeploymentNames(listing: Result<seq<string>, Error>, clues: seq<string>)
    returns (r: Result<seq<Binding>, Error>)
    ensures listing.Failure? ==> r == Failure(listing.error)
    ensures r == ReadResult(listing, clues)
  {
    if listing.Failure? {
      return Failure(listing.error);
    }
    var names := listing.value;
    var cluesToDeployName: map<string, string> := map[];
    var i := 0;
    while i < |names|
      invariant 0 <= i <= |names|
      invariant cluesToDeployName == Bindings(names[..i], clues)
    {
      var name := names[i];
      assert names[..i + 1][..i] == names[..i];
      var j := 0;
      while j < |clues|
        invariant 0 <= j <= |clues|
        invariant forall k :: 0 <= k < j ==> !Contains(name, clues[k])
        invariant cluesToDeployName == Bindings(names[..i], clues)
      {
        var clue := clues[j];
        if Contains(name, clue) {
          assert FirstClue(name, clues) == Some(j);
          cluesToDeployName := cluesToDeployName[clue := name];
          break;
        }
        j := j + 1;
      }
      i := i + 1;
    }
    assert names[..i] == names;
    var c := 0;
    while c < |clues|
      invariant 0 <= c <= |clues|
      invariant forall k :: 0 <= k < c ==> clues[k] in cluesToDeployName
    {
      if clues[c] !in cluesToDeployName {
        assert FirstMissing(clues, cluesToDeployName.Keys) == Some(c);
        return Failure(ClueNotFound(clues[c]));
      }
      c := c + 1;
    }
    var m := cluesToDeployName;
    return Success(seq(|clues|, k requires 0 <= k < |clues| && clues[k] in m => Binding(clues[k], m[clues[k]])));
  }

  // ---------------------------------------------------------------------
  // What the specification functions mean

  /** The clue a name binds is the first clue it contains; a name binds a clue iff it contains one. */
  lemma ClueOfIsFirstContained(name: string, clues: seq<string>)
    ensures ClueOf(name, clues).Some? <==> ContainsSomeClue(name, clues)
    ensures ClueOf(name, clues).Some? ==>
              exists i :: 0 <= i < |clues| && clues[i] == ClueOf(name, clues).value && Contains(name, clues[i]) &&
                          forall k :: 0 <= k < i ==> !Contains(name, clues[k])
  {
    if FirstClue(name, clues).Some? {
      var i := FirstClue(name, clues).value;
      assert clues[i] == ClueOf(name, clues).value;
    }
  }

  /** The returned set holds exactly the listed names that contain some clue, each once. */
  lemma {:induction false} MatchedIff(names: seq<string>, clues: seq<string>, n: string)
    ensures n in Matched(names, clues) <==> n in names && ContainsSomeClue(n, clues)
    decreases |names|
  {
    ClueOfIsFirstContained(n, clues);
    if names != [] {
      var prefix := names[..|names| - 1];
      MatchedIff(prefix, clues, n);
      assert names == prefix + [names[|names| - 1]];
    }
  }

  /** A clue is found iff some listed name binds it: a name marks only its first contained clue. */
  lemma {:induction false} FoundIff(names: seq<string>, clues: seq<string>, c: string)
    ensures c in Found(names, clues) <==> Bound(names, clues, c)
    decreases |names|
  {
    if names != [] {
      var prefix := names[..|names| - 1];
      var last := names[|names| - 1];
      FoundIff(prefix, clues, c);
      if Bound(prefix, clues, c) {
        var j :| 0 <= j < |prefix| && ClueOf(prefix[j], clues) == Some(c);
        assert names[j] == prefix[j];
      }
      if Bound(names, clues, c) {
        var j :| 0 <= j < |names| && ClueOf(names[j], clues) == Some(c);
        if j < |prefix| {
          assert prefix[j] == names[j];
        }
      }
      if ClueOf(last, clues) == Some(c) {
        assert ClueOf(names[|names| - 1], clues) == Some(c);
      }
    }
  }

  /**
   * The map holds a binding exactly for the found clues, and the name bound
   * to a clue is the LAST listed name that binds it.
   */
  lemma {:induction false} BindingsKeepLast(names: seq<string>, clues: seq<string>, c: string)
    ensures c in Bindings(names, clues) <==> c in Found(names, clues)
    ensures c in Bindings(names, clues) ==>
              exists j :: 0 <= j < |names| && names[j] == Bindings(names, clues)[c] &&
                          ClueOf(names[j], clues) == Some(c) &&
                          forall j' :: j < j' < |names| ==> ClueOf(names[j'], clues) != Some(c)
    decreases |names|
  {
    if names != [] {
      var prefix := names[..|names| - 1];
      var last := |names| - 1;
      BindingsKeepLast(prefix, clues, c);
      if ClueOf(names[last], clues) == Some(c) {
        assert names[last] == Bindings(names, clues)[c];
      } else if c in Bindings(names, clues) {
        var j :| 0 <= j < |prefix| && prefix[j] == Bindings(prefix, clues)[c] &&
                 ClueOf(prefix[j], clues) == Some(c) &&
                 forall j' :: j < j' < |prefix| ==> ClueOf(prefix[j'], clues) != Some(c);
        assert names[j] == prefix[j];
        forall j' | j < j' < |names|
          ensures ClueOf(names[j'], clues) != Some(c)
        {
          if j' < last {
            assert names[j'] == prefix[j'];
          }
        }
      }
    }
  }

  /** The map's key set is the set of found clues. */
  lemma BindingsKeys(names: seq<string>, clues: seq<string>)
    ensures Bindings(names, clues).Keys == Found(names, clues)
  {
    forall c | c in Bindings(names, clues).Keys || c in Found(names, clues)
      ensures c in Bindings(names, clues).Keys <==> c in Found(names, clues)
    {
      BindingsKeepLast(names, clues, c);
    }
  }

  /** A failed list query is returned as it is, by both forms, and nothing is matched. */
  lemma ListFailurePropagates(e: Error, clues: seq<string>)
    ensures FindResult(Failure(e), clues) == Failure(e)
    ensures ReadResult(Failure(e), clues) == Failure(e)
  {
  }

  /** `FindDeploymentNames` succeeds iff every clue is bound by some listed name. */
  lemma FindSucceedsIff(names: seq<string>, clues: seq<string>)
    ensures FindResult(Success(names), clues).Success? <==>
              forall k :: 0 <= k < |clues| ==> Bound(names, clues, clues[k])
  {
    forall k | 0 <= k < |clues| {
      FoundIff(names, clues, clues[k]);
    }
  }

  /** On success the result is exactly the set of listed names containing some clue. */
  lemma FindSuccessIsMatchedNames(names: seq<string>, clues: seq<string>)
    requires FindResult(Success(names), clues).Success?
    ensures forall n :: n in FindResult(Success(names), clues).value <==> n in names && ContainsSomeClue(n, clues)
  {
    forall n {
      MatchedIff(names, clues, n);
    }
  }

  /**
   * On failure the error names the first clue, in clue order, that no listed
   * name binds, and every earlier clue is bound.
   */
  lemma FindReportsFirstUnbound(names: seq<string>, clues: seq<string>)
    requires FindResult(Success(names), clues).Failure?
    ensures exists i :: 0 <= i < |clues| &&
              FindResult(Success(names), clues).error == ClueNotFound(clues[i]) &&
              !Bound(names, clues, clues[i]) &&
              forall k :: 0 <= k < i ==> Bound(names, clues, clues[k])
  {
    var i := FirstMissing(clues, Found(names, clues)).value;
    FoundIff(names, clues, clues[i]);
    forall k | 0 <= k < i {
      FoundIff(names, clues, clues[k]);
    }
  }

  /** Both forms succeed or fail together, and fail with the same error. */
  lemma ReadAgreesWithFind(listing: Result<seq<string>, Error>, clues: seq<string>)
    ensures ReadResult(listing, clues).Success? <==> FindResult(listing, clues).Success?
    ensures ReadResult(listing, clues).Failure? ==> ReadResult(listing, clues).error == FindResult(listing, clues).error
    ensures ReadResult(listing, clues).Success? ==>
              forall k :: 0 <= k < |ReadResult(listing, clues).value| ==>
                ReadResult(listing, clues).value[k].deployment in FindResult(listing, clues).value
  {
    if listing.Success? {
      var names := listing.value;
      BindingsKeys(names, clues);
      if ReadResult(listing, clues).Success? {
        var ps := ReadResult(listing, clues).value;
        forall k | 0 <= k < |ps|
          ensures ps[k].deployment in Matched(names, clues)
        {
          BindingsKeepLast(names, clues, clues[k]);
          var j :| 0 <= j < |names| && names[j] == Bindings(names, clues)[clues[k]] &&
                   ClueOf(names[j], clues) == Some(clues[k]) &&
                   forall j' :: j < j' < |names| ==> ClueOf(names[j'], clues) != Some(clues[k]);
          ClueOfIsFirstContained(names[j], clues);
          MatchedIff(names, clues, names[j]);
        }
      }
    }
  }

  /**
   * On success `ReadDeploymentNames` returns one pair per clue, in clue order;
   * pair `k` holds `clues[k]` and a listed name containing it that binds it,
   * namely the last such name in list order.
   */
  lemma ReadPairsFollowClues(names: seq<string>, clues: seq<string>)
    requires ReadResult(Success(names), clues).Success?
    ensures |ReadResult(Success(names), clues).value| == |clues|
    ensures forall k :: 0 <= k < |clues| ==>
              var p := ReadResult(Success(names), clues).value[k];
              && p.clue == clues[k]
              && Contains(p.deployment, clues[k])
              && exists j :: 0 <= j < |names| && names[j] == p.deployment &&
                             ClueOf(names[j], clues) == Some(clues[k]) &&
                             forall j' :: j < j' < |names| ==> ClueOf(names[j'], clues) != Some(clues[k])
  {
    var m := Bindings(names, clues);
    var ps := ReadResult(Success(names), clues).value;
    forall k | 0 <= k < |clues|
      ensures && ps[k].clue == clues[k]
              && Contains(ps[k].deployment, clues[k])
              && exists j :: 0 <= j < |names| && names[j] == ps[k].deployment &&
                             ClueOf(names[j], clues) == Some(clues[k]) &&
                             forall j' :: j < j' < |names| ==> ClueOf(names[j'], clues) != Some(clues[k])
    {
      BindingsKeepLast(names, clues, clues[k]);
      var j :| 0 <= j < |names| && names[j] == m[clues[k]] &&
               ClueOf(names[j], clues) == Some(clues[k]) &&
               forall j' :: j < j' < |names| ==> ClueOf(names[j'], clues) != Some(clues[k]);
      var i := FirstClue(names[j], clues).value;
      assert clues[i] == clues[k];
    }
  }

  // ---------------------------------------------------------------------
  // Concrete cases

  /** Clues `a`, `b` against `svc-a-1`, `svc-b-2`: each clue binds its own name. */
  lemma ResolvesTwoServices()
    ensures FindResult(Success(["svc-a-1", "svc-b-2"]), ["a", "b"]) == Success({"svc-a-1", "svc-b-2"})
    ensures ReadResult(Success(["svc-a-1", "svc-b-2"]), ["a", "b"]) ==
              Success([Binding("a", "svc-a-1"), Binding("b", "svc-b-2")])
  {
    var names, clues := ["svc-a-1", "svc-b-2"], ["a", "b"];
    OccursAtContains(names[0], "a", 4);
    OccursAtContains(names[1], "b", 4);
    NotContainsChar(names[1], 'a');
    assert clues[1..] == ["b"];
    assert FirstClue(names[0], clues) == Some(0);
    assert FirstClue(names[1], clues) == Some(1);
    assert names[..1] == ["svc-a-1"] && names[..1][..0] == [];
    assert Found(names, clues) == {"a", "b"};
    assert Matched(names, clues) == {"svc-a-1", "svc-b-2"};
    assert FirstMissing(clues, {"a", "b"}) == None;
    assert Bindings(names, clues) == map["a" := "svc-a-1", "b" := "svc-b-2"];
    assert FirstMissing(clues, Bindings(names, clues).Keys) == None;
    var pairs := ReadResult(Success(names), clues).value;
    assert |pairs| == 2 && pairs[0] == Binding("a", "svc-a-1") && pairs[1] == Binding("b", "svc-b-2");
    assert pairs == [Binding("a", "svc-a-1"), Binding("b", "svc-b-2")];
  }

  /**
   * Clues `a`, `c` against `svc-a-1`, `svc-b-2`: `c` occurs in the `svc`
   * prefix, so `svc-b-2` binds it and the call succeeds.
   */
  lemma ClueMayMatchAnywhereInName()
    ensures FindResult(Success(["svc-a-1", "svc-b-2"]), ["a", "c"]) == Success({"svc-a-1", "svc-b-2"})
    ensures ReadResult(Success(["svc-a-1", "svc-b-2"]), ["a", "c"]) ==
              Success([Binding("a", "svc-a-1"), Binding("c", "svc-b-2")])
  {
    var names, clues := ["svc-a-1", "svc-b-2"], ["a", "c"];
    OccursAtContains(names[0], "a", 4);
    OccursAtContains(names[1], "c", 2);
    NotContainsChar(names[1], 'a');
    assert clues[1..] == ["c"];
    assert FirstClue(names[0], clues) == Some(0);
    assert FirstClue(names[1], clues) == Some(1);
    assert names[..1] == ["svc-a-1"] && names[..1][..0] == [];
    assert Found(names, clues) == {"a", "c"};
    assert Matched(names, clues) == {"svc-a-1", "svc-b-2"};
    assert FirstMissing(clues, {"a", "c"}) == None;
    assert Bindings(names, clues) == map["a" := "svc-a-1", "c" := "svc-b-2"];
    assert FirstMissing(clues, Bindings(names, clues).Keys) == None;
    var pairs := ReadResult(Success(names), clues).value;
    assert |pairs| == 2 && pairs[0] == Binding("a", "svc-a-1") && pairs[1] == Binding("c", "svc-b-2");
    assert pairs == [Binding("a", "svc-a-1"), Binding("c", "svc-b-2")];
  }

  /** Clues `a`, `d` against `svc-a-1`, `svc-b-2`: no name contains `d`, so the call fails naming it. */
  lemma ReportsMissingService()
    ensures FindResult(Success(["svc-a-1", "svc-b-2"]), ["a", "d"]) == Failure(ClueNotFound("d"))
    ensures ReadResult(Success(["svc-a-1", "svc-b-2"]), ["a", "d"]) == Failure(ClueNotFound("d"))
  {
    var names, clues := ["svc-a-1", "svc-b-2"], ["a", "d"];
    OccursAtContains(names[0], "a", 4);
    NotContainsChar(names[1], 'a');
    NotContainsChar(names[1], 'd');
    assert clues[1..] == ["d"];
    assert FirstClue(names[0], clues) == Some(0);
    assert FirstClue(names[1], clues) == None;
    assert names[..1] == ["svc-a-1"] && names[..1][..0] == [];
    assert Found(names, clues) == {"a"};
    assert FirstMissing(clues, {"a"}) == Some(1);
    BindingsKeys(names, clues);
  }

  /**
   * First match, not best match: `xab` contains both `a` and `ab`, but binds
   * only `a`, the earlier clue, so `ab` is reported missing although a listed
   * name contains it.
   */
  lemma ShadowedClueIsMissing()
    ensures Contains("xab", "ab")
    ensures FindResult(Success(["xab"]), ["a", "ab"]) == Failure(ClueNotFound("ab"))
    ensures ReadResult(Success(["xab"]), ["a", "ab"]) == Failure(ClueNotFound("ab"))
  {
    OccursAtContains("xab", "a", 1);
    OccursAtContains("xab", "ab", 1);
    assert FirstClue("xab", ["a", "ab"]) == Some(0);
  }

  /** A one-letter clue absent from a string is not contained in it. */
  lemma {:induction false} NotContainsChar(s: string, ch: char)
    requires forall i :: 0 <= i < |s| ==> s[i] != ch
    ensures !Contains(s, [ch])
    decreases |s|
  {
    if |s| > 0 {
      assert s[..1][0] == s[0];
      NotContainsChar(s[1..], ch);
    }
  }
}
