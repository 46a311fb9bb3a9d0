/** The reconciliation half of `updateDescriptions`: the prior description file and the
    index the scan produced become the new description file. Names that were described
    but no longer occur are kept as missing; every scanned name gets its locations and
    its prior description, if it had one. */
module Reconciler {
  import opened Text
  import opened Scanner
  import opened Sorting

  /** The value written for a name: `{'description': d, 'missing': True}` or
      `{'description': d, 'locations': [...]}`. */
  datatype Touchpoint =
    | Missing(description: string)
    | Present(description: string, locations: seq<Location>)

  /** One key of the description file and its value. */
  datatype Entry = Entry(name: string, touchpoint: Touchpoint)

  /** The new description file: a Python dict, whose keys keep their insertion order. */
  type Descriptions = seq<Entry>

  /** The prior description file as it is read: name -> description (nothing else in an
      entry is looked at). */
  type Prior = map<string, string>

  function KeysOf(d: Descriptions): set<string> {
    set i | 0 <= i < |d| :: d[i].name
  }

  /** `d[name] = t`: a key already there keeps its place and takes the new value, a new
      key goes last. */
  function Put(d: Descriptions, name: string, t: Touchpoint): (r: Descriptions)
    ensures KeysOf(r) == KeysOf(d) + {name}
    ensures forall i :: 0 <= i < |r| && r[i].name == name ==> r[i].touchpoint == t
    ensures name !in KeysOf(d) ==> r == d + [Entry(name, t)]
    ensures name in KeysOf(d) ==>
              |r| == |d| && forall i :: 0 <= i < |d| ==>
                r[i] == if d[i].name == name then Entry(name, t) else d[i]
  {
    if name in KeysOf(d) then
      var r := seq(|d|, i requires 0 <= i < |d| => if d[i].name == name then Entry(name, t) else d[i]);
      assert forall i :: 0 <= i < |d| ==> r[i].name == d[i].name;
      assert forall k :: k in KeysOf(d) ==> k in KeysOf(r) by {
        forall k | k in KeysOf(d)
          ensures k in KeysOf(r)
        {
          var i :| 0 <= i < |d| && d[i].name == k;
          assert r[i].name == k;
        }
      }
      r
    else
      KeysOfAppend(d, Entry(name, t));
      d + [Entry(name, t)]
  }

  lemma KeysOfAppend(d: Descriptions, e: Entry)
    ensures KeysOf(d + [e]) == KeysOf(d) + {e.name}
  {
    var r := d + [e];
    assert r[|d|].name == e.name;
    forall k | k in KeysOf(d)
      ensures k in KeysOf(r)
    {
      var i :| 0 <= i < |d| && d[i].name == k;
      assert r[i].name == k;
    }
  }

  /** The entry written for a name that is described but was not found. */
  function MissingEntry(prior: Prior, name: string): Entry
    requires name in prior
  {
    Entry(name, Missing(prior[name]))
  }

  /** The entry written for a name that was found: its prior description or "", and the
      locations the scan recorded for it. */
  function PresentEntry(prior: Prior, scan: Index, name: string): Entry {
    Entry(name, Present(if name in prior then prior[name] else "", Get(scan, name)))
  }

  function MissingEntries(prior: Prior, names: seq<string>): Descriptions
    requires forall n :: n in names ==> n in prior
  {
    seq(|names|, i requires 0 <= i < |names| => MissingEntry(prior, names[i]))
  }

  function PresentEntries(prior: Prior, scan: Index, names: seq<string>): Descriptions {
    seq(|names|, i requires 0 <= i < |names| => PresentEntry(prior, scan, names[i]))
  }

  // ---------------------------------------------------------------------------
  // The reconciled file
  // ---------------------------------------------------------------------------

  /** A non-empty set of strings has a least element. */
  lemma {:induction false} LeastExists(s: set<string>)
    requires s != {}
    decreases s
    ensures exists m :: m in s && forall y :: y in s ==> !Less(y, m)
  {
    var x :| x in s;
    if s == {x} {
      LessIrreflexive(x);
      assert forall y :: y in s ==> !Less(y, x);
    } else {
      var rest := s - {x};
      LeastExists(rest);
      var m :| m in rest && forall y :: y in rest ==> !Less(y, m);
      if Less(x, m) {
        forall y | y in s
          ensures !Less(y, x)
        {
          if y == x {
            LessIrreflexive(x);
          } else if Less(y, x) {
            LessTransitive(y, x, m);
          }
        }
        assert x in s;
      } else {
        forall y | y in s
          ensures !Less(y, m)
        {
          if y != x {
            assert y in rest;
          }
        }
        assert m in s;
      }
    }
  }

  /** A least element followed by a strictly ascending list of greater elements is
      strictly ascending. */
  lemma LeastFirst(m: string, rest: seq<string>, s: set<string>)
    requires StrictlySorted(rest) && m in s
    requires forall n :: n in rest ==> n in s && n != m
    requires forall y :: y in s ==> !Less(y, m)
    ensures StrictlySorted([m] + rest)
  {
    var r := [m] + rest;
    forall i, j | 0 <= i < j < |r|
      ensures Less(r[i], r[j])
    {
      if i == 0 {
        assert r[j] in rest;
        LessTotal(m, r[j]);
      } else {
        assert r[i] == rest[i - 1] && r[j] == rest[j - 1];
      }
    }
  }

  /** The elements of `s` in ascending order: the least first, then the others. */
  ghost function SortedNames(s: set<string>): (r: seq<string>)
    decreases s
    ensures forall n :: n in r <==> n in s
    ensures StrictlySorted(r)
  {
    if s == {} then []
    else
      LeastExists(s);
      var m :| m in s && forall y :: y in s ==> !Less(y, m);
      var rest := SortedNames(s - {m});
      LeastFirst(m, rest, s);
      [m] + rest
  }

  lemma StrictlySortedNoDuplicates(xs: seq<string>)
    requires StrictlySorted(xs)
    ensures NoDuplicates(xs)
  {
    forall i, j | 0 <= i < j < |xs|
      ensures xs[i] != xs[j]
    {
      LessAsymmetric(xs[i], xs[j]);
    }
  }

  /** Sorting a list of the elements of `s`, in whatever order they were gathered, gives
      the elements of `s` in ascending order. */
  lemma SortGathered(xs: seq<string>, s: set<string>)
    requires Lists(xs, s)
    ensures Sort(xs) == SortedNames(s)
  {
    var r := SortedNames(s);
    StrictlySortedNoDuplicates(r);
    ListsCounts(xs, s);
    ListsCounts(r, s);
    SortSorted(xs);
    StrictlySortedIsSorted(r);
    SortedUnique(Sort(xs), r);
  }

  /** What `updateDescriptions` returns: the missing names (described, not scanned) in
      ascending order, then the scanned names in ascending order. */
  ghost function Reconciled(prior: Prior, scan: Index): Descriptions {
    MissingEntries(prior, SortedNames(prior.Keys - scan.Keys)) + PresentEntries(prior, scan, SortedNames(scan.Keys))
  }

  // ---------------------------------------------------------------------------
  // The imperative reconciliation
  // ---------------------------------------------------------------------------

  /** The two loops that sort names into groups: a described name is missing when the
      scan did not find it and present otherwise, and a scanned name that was not
      described is present too. Dict keys are visited in an unspecified order. */
  method GatherNames(descriptions: Prior, touchpoints: Index)
    returns (missingTouchpointNames: seq<string>, touchpointNames: seq<string>)
    ensures Lists(missingTouchpointNames, descriptions.Keys - touchpoints.Keys)
    ensures Lists(touchpointNames, touchpoints.Keys)
  {
    missingTouchpointNames, touchpointNames := [], [];
    var unvisited := descriptions.Keys;
    while unvisited != {}
      invariant unvisited <= descriptions.Keys
      invariant Lists(missingTouchpointNames, (descriptions.Keys - unvisited) - touchpoints.Keys)
      invariant Lists(touchpointNames, (descriptions.Keys - unvisited) * touchpoints.Keys)
      decreases unvisited
    {
      var touchpointName :| touchpointName in unvisited;
      if touchpointName in touchpoints {
        AppendFresh(touchpointNames, touchpointName);
        touchpointNames := touchpointNames + [touchpointName];
      } else {
        AppendFresh(missingTouchpointNames, touchpointName);
        missingTouchpointNames := missingTouchpointNames + [touchpointName];
      }
      unvisited := unvisited - {touchpointName};
    }
    unvisited := touchpoints.Keys;
    while unvisited != {}
      invariant unvisited <= touchpoints.Keys
      invariant Lists(touchpointNames, descriptions.Keys * touchpoints.Keys
                                       + ((touchpoints.Keys - unvisited) - descriptions.Keys))
      decreases unvisited
    {
      var touchpointName :| touchpointName in unvisited;
      if touchpointName !in descriptions {
        AppendFresh(touchpointNames, touchpointName);
        touchpointNames := touchpointNames + [touchpointName];
      }
      unvisited := unvisited - {touchpointName};
    }
  }

  /** A name that is not among the names written so far is not yet a key. */
  lemma NotYetKey(d: Descriptions, names: seq<string>, n: string)
    requires |d| == |names| && forall i :: 0 <= i < |d| ==> d[i].name == names[i]
    requires forall i :: 0 <= i < |names| ==> names[i] != n
    ensures n !in KeysOf(d)
  {
    forall i | 0 <= i < |d|
      ensures d[i].name != n
    {
      assert d[i].name == names[i];
    }
  }

  /** The i-th missing name is not yet a key when the first i missing entries are written. */
  lemma MissingNotYetKey(prior: Prior, ms: seq<string>, i: nat)
    requires forall n :: n in ms ==> n in prior
    requires NoDuplicates(ms) && i < |ms|
    ensures ms[i] !in KeysOf(MissingEntries(prior, ms[..i]))
  {
    var d := MissingEntries(prior, ms[..i]);
    assert forall j :: 0 <= j < |d| ==> d[j].name == ms[..i][j];
    NotYetKey(d, ms[..i], ms[i]);
  }

  /** The i-th present name is not yet a key when all missing entries and the first i
      present entries are written. */
  lemma PresentNotYetKey(prior: Prior, scan: Index, ms: seq<string>, ts: seq<string>, i: nat)
    requires forall n :: n in ms ==> n in prior && n !in scan
    requires forall n :: n in ts ==> n in scan
    requires NoDuplicates(ts) && i < |ts|
    ensures ts[i] !in KeysOf(MissingEntries(prior, ms) + PresentEntries(prior, scan, ts[..i]))
  {
    var d := MissingEntries(prior, ms) + PresentEntries(prior, scan, ts[..i]);
    var written := ms + ts[..i];
    forall j | 0 <= j < |d|
      ensures d[j].name == written[j]
    {
      if j >= |ms| {
        assert d[j] == PresentEntries(prior, scan, ts[..i])[j - |ms|];
      }
    }
    forall j | 0 <= j < |written|
      ensures written[j] != ts[i]
    {
      if j < |ms| {
        assert written[j] in ms;
      } else {
        assert written[j] == ts[j - |ms|];
      }
    }
    NotYetKey(d, written, ts[i]);
  }

  /** The two loops that fill `newDescriptions`: the missing names first, then the
      present ones, each in the order given. */
  method BuildDescriptions(descriptions: Prior, touchpoints: Index,
                           missingTouchpointNames: seq<string>, touchpointNames: seq<string>)
    returns (newDescriptions: Descriptions)
    requires forall n :: n in missingTouchpointNames ==> n in descriptions && n !in touchpoints
    requires forall n :: n in touchpointNames ==> n in touchpoints
    requires NoDuplicates(missingTouchpointNames) && NoDuplicates(touchpointNames)
    ensures newDescriptions == MissingEntries(descriptions, missingTouchpointNames)
                               + PresentEntries(descriptions, touchpoints, touchpointNames)
  {
    newDescriptions := [];
    for i := 0 to |missingTouchpointNames|
      invariant newDescriptions == MissingEntries(descriptions, missingTouchpointNames[..i])
    {
      var touchpointName := missingTouchpointNames[i];
      MissingNotYetKey(descriptions, missingTouchpointNames, i);
      newDescriptions := Put(newDescriptions, touchpointName, Missing(descriptions[touchpointName]));
      assert missingTouchpointNames[..i + 1] == missingTouchpointNames[..i] + [touchpointName];
    }
    ghost var missing := newDescriptions;
    assert missingTouchpointNames[..|missingTouchpointNames|] == missingTouchpointNames;
    for i := 0 to |touchpointNames|
      invariant newDescriptions
                == missing + PresentEntries(descriptions, touchpoints, touchpointNames[..i])
    {
      var touchpointName := touchpointNames[i];
      PresentNotYetKey(descriptions, touchpoints, missingTouchpointNames, touchpointNames, i);
      newDescriptions := Put(newDescriptions, touchpointName, Present(
        if touchpointName in descriptions then descriptions[touchpointName] else "",
        if touchpointName in touchpoints then touchpoints[touchpointName] else []));
      assert touchpointNames[..i + 1] == touchpointNames[..i] + [touchpointName];
    }
    assert touchpointNames[..|touchpointNames|] == touchpointNames;
  }

  /** `updateDescriptions(descriptions, touchpoints)` after the walk has produced the
      index `touchpoints`. */
  method UpdateDescriptions(descriptions: Prior, touchpoints: Index)
    returns (newDescriptions: Descriptions)
    ensures newDescriptions == Reconciled(descriptions, touchpoints)
  {
    var missingTouchpointNames, touchpointNames := GatherNames(descriptions, touchpoints);
    SortGathered(missingTouchpointNames, descriptions.Keys - touchpoints.Keys);
    SortGathered(touchpointNames, touchpoints.Keys);
    missingTouchpointNames := Sort(missingTouchpointNames);
    touchpointNames := Sort(touchpointNames);
    StrictlySortedNoDuplicates(missingTouchpointNames);
    StrictlySortedNoDuplicates(touchpointNames);
    newDescriptions := BuildDescriptions(descriptions, touchpoints,
                                         missingTouchpointNames, touchpointNames);
  }

  // ---------------------------------------------------------------------------
  // What the reconciled file holds
  // ---------------------------------------------------------------------------

  /** The `i`-th entry of the reconciled file: a missing name while `i` is below the
      number of missing names, a scanned name after that. */
  lemma ReconciledAt(prior: Prior, scan: Index, i: nat)
    ensures var missing := SortedNames(prior.Keys - scan.Keys);
            var present := SortedNames(scan.Keys);
            |Reconciled(prior, scan)| == |missing| + |present|
            && (i < |missing| ==> missing[i] in prior && missing[i] !in scan
                                  && Reconciled(prior, scan)[i] == MissingEntry(prior, missing[i]))
            && (|missing| <= i < |missing| + |present| ==>
                  present[i - |missing|] in scan
                  && Reconciled(prior, scan)[i] == PresentEntry(prior, scan, present[i - |missing|]))
  {
    var missing := SortedNames(prior.Keys - scan.Keys);
    var present := SortedNames(scan.Keys);
    var before := MissingEntries(prior, missing);
    var after := PresentEntries(prior, scan, present);
    assert Reconciled(prior, scan) == before + after;
    if i < |missing| {
      assert missing[i] in missing;
      assert (before + after)[i] == before[i];
    } else if i < |missing| + |present| {
      assert present[i - |missing|] in present;
      assert (before + after)[i] == after[i - |missing|];
    }
  }

  /** The keys of the reconciled file are the described names and the scanned names. */
  lemma ReconciledKeys(prior: Prior, scan: Index)
    ensures KeysOf(Reconciled(prior, scan)) == prior.Keys + scan.Keys
  {
    var out := Reconciled(prior, scan);
    forall n | n in prior.Keys + scan.Keys
      ensures n in KeysOf(out)
    {
      ReconciledHas(prior, scan, n);
    }
    forall k | k in KeysOf(out)
      ensures k in prior.Keys + scan.Keys
    {
      var i :| 0 <= i < |out| && out[i].name == k;
      ReconciledAt(prior, scan, i);
      assert k in SortedNames(prior.Keys - scan.Keys) || k in SortedNames(scan.Keys);
    }
  }

  lemma InKeysOf(d: Descriptions, i: nat)
    requires i < |d|
    ensures d[i].name in KeysOf(d)
  {
  }

  lemma ReconciledHas(prior: Prior, scan: Index, n: string)
    requires n in prior.Keys + scan.Keys
    ensures n in KeysOf(Reconciled(prior, scan))
  {
    var missing := SortedNames(prior.Keys - scan.Keys);
    var present := SortedNames(scan.Keys);
    var before := MissingEntries(prior, missing);
    var after := PresentEntries(prior, scan, present);
    var out := before + after;
    assert Reconciled(prior, scan) == out;
    if n in scan {
      assert n in present;
      var i :| 0 <= i < |present| && present[i] == n;
      assert out[|before| + i] == after[i];
      InKeysOf(out, |before| + i);
    } else {
      assert n in missing;
      var k :| 0 <= k < |missing| && missing[k] == n;
      assert out[k] == before[k];
      InKeysOf(out, k);
    }
  }

  /** Each name occurs once in the reconciled file. */
  lemma ReconciledDistinct(prior: Prior, scan: Index)
    ensures forall i, j :: 0 <= i < j < |Reconciled(prior, scan)| ==>
              Reconciled(prior, scan)[i].name != Reconciled(prior, scan)[j].name
  {
    var out := Reconciled(prior, scan);
    var missing := SortedNames(prior.Keys - scan.Keys);
    var present := SortedNames(scan.Keys);
    forall i, j | 0 <= i < j < |out|
      ensures out[i].name != out[j].name
    {
      ReconciledAt(prior, scan, i);
      ReconciledAt(prior, scan, j);
      if j < |missing| {
        LessIrreflexive(missing[i]);
      } else if i >= |missing| {
        LessIrreflexive(present[i - |missing|]);
      }
    }
  }

  /** An entry is marked missing exactly when its name was described but not scanned. */
  lemma ReconciledMissingIff(prior: Prior, scan: Index)
    ensures forall i :: 0 <= i < |Reconciled(prior, scan)| ==>
              var e := Reconciled(prior, scan)[i];
              e.touchpoint.Missing? <==> e.name in prior && e.name !in scan
  {
    forall i | 0 <= i < |Reconciled(prior, scan)|
      ensures var e := Reconciled(prior, scan)[i];
              e.touchpoint.Missing? <==> e.name in prior && e.name !in scan
    {
      ReconciledAt(prior, scan, i);
    }
  }

  /** A missing entry keeps its prior description; a present entry has its prior
      description or "" and exactly the locations the scan recorded for its name. */
  lemma ReconciledValues(prior: Prior, scan: Index)
    ensures forall i :: 0 <= i < |Reconciled(prior, scan)| ==>
              var e := Reconciled(prior, scan)[i];
              match e.touchpoint
              case Missing(description) =>
                e.name in prior && description == prior[e.name]
              case Present(description, locations) =>
                e.name in scan && locations == scan[e.name]
                && description == if e.name in prior then prior[e.name] else ""
  {
    forall i | 0 <= i < |Reconciled(prior, scan)|
      ensures var e := Reconciled(prior, scan)[i];
              match e.touchpoint
              case Missing(description) =>
                e.name in prior && description == prior[e.name]
              case Present(description, locations) =>
                e.name in scan && locations == scan[e.name]
                && description == if e.name in prior then prior[e.name] else ""
    {
      ReconciledAt(prior, scan, i);
    }
  }

  /** All missing entries come first; within each group the names ascend. */
  lemma ReconciledOrder(prior: Prior, scan: Index)
    ensures forall i, j :: 0 <= i < j < |Reconciled(prior, scan)| ==>
              var a, b := Reconciled(prior, scan)[i], Reconciled(prior, scan)[j];
              (b.touchpoint.Missing? ==> a.touchpoint.Missing?)
              && (a.touchpoint.Missing? == b.touchpoint.Missing? ==> Less(a.name, b.name))
  {
    var out := Reconciled(prior, scan);
    var missing := SortedNames(prior.Keys - scan.Keys);
    var present := SortedNames(scan.Keys);
    forall i, j | 0 <= i < j < |out|
      ensures out[j].touchpoint.Missing? ==> out[i].touchpoint.Missing?
      ensures out[i].touchpoint.Missing? == out[j].touchpoint.Missing? ==> Less(out[i].name, out[j].name)
    {
      ReconciledAt(prior, scan, i);
      ReconciledAt(prior, scan, j);
    }
  }

  // ---------------------------------------------------------------------------
  // Reconciling twice
  // ---------------------------------------------------------------------------

  /** The description file as the next run reads it back: name -> description. */
  function PriorOf(d: Descriptions): (p: Prior)
    ensures p.Keys == KeysOf(d)
  {
    if d == [] then map[]
    else
      var last := d[|d| - 1];
      assert d == d[..|d| - 1] + [last];
      KeysOfAppend(d[..|d| - 1], last);
      PriorOf(d[..|d| - 1])[last.name := last.touchpoint.description]
  }

  /** In a file whose names are distinct, each name reads back as its entry's description. */
  lemma {:induction false} PriorOfLookup(d: Descriptions, i: nat)
    requires i < |d|
    requires forall j, k :: 0 <= j < k < |d| ==> d[j].name != d[k].name
    ensures PriorOf(d)[d[i].name] == d[i].touchpoint.description
  {
    if i < |d| - 1 {
      PriorOfLookup(d[..|d| - 1], i);
    }
  }

  /** Read back, the new file describes the described names and the scanned names, so
      the same names are missing the second time. */
  lemma SameMissingNames(prior: Prior, scan: Index)
    ensures PriorOf(Reconciled(prior, scan)).Keys - scan.Keys == prior.Keys - scan.Keys
  {
    ReconciledKeys(prior, scan);
  }

  lemma IdempotentAt(prior: Prior, scan: Index, i: nat)
    requires i < |Reconciled(prior, scan)|
    ensures i < |Reconciled(PriorOf(Reconciled(prior, scan)), scan)|
    ensures Reconciled(PriorOf(Reconciled(prior, scan)), scan)[i] == Reconciled(prior, scan)[i]
  {
    var out := Reconciled(prior, scan);
    var again := PriorOf(out);
    var missing := SortedNames(prior.Keys - scan.Keys);
    var present := SortedNames(scan.Keys);
    SameMissingNames(prior, scan);
    assert SortedNames(again.Keys - scan.Keys) == missing;
    ReconciledAt(prior, scan, i);
    ReconciledAt(again, scan, i);
    ReconciledDistinct(prior, scan);
    PriorOfLookup(out, i);
    var n := out[i].name;
    assert n in again.Keys;
    if i < |missing| {
      assert again[n] == prior[n];
    } else {
      assert again[n] == if n in prior then prior[n] else "";
    }
  }

  lemma IdempotentLength(prior: Prior, scan: Index)
    ensures |Reconciled(PriorOf(Reconciled(prior, scan)), scan)| == |Reconciled(prior, scan)|
  {
    var again := PriorOf(Reconciled(prior, scan));
    SameMissingNames(prior, scan);
    assert SortedNames(again.Keys - scan.Keys) == SortedNames(prior.Keys - scan.Keys);
    ReconciledAt(prior, scan, 0);
    ReconciledAt(again, scan, 0);
  }

  /** Reconciling the new file again against the same scan reproduces it. */
  lemma ReconciledIdempotent(prior: Prior, scan: Index)
    ensures Reconciled(PriorOf(Reconciled(prior, scan)), scan) == Reconciled(prior, scan)
  {
    var out := Reconciled(prior, scan);
    var out2 := Reconciled(PriorOf(out), scan);
    IdempotentLength(prior, scan);
    forall i | 0 <= i < |out|
      ensures out2[i] == out[i]
    {
      IdempotentAt(prior, scan, i);
    }
  }
}
