/** The marker scan over the text of one file (`findTouchpoints` without the file read,
    and `countLines`). A touchpoint is recorded for an occurrence of the marker: its name
    is the stripped rest of the line, its location the file and the 1-based line number. */
module Scanner {
  import opened Text

  /** Where a marker occurrence was found. */
  datatype Location = Location(file: string, line: nat)

  /** Touchpoints found so far: name -> locations, in discovery order. */
  type Index = map<string, seq<Location>>

  /** The list recorded for `name` so far (none yet is the empty list). */
  function Get(index: Index, name: string): seq<Location> {
    if name in index then index[name] else []
  }

  // ---------------------------------------------------------------------------
  // The pieces of one round of the scan
  // ---------------------------------------------------------------------------

  /** `marker` occurs in `s` starting at index `i`. */
  predicate MarkerAt(s: string, marker: string, i: nat) {
    i + |marker| <= |s| && s[i..i + |marker|] == marker
  }

  /** The characters of `marker` from `j` on occur in `s` from `i + j` on. */
  predicate MatchesFrom(s: string, marker: string, i: nat, j: nat)
    requires i + |marker| <= |s| && j <= |marker|
    decreases |marker| - j
  {
    j == |marker| || (s[i + j] == marker[j] && MatchesFrom(s, marker, i, j + 1))
  }

  /** Comparing character by character is comparing the slice. */
  lemma {:induction false} MatchesFromIsMarkerAt(s: string, marker: string, i: nat, j: nat)
    requires i + |marker| <= |s| && j <= |marker|
    decreases |marker| - j
    ensures MatchesFrom(s, marker, i, j) <==> forall k :: j <= k < |marker| ==> s[i + k] == marker[k]
  {
    if j < |marker| {
      MatchesFromIsMarkerAt(s, marker, i, j + 1);
    }
  }

  /** Python's `s.index(marker, start)`: the first occurrence of `marker` at or after
      `start`; `None` stands for the `ValueError` raised when there is none (which is
      also the case whenever `start > |s|`, even for an empty marker). */
  function Find(s: string, marker: string, start: nat): (r: Option<nat>)
    decreases |s| + 1 - start
    ensures r.Some? ==> start <= r.value && r.value + |marker| <= |s|
  {
    if start + |marker| > |s| then None
    else if MatchesFrom(s, marker, start, 0) then Some(start)
    else Find(s, marker, start + 1)
  }

  /** `Find` returns the first occurrence at or after `start`, and fails only when there
      is none. */
  lemma {:induction false} FindFacts(s: string, marker: string, start: nat)
    decreases |s| + 1 - start
    ensures var r := Find(s, marker, start);
            (r.Some? ==> MarkerAt(s, marker, r.value)
                         && forall i :: start <= i < r.value ==> !MarkerAt(s, marker, i))
            && (r.None? ==> forall i :: start <= i ==> !MarkerAt(s, marker, i))
  {
    if start + |marker| <= |s| {
      MatchesFromIsMarkerAt(s, marker, start, 0);
      if MatchesFrom(s, marker, start, 0) {
        assert s[start..start + |marker|] == marker;
      } else {
        FindFacts(s, marker, start + 1);
      }
    }
  }

  /** Where the inner loop of the scan stops when it starts at `from`: the first '\n' at
      or after `from`, or the end of the text when there is none. */
  function LineEnd(s: string, from: nat): (e: nat)
    decreases |s| - from
    ensures from <= e && (from <= |s| ==> e <= |s|)
    ensures e < |s| ==> s[e] == '\n'
  {
    if from < |s| && s[from] != '\n' then LineEnd(s, from + 1) else from
  }

  /** No line break lies between `from` and the end of its line. */
  lemma {:induction false} LineEndFacts(s: string, from: nat)
    decreases |s| - from
    ensures forall k :: from <= k < LineEnd(s, from) ==> k < |s| && s[k] != '\n'
  {
    if from < |s| && s[from] != '\n' {
      assert LineEnd(s, from) == LineEnd(s, from + 1);
      LineEndFacts(s, from + 1);
    } else {
      assert LineEnd(s, from) == from;
    }
  }

  /** Python's `s[a:b]` for non-negative bounds: both are cut down to `|s|`, and the
      slice is empty when the start is past the stop. */
  function Slice(s: string, a: nat, b: nat): (r: string)
    ensures |r| <= |s|
  {
    var a', b' := if a < |s| then a else |s|, if b < |s| then b else |s|;
    if a' <= b' then s[a'..b'] else []
  }

  /** Within bounds, the slice is the characters from `a` up to `b`. */
  lemma SliceFacts(s: string, a: nat, b: nat)
    requires a <= |s| && b <= |s|
    ensures |Slice(s, a, b)| == if a <= b then b - a else 0
    ensures forall k :: 0 <= k < |Slice(s, a, b)| ==> Slice(s, a, b)[k] == s[a + k]
  {
  }

  /** `min(max(endIndex, 0), n)`: how far `countLines` looks. */
  function Clamp(endIndex: int, n: nat): (r: nat)
    ensures r <= n && (0 <= endIndex <= n ==> r == endIndex)
  {
    if endIndex < 0 then 0 else if endIndex < n then endIndex else n
  }

  /** What `countLines(buffer, endIndex)` returns: the line breaks among the first
      `endIndex` characters (all of them when `endIndex` is past the end). */
  function LinesBefore(buffer: string, endIndex: int): nat {
    NewlinesBefore(buffer, Clamp(endIndex, |buffer|))
  }

  /** The 1-based line that index `p` is on. */
  function LineOf(s: string, p: nat): (line: nat)
    ensures line >= 1
  {
    LinesBefore(s, p) + 1
  }

  /** One recorded occurrence: its index in the text, its name and its line. */
  datatype Hit = Hit(position: nat, name: string, line: nat)

  /** What the scan records for the occurrence of `marker` at `p`: the name is the
      stripped text from the end of the marker to the end of the line (the end of the
      line is searched from the start of the marker, so a marker that contains a line
      break yields ""), the line is the line `p` is on. */
  function HitAt(s: string, marker: string, p: nat): Hit {
    Hit(p, Strip(Slice(s, p + |marker|, LineEnd(s, p))), LineOf(s, p))
  }

  /** The positions at which the scan loop records an occurrence when its search starts
      at `start`: find the next marker, record it, resume just past the end of its line. */
  function Positions(s: string, marker: string, start: nat): seq<nat>
    decreases |s| + 1 - start
  {
    match Find(s, marker, start)
    case None => []
    case Some(p) => [p] + Positions(s, marker, LineEnd(s, p) + 1)
  }

  /** The hits recorded at the positions `ps`, in order. */
  function HitsAt(s: string, marker: string, ps: seq<nat>): seq<Hit> {
    if ps == [] then [] else [HitAt(s, marker, ps[0])] + HitsAt(s, marker, ps[1..])
  }

  /** Everything the scan of a whole file records, in order. */
  function Scan(s: string, marker: string): seq<Hit> {
    HitsAt(s, marker, Positions(s, marker, 0))
  }

  // ---------------------------------------------------------------------------
  // Recording into the index
  // ---------------------------------------------------------------------------

  /** `touchpoints[name].append(location)`, creating the list for a new name. */
  function Append(index: Index, name: string, loc: Location): Index {
    index[name := Get(index, name) + [loc]]
  }

  /** The index after recording `hits` of `file`, in order. */
  function AddHits(index: Index, file: string, hits: seq<Hit>): Index
    decreases |hits|
  {
    if hits == [] then index
    else AddHits(Append(index, hits[0].name, Location(file, hits[0].line)), file, hits[1..])
  }

  /** One round of the scan loop from `start`: `None` when no marker is left (the
      `ValueError` that ends the loop), otherwise where the next round starts and the
      index after recording the occurrence found. */
  function Round(s: string, marker: string, file: string, start: nat, index: Index)
    : (r: Option<(nat, Index)>)
    ensures r.Some? ==> start < r.value.0 <= |s| + 1
  {
    match Find(s, marker, start)
    case None => None
    case Some(p) =>
      var h := HitAt(s, marker, p);
      Some((LineEnd(s, p) + 1, Append(index, h.name, Location(file, h.line))))
  }

  /** The scan loop run from `start` on the index `index`, one round per recursive call. */
  function Run(s: string, marker: string, file: string, start: nat, index: Index): Index
    decreases |s| + 1 - start
  {
    match Round(s, marker, file, start, index)
    case None => index
    case Some((next, after)) => Run(s, marker, file, next, after)
  }

  /** When the search from `start` finds `p`, the positions from `start` are `p` and
      then those from past the end of `p`'s line. */
  lemma PositionsStep(s: string, marker: string, start: nat, p: nat)
    requires Find(s, marker, start) == Some(p)
    ensures Positions(s, marker, start) == [p] + Positions(s, marker, LineEnd(s, p) + 1)
  {
  }

  lemma HitsAtCons(s: string, marker: string, p: nat, ps: seq<nat>)
    ensures HitsAt(s, marker, [p] + ps) == [HitAt(s, marker, p)] + HitsAt(s, marker, ps)
  {
    assert ([p] + ps)[1..] == ps;
  }

  lemma AddHitsCons(index: Index, file: string, h: Hit, hits: seq<Hit>)
    ensures AddHits(index, file, [h] + hits)
            == AddHits(Append(index, h.name, Location(file, h.line)), file, hits)
  {
    assert ([h] + hits)[1..] == hits;
  }

  /** Running the loop from `start` records the hits at the positions found from `start`. */
  lemma {:induction false} RunRecords(s: string, marker: string, file: string, start: nat, index: Index)
    decreases |s| + 1 - start
    ensures Run(s, marker, file, start, index)
            == AddHits(index, file, HitsAt(s, marker, Positions(s, marker, start)))
  {
    match Round(s, marker, file, start, index)
    case None =>
      assert Positions(s, marker, start) == [];
    case Some((next, after)) =>
      var p := Find(s, marker, start).value;
      var rest := Positions(s, marker, next);
      RunRecords(s, marker, file, next, after);
      PositionsStep(s, marker, start, p);
      HitsAtCons(s, marker, p, rest);
      AddHitsCons(index, file, HitAt(s, marker, p), HitsAt(s, marker, rest));
  }

  // ---------------------------------------------------------------------------
  // The imperative scan
  // ---------------------------------------------------------------------------

  /** `countLines(buffer, endIndex)`. */
  method CountLines(buffer: string, endIndex: int) returns (count: nat)
    ensures count == LinesBefore(buffer, endIndex)
  {
    count := 0;
    var i := 0;
    while i < endIndex && i < |buffer|
      invariant 0 <= i <= Clamp(endIndex, |buffer|)
      invariant count == NewlinesBefore(buffer, i)
    {
      if buffer[i] == '\n' {
        count := count + 1;
      }
      i := i + 1;
    }
  }

  /** The dictionary update of `findTouchpoints`: create an empty list for a new name,
      then append the location to the name's list. */
  method Record(touchpoints: Index, name: string, location: Location) returns (result: Index)
    ensures result == Append(touchpoints, name, location)
  {
    result := touchpoints;
    if name !in result {
      result := result[name := []];
    }
    result := result[name := result[name] + [location]];
  }

  /** The inner loop of `findTouchpoints`: advance from the marker to the next '\n' or
      to the end of the text. */
  method SkipToLineEnd(contents: string, markerIndex: nat) returns (newlineIndex: nat)
    ensures newlineIndex == LineEnd(contents, markerIndex)
  {
    newlineIndex := markerIndex;
    while newlineIndex < |contents| && contents[newlineIndex] != '\n'
      invariant markerIndex <= newlineIndex
      invariant LineEnd(contents, newlineIndex) == LineEnd(contents, markerIndex)
      decreases |contents| - newlineIndex
    {
      newlineIndex := newlineIndex + 1;
    }
  }

  /** The body of the scan loop once the marker at `markerIndex` and the end of its
      line are known: the name is the stripped rest of the line, the location the file
      and the line number, and the location is appended to the name's list. */
  method RecordOccurrence(marker: string, file: string, contents: string, markerIndex: nat,
                          newlineIndex: nat, touchpoints: Index) returns (result: Index)
    requires newlineIndex == LineEnd(contents, markerIndex)
    ensures result == Append(touchpoints, HitAt(contents, marker, markerIndex).name,
                             Location(file, HitAt(contents, marker, markerIndex).line))
  {
    var name := Strip(Slice(contents, markerIndex + |marker|, newlineIndex));
    var lines := CountLines(contents, markerIndex);
    var location := Location(file, lines + 1);
    result := Record(touchpoints, name, location);
  }

  /** One pass through the `try` block of the scan loop: look for the marker from
      `markerIndex`; when there is one, record it and move past the end of its line
      (`found`), otherwise leave the index alone (the `ValueError` that ends the loop). */
  method ScanRound(marker: string, file: string, contents: string, markerIndex: nat,
                   touchpoints: Index) returns (found: bool, next: nat, result: Index)
    ensures Round(contents, marker, file, markerIndex, touchpoints)
            == if found then Some((next, result)) else None
    ensures !found ==> next == markerIndex && result == touchpoints
  {
    var at := Find(contents, marker, markerIndex);
    if at.None? {
      return false, markerIndex, touchpoints;
    }
    var newlineIndex := SkipToLineEnd(contents, at.value);
    result := RecordOccurrence(marker, file, contents, at.value, newlineIndex, touchpoints);
    found, next := true, newlineIndex + 1;
  }

  /** `findTouchpoints(marker, file, touchpoints)` once the file is read into `contents`:
      records every occurrence `Scan` describes, in order (`AddHitsAppends` says what
      that does to each entry). */
  method FindTouchpoints(marker: string, file: string, contents: string, touchpoints: Index)
    returns (result: Index)
    ensures result == AddHits(touchpoints, file, Scan(contents, marker))
  {
    result := touchpoints;
    var markerIndex: nat := 0;
    var more := true;
    while more
      invariant markerIndex <= |contents| + 1
      invariant Run(contents, marker, file, markerIndex, result)
                == Run(contents, marker, file, 0, touchpoints)
      invariant !more ==> Round(contents, marker, file, markerIndex, result) == None
      decreases more, |contents| + 1 - markerIndex
    {
      more, markerIndex, result := ScanRound(marker, file, contents, markerIndex, result);
    }
    RunRecords(contents, marker, file, 0, touchpoints);
  }

  // ---------------------------------------------------------------------------
  // Where the scan records occurrences
  // ---------------------------------------------------------------------------

  /** Every recorded position holds an occurrence of the marker at or after `start`. */
  lemma {:induction false} PositionsSound(s: string, marker: string, start: nat)
    decreases |s| + 1 - start
    ensures forall i :: 0 <= i < |Positions(s, marker, start)| ==>
              start <= Positions(s, marker, start)[i]
              && MarkerAt(s, marker, Positions(s, marker, start)[i])
  {
    match Find(s, marker, start)
    case None =>
    case Some(p) =>
      FindFacts(s, marker, start);
      assert MarkerAt(s, marker, p);
      var rest := Positions(s, marker, LineEnd(s, p) + 1);
      var ps := Positions(s, marker, start);
      PositionsSound(s, marker, LineEnd(s, p) + 1);
      assert ps == [p] + rest;
      forall i | 0 <= i < |ps|
        ensures start <= ps[i] && MarkerAt(s, marker, ps[i])
      {
        if i > 0 {
          assert ps[i] == rest[i - 1];
        }
      }
  }

  /** Each recorded position lies past the line of the one before: positions increase,
      and a line break separates any two of them. */
  lemma {:induction false} PositionsOrdered(s: string, marker: string, start: nat)
    decreases |s| + 1 - start
    ensures forall i, j :: 0 <= i < j < |Positions(s, marker, start)| ==>
              LineEnd(s, Positions(s, marker, start)[i]) < Positions(s, marker, start)[j]
  {
    match Find(s, marker, start)
    case None =>
    case Some(p) =>
      var e := LineEnd(s, p);
      var rest := Positions(s, marker, e + 1);
      var ps := Positions(s, marker, start);
      assert ps == [p] + rest;
      PositionsOrdered(s, marker, e + 1);
      PositionsSound(s, marker, e + 1);
      forall i, j | 0 <= i < j < |ps|
        ensures LineEnd(s, ps[i]) < ps[j]
      {
        assert ps[j] == rest[j - 1];
        if i > 0 {
          assert ps[i] == rest[i - 1];
        }
      }
  }

  /** Every occurrence of the marker at or after `start` is on the line of a recorded
      position at or before it: a later occurrence on the same line is skipped, but no
      line with an occurrence goes unrecorded. */
  lemma {:induction false} PositionsCoverLines(s: string, marker: string, start: nat, q: nat)
    requires start <= q && MarkerAt(s, marker, q)
    decreases |s| + 1 - start
    ensures exists i :: 0 <= i < |Positions(s, marker, start)|
              && Positions(s, marker, start)[i] <= q
              && q <= LineEnd(s, Positions(s, marker, start)[i])
  {
    FindFacts(s, marker, start);
    assert Find(s, marker, start).Some?;
    var p := Find(s, marker, start).value;
    assert p <= q;
    var e := LineEnd(s, p);
    var rest := Positions(s, marker, e + 1);
    var ps := Positions(s, marker, start);
    assert ps == [p] + rest;
    if q <= e {
      assert ps[0] == p;
    } else {
      PositionsCoverLines(s, marker, e + 1, q);
      var i :| 0 <= i < |rest| && rest[i] <= q && q <= LineEnd(s, rest[i]);
      assert ps[i + 1] == rest[i];
    }
  }

  // ---------------------------------------------------------------------------
  // What the scan records
  // ---------------------------------------------------------------------------

  /** The hits are those of the positions, one for one. */
  lemma {:induction false} HitsAtFacts(s: string, marker: string, ps: seq<nat>)
    ensures |HitsAt(s, marker, ps)| == |ps|
    ensures forall i :: 0 <= i < |ps| ==> HitsAt(s, marker, ps)[i] == HitAt(s, marker, ps[i])
  {
    if ps != [] {
      HitsAtFacts(s, marker, ps[1..]);
    }
  }

  /** A line break between `i` and `j` puts `j` on a later line than `i`. */
  lemma LaterLine(s: string, i: nat, j: nat, k: nat)
    requires i <= k < j <= |s| && s[k] == '\n'
    ensures LineOf(s, i) < LineOf(s, j)
  {
    NewlinesBetween(s, i, j);
  }

  /** No line break between `i` and `j` keeps them on the same line. */
  lemma SameLine(s: string, i: nat, j: nat)
    requires i <= j <= |s|
    requires forall k :: i <= k < j ==> s[k] != '\n'
    ensures LineOf(s, i) == LineOf(s, j)
  {
    NewlinesBetween(s, i, j);
  }

  /** Every recorded hit is an occurrence of the marker, with the name and line that
      `HitAt` gives it. */
  lemma ScanSound(s: string, marker: string)
    ensures forall i :: 0 <= i < |Scan(s, marker)| ==>
              MarkerAt(s, marker, Scan(s, marker)[i].position)
              && Scan(s, marker)[i] == HitAt(s, marker, Scan(s, marker)[i].position)
  {
    PositionsSound(s, marker, 0);
    HitsAtFacts(s, marker, Positions(s, marker, 0));
  }

  /** Hits are recorded left to right, each on a later line than the one before: at
      most one touchpoint is recorded per line. */
  lemma ScanOrdered(s: string, marker: string)
    ensures forall i, j :: 0 <= i < j < |Scan(s, marker)| ==>
              Scan(s, marker)[i].position < Scan(s, marker)[j].position
              && Scan(s, marker)[i].line < Scan(s, marker)[j].line
  {
    var ps := Positions(s, marker, 0);
    var hits := Scan(s, marker);
    PositionsSound(s, marker, 0);
    PositionsOrdered(s, marker, 0);
    HitsAtFacts(s, marker, ps);
    forall i, j | 0 <= i < j < |hits|
      ensures hits[i].position < hits[j].position && hits[i].line < hits[j].line
    {
      LaterLine(s, ps[i], ps[j], LineEnd(s, ps[i]));
    }
  }

  /** Every line holding an occurrence of the marker has a recorded hit on that line, at
      or before the occurrence. */
  lemma ScanCoversLines(s: string, marker: string, q: nat)
    requires MarkerAt(s, marker, q)
    ensures exists i :: 0 <= i < |Scan(s, marker)|
              && Scan(s, marker)[i].position <= q && Scan(s, marker)[i].line == LineOf(s, q)
  {
    var ps := Positions(s, marker, 0);
    PositionsCoverLines(s, marker, 0, q);
    PositionsSound(s, marker, 0);
    HitsAtFacts(s, marker, ps);
    var i :| 0 <= i < |ps| && ps[i] <= q && q <= LineEnd(s, ps[i]);
    LineEndFacts(s, ps[i]);
    SameLine(s, ps[i], q);
    assert Scan(s, marker)[i].line == LineOf(s, q);
  }

  /** The scan records nothing exactly when the marker does not occur in the text. */
  lemma ScanEmptyIffNoMarker(s: string, marker: string)
    ensures Scan(s, marker) == [] <==> forall q :: !MarkerAt(s, marker, q)
  {
    HitsAtFacts(s, marker, Positions(s, marker, 0));
    if exists q :: MarkerAt(s, marker, q) {
      var q :| MarkerAt(s, marker, q);
      PositionsCoverLines(s, marker, 0, q);
    } else {
      FindFacts(s, marker, 0);
    }
  }

  /** A recorded name never spans a line break, and a marker that itself contains a
      line break always yields the empty name. */
  lemma NameProperties(s: string, marker: string, p: nat)
    requires MarkerAt(s, marker, p)
    ensures forall k :: 0 <= k < |HitAt(s, marker, p).name| ==> HitAt(s, marker, p).name[k] != '\n'
    ensures (exists k :: 0 <= k < |marker| && marker[k] == '\n') ==> HitAt(s, marker, p).name == []
  {
    var e := LineEnd(s, p);
    var t := Slice(s, p + |marker|, e);
    LineEndFacts(s, p);
    SliceFacts(s, p + |marker|, e);
    StripIsSlice(t);
    var c := |t| - |StripLeading(t)|;
    assert forall k :: 0 <= k < |Strip(t)| ==> Strip(t)[k] == t[c + k];
    if k :| 0 <= k < |marker| && marker[k] == '\n' {
      assert s[p + k] == '\n';
      assert e <= p + k;
    }
  }

  // ---------------------------------------------------------------------------
  // What recording does to the index
  // ---------------------------------------------------------------------------

  /** The names the hits carry. */
  function Names(hits: seq<Hit>): set<string> {
    if hits == [] then {} else {hits[0].name} + Names(hits[1..])
  }

  /** The locations that `hits` contribute to `name`, in order. */
  function LocationsNamed(file: string, hits: seq<Hit>, name: string): seq<Location> {
    if hits == [] then []
    else (if hits[0].name == name then [Location(file, hits[0].line)] else [])
         + LocationsNamed(file, hits[1..], name)
  }

  /** Recording adds exactly the scanned names to the keys. */
  lemma {:induction false} AddHitsKeys(index: Index, file: string, hits: seq<Hit>)
    decreases |hits|
    ensures AddHits(index, file, hits).Keys == index.Keys + Names(hits)
  {
    if hits != [] {
      var next := Append(index, hits[0].name, Location(file, hits[0].line));
      assert AddHits(index, file, hits) == AddHits(next, file, hits[1..]);
      AddHitsKeys(next, file, hits[1..]);
    }
  }

  /** One append adds `loc` to the list of `name` and to no other list. */
  lemma AppendGet(index: Index, name: string, loc: Location, other: string)
    ensures Get(Append(index, name, loc), other)
            == Get(index, other) + if name == other then [loc] else []
  {
  }

  /** Recording only appends: the list of a name is its old list (none: empty) followed
      by the locations the hits give that name, in scan order. */
  lemma {:induction false} AddHitsList(index: Index, file: string, hits: seq<Hit>, name: string)
    decreases |hits|
    ensures Get(AddHits(index, file, hits), name) == Get(index, name) + LocationsNamed(file, hits, name)
  {
    if hits == [] {
      assert Get(index, name) + [] == Get(index, name);
    } else {
      var loc := Location(file, hits[0].line);
      var next := Append(index, hits[0].name, loc);
      var added := if hits[0].name == name then [loc] else [];
      var later := LocationsNamed(file, hits[1..], name);
      calc {
        Get(AddHits(index, file, hits), name);
        Get(AddHits(next, file, hits[1..]), name);
        { AddHitsList(next, file, hits[1..], name); }
        Get(next, name) + later;
        { AppendGet(index, hits[0].name, loc, name); }
        (Get(index, name) + added) + later;
        Get(index, name) + (added + later);
        Get(index, name) + LocationsNamed(file, hits, name);
      }
    }
  }

  lemma {:induction false} NotNamedNoLocations(file: string, hits: seq<Hit>, name: string)
    requires name !in Names(hits)
    ensures LocationsNamed(file, hits, name) == []
  {
    if hits != [] {
      NotNamedNoLocations(file, hits[1..], name);
    }
  }

  /** Scanning a file only appends to the index: every earlier entry is still there with
      its old list as a prefix, new names get their own lists, nothing else changes. */
  lemma AddHitsAppends(index: Index, file: string, hits: seq<Hit>)
    ensures AddHits(index, file, hits).Keys == index.Keys + Names(hits)
    ensures forall k :: k in index ==> index[k] <= AddHits(index, file, hits)[k]
    ensures forall k :: k in index && k !in Names(hits) ==> AddHits(index, file, hits)[k] == index[k]
  {
    AddHitsKeys(index, file, hits);
    forall k | k in index
      ensures index[k] <= AddHits(index, file, hits)[k]
      ensures k !in Names(hits) ==> AddHits(index, file, hits)[k] == index[k]
    {
      AddHitsList(index, file, hits, k);
      if k !in Names(hits) {
        NotNamedNoLocations(file, hits, k);
      }
    }
  }

  /** Text without the marker leaves the index exactly as it was. */
  lemma NoMarkerNoChange(marker: string, file: string, contents: string, touchpoints: Index)
    requires forall q :: !MarkerAt(contents, marker, q)
    ensures AddHits(touchpoints, file, Scan(contents, marker)) == touchpoints
  {
    ScanEmptyIffNoMarker(contents, marker);
  }
}
