/** What the diagnostics parser guarantees, stated over its specification
    (`Parse`, `ParseFrom`, `ParseGroup`, `Flush`), which the imperative pass
    `ParseCompilationErrors` is proved to follow. */
module ParserProperties {
  import opened Wrappers
  import opened Text
  import opened Diagnostics
  import opened ErrorsParser

  // ---------------------------------------------------------------------
  // Which lines start a diagnostic

  /** A line is an error header exactly when it starts with `/`, mentions
      `.swift:`, has five `:`-separated fields and the fourth mentions
      `error`. The check that the path has more than one `/`-component
      follows from the leading `/`. */
  lemma HeaderIff(line: string)
    ensures Header(line).Some? <==>
      HasPrefix(line, "/") && Contains(line, ".swift:") &&
      |Split(line, ":")| == 5 && Contains(Split(line, ":")[3], "error")
  {
    if HasPrefix(line, "/") {
      OccursAtContains(line, "/", 0);
      SplitCount(line, "/");
    }
  }

  // ---------------------------------------------------------------------
  // The shape of the result

  predicate PointersMarked(ps: seq<Place>) {
    forall k :: 0 <= k < |ps| ==> Contains(ps[k].pointer, "^")
  }

  /** A record as the parser leaves it: some places, ordered by line, each
      with a `^` pointer. */
  predicate GoodEntry(f: FileErrors) {
    f.places != [] && SortedByLine(f.places) && PointersMarked(f.places)
  }

  predicate WellFormed(errors: seq<FileErrors>) {
    UniqueFiles(errors) && forall i :: 0 <= i < |errors| ==> GoodEntry(errors[i])
  }

  /** Merging keeps what was there, in front, and adds only incoming places. */
  lemma {:induction false} MergePlacesMembers(existing: seq<Place>, incoming: seq<Place>)
    ensures |existing| <= |MergePlaces(existing, incoming)|
    ensures MergePlaces(existing, incoming)[..|existing|] == existing
    ensures forall p :: p in MergePlaces(existing, incoming) ==> p in existing || p in incoming
    decreases |incoming|
  {
    if incoming != [] {
      var init := incoming[..|incoming| - 1];
      MergePlacesMembers(existing, init);
      var m := MergePlaces(existing, init);
      assert forall p :: p in init ==> p in incoming;
      if !HasKey(m, incoming[|incoming| - 1].line, incoming[|incoming| - 1].reason) {
        assert (m + [incoming[|incoming| - 1]])[..|existing|] == m[..|existing|];
      }
    }
  }

  lemma SortByLineMembers(ps: seq<Place>)
    ensures |SortByLine(ps)| == |ps|
    ensures forall p :: p in SortByLine(ps) <==> p in ps
  {
    var r := SortByLine(ps);
    assert |r| == |multiset(r)| == |multiset(ps)| == |ps|;
    forall p
      ensures p in r <==> p in ps
    {
      assert p in r <==> p in multiset(r);
      assert p in ps <==> p in multiset(ps);
    }
  }

  lemma MergedEntryGood(path: string, existing: seq<Place>, places: seq<Place>)
    requires existing != [] && PointersMarked(existing) && PointersMarked(places)
    ensures GoodEntry(FileErrors(path, SortByLine(MergePlaces(existing, places))))
  {
    var merged := MergePlaces(existing, places);
    var sorted := SortByLine(merged);
    MergePlacesMembers(existing, places);
    SortByLineMembers(merged);
    forall k | 0 <= k < |sorted|
      ensures Contains(sorted[k].pointer, "^")
    {
      var x := sorted[k];
      assert x in merged;
      if x in existing {
        var i :| 0 <= i < |existing| && existing[i] == x;
      } else {
        var i :| 0 <= i < |places| && places[i] == x;
      }
    }
  }

  lemma NewEntryGood(path: string, places: seq<Place>)
    requires places != [] && PointersMarked(places)
    ensures GoodEntry(FileErrors(path, SortByLine(places)))
  {
    var sorted := SortByLine(places);
    SortByLineMembers(places);
    forall k | 0 <= k < |sorted|
      ensures Contains(sorted[k].pointer, "^")
    {
      var x := sorted[k];
      assert x in places;
      var i :| 0 <= i < |places| && places[i] == x;
    }
  }

  /** A flush of places that all have a `^` pointer keeps the result well
      formed: no empty record, no second record for a file. */
  lemma FlushWellFormed(errors: seq<FileErrors>, path: string, places: seq<Place>)
    requires WellFormed(errors) && PointersMarked(places)
    ensures WellFormed(Flush(errors, path, places))
  {
    if places != [] {
      FlushCases(errors, path, places);
      FlushKeepsFilesUnique(errors, path, places);
      var r := Flush(errors, path, places);
      match IndexOfKey(errors, FileOf, path)
      case Some(i) =>
        MergedEntryGood(path, errors[i].places, places);
        UpdateWellFormed(errors, i, r[i]);
      case None =>
        NewEntryGood(path, places);
        AppendWellFormed(errors, r[|errors|]);
    }
  }

  lemma UpdateWellFormed(errors: seq<FileErrors>, i: nat, f: FileErrors)
    requires WellFormed(errors) && i < |errors| && GoodEntry(f) && UniqueFiles(errors[i := f])
    ensures WellFormed(errors[i := f])
  {
  }

  lemma AppendWellFormed(errors: seq<FileErrors>, f: FileErrors)
    requires WellFormed(errors) && GoodEntry(f) && UniqueFiles(errors + [f])
    ensures WellFormed(errors + [f])
  {
  }

  lemma {:induction false} ParseGroupWellFormed(lines: seq<string>, path: string, fields: seq<string>,
                                                places: seq<Place>, errors: seq<FileErrors>)
    requires |fields| == 5 && WellFormed(errors) && PointersMarked(places)
    ensures ParseGroup(lines, path, fields, places, errors).Finished? ==>
      WellFormed(ParseGroup(lines, path, fields, places, errors).value.1)
    decreases |lines|
  {
    match ParseInt(fields[1])
    case None => FlushWellFormed(errors, path, places);
    case Some(n) =>
      if |lines| >= 2 {
        var code, pointer, rest := lines[0], lines[1], lines[2..];
        if !Contains(pointer, "^") {
          FlushWellFormed(errors, path, places);
        } else {
          var grown := places + [Place(n, fields[4], code, pointer)];
          var next := if rest == [] then None else Header(rest[0]);
          if next.Some? && next.value[0] == path {
            ParseGroupWellFormed(rest[1..], path, next.value, grown, errors);
          } else {
            FlushWellFormed(errors, path, grown);
          }
        }
      }
  }

  lemma {:induction false} ParseFromWellFormed(lines: seq<string>, errors: seq<FileErrors>)
    requires WellFormed(errors)
    ensures ParseFrom(lines, errors).Finished? ==> WellFormed(ParseFrom(lines, errors).value)
    decreases |lines|
  {
    if lines != [] {
      match Header(lines[0])
      case None => ParseFromWellFormed(lines[1..], errors);
      case Some(fields) =>
        ParseGroupWellFormed(lines[1..], fields[0], fields, [], errors);
        match ParseGroup(lines[1..], fields[0], fields, [], errors)
        case Trapped =>
        case Finished((rest, flushed)) => ParseFromWellFormed(rest, flushed);
    }
  }

  /** Inserting a record for a file not yet present keeps files unique. */
  lemma InsertKeepsFilesUnique(x: FileErrors, s: seq<FileErrors>)
    requires SortedByName(s, NameOf) && UniqueFiles(s)
    requires forall f :: f in s ==> f.file != x.file
    ensures UniqueFiles(InsertByName(x, s, NameOf))
  {
    var k := NamePosition(x, s, NameOf);
    var r := s[..k] + [x] + s[k..];
    InsertAtIndex(x, s, k);
    assert InsertByName(x, s, NameOf) == r;
    forall i, j | 0 <= i < j < |r|
      ensures r[i].file != r[j].file
    {
      if i == k {
        assert r[j] == s[j - 1];
      } else if j == k {
        assert r[i] == s[i];
      }
    }
  }

  lemma {:induction false} SortKeepsFilesUnique(s: seq<FileErrors>)
    requires UniqueFiles(s)
    ensures UniqueFiles(SortByName(s, NameOf))
  {
    if s != [] {
      var tail := SortByName(s[1..], NameOf);
      SortKeepsFilesUnique(s[1..]);
      SortByNameMembers(s[1..], NameOf);
      forall f | f in tail
        ensures f.file != s[0].file
      {
        var j :| 0 <= j < |s[1..]| && s[1..][j] == f;
        assert s[j + 1] == f;
      }
      assert s == [s[0]] + s[1..];
      InsertKeepsFilesUnique(s[0], tail);
    }
  }

  /** A finished parse yields records ordered by file name, at most one per
      file, each non-empty, with its places ordered by line and every
      pointer holding a `^`. */
  lemma ParseWellFormed(rawError: string)
    ensures Parse(rawError).Finished? ==>
      WellFormed(Parse(rawError).value) && SortedByName(Parse(rawError).value, NameOf)
  {
    var lines := Split(rawError, "\n");
    ParseFromWellFormed(lines, []);
    match ParseFrom(lines, [])
    case Trapped =>
    case Finished(errors) =>
      var sorted := SortByName(errors, NameOf);
      SortKeepsFilesUnique(errors);
      SortByNameMembers(errors, NameOf);
      forall i | 0 <= i < |sorted|
        ensures GoodEntry(sorted[i])
      {
        assert sorted[i] in errors;
      }
  }

  // ---------------------------------------------------------------------
  // Merging by (line, reason)

  function Key(p: Place): (int, string) {
    (p.line, p.reason)
  }

  /** The (line, reason) pairs of a list of places. */
  function Keys(ps: seq<Place>): set<(int, string)> {
    set p | p in ps :: Key(p)
  }

  /** No two places share a (line, reason) pair. */
  predicate KeysUnique(ps: seq<Place>) {
    forall i, j :: 0 <= i < j < |ps| ==> Key(ps[i]) != Key(ps[j])
  }

  lemma HasKeyIff(ps: seq<Place>, p: Place)
    ensures HasKey(ps, p.line, p.reason) <==> Key(p) in Keys(ps)
  {
    if HasKey(ps, p.line, p.reason) {
      var i :| 0 <= i < |ps| && ps[i].line == p.line && ps[i].reason == p.reason;
      assert ps[i] in ps && Key(ps[i]) == Key(p);
    }
    if Key(p) in Keys(ps) {
      var q :| q in ps && Key(q) == Key(p);
      var i :| 0 <= i < |ps| && ps[i] == q;
      assert ps[i].line == p.line && ps[i].reason == p.reason;
    }
  }

  /** After merging, a record holds exactly the pairs it held plus the
      incoming ones. */
  lemma {:induction false} MergePlacesKeys(existing: seq<Place>, incoming: seq<Place>)
    ensures Keys(MergePlaces(existing, incoming)) == Keys(existing) + Keys(incoming)
    decreases |incoming|
  {
    if incoming != [] {
      var init := incoming[..|incoming| - 1];
      var p := incoming[|incoming| - 1];
      MergePlacesKeys(existing, init);
      var m := MergePlaces(existing, init);
      assert incoming == init + [p];
      assert Keys(incoming) == Keys(init) + {Key(p)};
      HasKeyIff(m, p);
      if !HasKey(m, p.line, p.reason) {
        assert Keys(m + [p]) == Keys(m) + {Key(p)};
      }
    }
  }

  /** Merging never creates a duplicate pair. */
  lemma {:induction false} MergePlacesKeepsKeysUnique(existing: seq<Place>, incoming: seq<Place>)
    requires KeysUnique(existing)
    ensures KeysUnique(MergePlaces(existing, incoming))
    decreases |incoming|
  {
    if incoming != [] {
      var init := incoming[..|incoming| - 1];
      var p := incoming[|incoming| - 1];
      MergePlacesKeepsKeysUnique(existing, init);
      var m := MergePlaces(existing, init);
      if !HasKey(m, p.line, p.reason) {
        forall i | 0 <= i < |m|
          ensures Key(m[i]) != Key(p)
        {
        }
      }
    }
  }

  /** Incoming places whose pairs are all present already change nothing. */
  lemma {:induction false} MergeNothingNew(existing: seq<Place>, incoming: seq<Place>)
    requires Keys(incoming) <= Keys(existing)
    ensures MergePlaces(existing, incoming) == existing
    decreases |incoming|
  {
    if incoming != [] {
      var init := incoming[..|incoming| - 1];
      var p := incoming[|incoming| - 1];
      assert Keys(init) <= Keys(incoming);
      MergeNothingNew(existing, init);
      assert Key(p) in Keys(incoming);
      HasKeyIff(existing, p);
    }
  }

  lemma SortByLineKeys(ps: seq<Place>)
    ensures Keys(SortByLine(ps)) == Keys(ps)
  {
    SortByLineMembers(ps);
  }

  /** Sorting places already ordered by line leaves them as they are: the
      sort is stable. */
  lemma {:induction false} SortSortedIsIdentity(ps: seq<Place>)
    requires SortedByLine(ps)
    ensures SortByLine(ps) == ps
  {
    if ps != [] {
      SortSortedIsIdentity(ps[1..]);
      assert LinePosition(ps[0], ps[1..]) == 0;
      assert ps == [ps[0]] + ps[1..];
    }
  }

  /** The pairs held for `path` before a flush. */
  function OldKeys(errors: seq<FileErrors>, path: string): set<(int, string)> {
    match IndexOfKey(errors, FileOf, path)
    case None => {}
    case Some(i) => Keys(errors[i].places)
  }

  /** After a flush of some places there is a record for `path` (the first
      with that file), ordered by line, holding exactly the old pairs plus
      the flushed ones. */
  lemma FlushFindsEntry(errors: seq<FileErrors>, path: string, places: seq<Place>)
    requires places != []
    ensures IndexOfKey(Flush(errors, path, places), FileOf, path).Some?
    ensures var r := Flush(errors, path, places);
      var i := IndexOfKey(r, FileOf, path).value;
      SortedByLine(r[i].places) && Keys(r[i].places) == OldKeys(errors, path) + Keys(places)
  {
    FlushCases(errors, path, places);
    match IndexOfKey(errors, FileOf, path)
    case Some(i) =>
      var merged := MergePlaces(errors[i].places, places);
      MergePlacesKeys(errors[i].places, places);
      SortByLineKeys(merged);
      IndexOfKeyUpdated(errors, path, i, FileErrors(path, SortByLine(merged)));
    case None =>
      SortByLineKeys(places);
      IndexOfKeyAppended(errors, path, FileErrors(path, SortByLine(places)));
  }

  /** A flush adds a record only when none was there for `path`, and every
      record for another file is untouched. */
  lemma FlushLeavesOthers(errors: seq<FileErrors>, path: string, places: seq<Place>)
    ensures |Flush(errors, path, places)| ==
      |errors| + (if places != [] && IndexOfKey(errors, FileOf, path).None? then 1 else 0)
    ensures forall j :: 0 <= j < |errors| && errors[j].file != path ==> Flush(errors, path, places)[j] == errors[j]
  {
    if places != [] {
      FlushCases(errors, path, places);
    }
  }

  lemma {:induction false} IndexOfKeyUpdated(errors: seq<FileErrors>, path: string, i: nat, f: FileErrors)
    requires IndexOfKey(errors, FileOf, path) == Some(i) && f.file == path
    ensures IndexOfKey(errors[i := f], FileOf, path) == Some(i)
  {
    if i > 0 {
      IndexOfKeyUpdated(errors[1..], path, i - 1, f);
      assert errors[i := f][1..] == errors[1..][i - 1 := f];
    }
  }

  lemma {:induction false} IndexOfKeyAppended(errors: seq<FileErrors>, path: string, f: FileErrors)
    requires IndexOfKey(errors, FileOf, path).None? && f.file == path
    ensures IndexOfKey(errors + [f], FileOf, path) == Some(|errors|)
  {
    if errors != [] {
      IndexOfKeyAppended(errors[1..], path, f);
      assert (errors + [f])[1..] == errors[1..] + [f];
    }
  }

  /** Flushing the same group twice adds nothing the second time. */
  lemma FlushTwice(errors: seq<FileErrors>, path: string, places: seq<Place>)
    ensures Flush(Flush(errors, path, places), path, places) == Flush(errors, path, places)
  {
    if places != [] {
      var r := Flush(errors, path, places);
      FlushFindsEntry(errors, path, places);
      var i := IndexOfKey(r, FileOf, path).value;
      FlushCases(r, path, places);
      MergeNothingNew(r[i].places, places);
      SortSortedIsIdentity(r[i].places);
      assert r[i := FileErrors(path, r[i].places)] == r;
    }
  }

  /** After a place is appended if absent, its key is present. */
  lemma AppendIfAbsentHasKey(ps: seq<Place>, p: Place)
    ensures HasKey(AppendIfAbsent(ps, p), p.line, p.reason)
  {
    if !HasKey(ps, p.line, p.reason) {
      var r := AppendIfAbsent(ps, p);
      assert r[|ps|] == p;
    }
  }

  /** Merging the same place twice merges it once. */
  lemma MergeTwiceOnce(ps: seq<Place>, p: Place)
    ensures MergePlaces(ps, [p, p]) == MergePlaces(ps, [p])
  {
    assert [p, p][..1] == [p];
    assert [p][..0] == [];
    assert MergePlaces(ps, [p]) == AppendIfAbsent(ps, p);
    AppendIfAbsentHasKey(ps, p);
  }

  /** A repeated place is collapsed when it is merged into an existing
      record ... */
  lemma DuplicateMergedOnce(errors: seq<FileErrors>, path: string, p: Place)
    requires IndexOfKey(errors, FileOf, path).Some?
    ensures Flush(errors, path, [p, p]) == Flush(errors, path, [p])
  {
    var i := IndexOfKey(errors, FileOf, path).value;
    MergeTwiceOnce(errors[i].places, p);
    FlushCases(errors, path, [p, p]);
    FlushCases(errors, path, [p]);
  }

  /** ... but a new record keeps it twice: a fresh record is sorted, not
      deduplicated. */
  lemma DuplicateKeptInNewRecord(errors: seq<FileErrors>, path: string, p: Place)
    requires IndexOfKey(errors, FileOf, path).None?
    ensures Flush(errors, path, [p, p]) == errors + [FileErrors(path, [p, p])]
    ensures !KeysUnique(Flush(errors, path, [p, p])[|errors|].places)
  {
    FlushCases(errors, path, [p, p]);
    SortSortedIsIdentity([p, p]);
  }

  // ---------------------------------------------------------------------
  // Inputs without diagnostics

  lemma {:induction false} NoHeaders(lines: seq<string>, errors: seq<FileErrors>)
    requires forall k :: 0 <= k < |lines| ==> Header(lines[k]).None?
    ensures ParseFrom(lines, errors) == Finished(errors)
    decreases |lines|
  {
    if lines != [] {
      NoHeaders(lines[1..], errors);
    }
  }

  /** Text with no error header parses to no records. */
  lemma ParseWithoutHeaders(rawError: string)
    requires forall line :: line in Split(rawError, "\n") ==> Header(line).None?
    ensures Parse(rawError) == Finished([])
  {
    NoHeaders(Split(rawError, "\n"), []);
  }

  /** Every error header with an `Int` line field is followed by a code
      line and by a pointer line without `^`, so no block is accepted. */
  predicate DropsEveryBlock(lines: seq<string>) {
    forall k :: 0 <= k < |lines| && Header(lines[k]).Some? && ParseInt(Header(lines[k]).value[1]).Some? ==>
      k + 2 < |lines| && !Contains(lines[k + 2], "^")
  }

  /** What holds of all lines holds of the lines after the first `n`. */
  lemma DropsEveryBlockSuffix(lines: seq<string>, n: nat)
    requires n <= |lines| && DropsEveryBlock(lines)
    ensures DropsEveryBlock(lines[n..])
  {
    forall k | 0 <= k < |lines[n..]| && Header(lines[n..][k]).Some? && ParseInt(Header(lines[n..][k]).value[1]).Some?
      ensures k + 2 < |lines[n..]| && !Contains(lines[n..][k + 2], "^")
    {
      assert lines[n..][k] == lines[n + k];
    }
  }

  /** When every block is dropped, whether by a line field that is not an
      `Int` or by a pointer without `^`, each group flushes no place and the
      records stay as they were. */
  lemma {:induction false} DroppedBlocksLeaveRecords(lines: seq<string>, errors: seq<FileErrors>)
    requires DropsEveryBlock(lines)
    ensures ParseFrom(lines, errors) == Finished(errors)
    decreases |lines|
  {
    if lines != [] {
      match Header(lines[0])
      case None =>
        DropsEveryBlockSuffix(lines, 1);
        DroppedBlocksLeaveRecords(lines[1..], errors);
      case Some(fields) =>
        if ParseInt(fields[1]).None? {
          DropsEveryBlockSuffix(lines, 1);
          DroppedBlocksLeaveRecords(lines[1..], errors);
        } else {
          assert 2 < |lines| && !Contains(lines[2], "^");
          assert lines[1..][1] == lines[2] && lines[1..][2..] == lines[3..];
          DropsEveryBlockSuffix(lines, 3);
          DroppedBlocksLeaveRecords(lines[3..], errors);
        }
    }
  }

  /** Output in which every block is dropped parses to no records. */
  lemma ParseDroppedBlocks(rawError: string)
    requires DropsEveryBlock(Split(rawError, "\n"))
    ensures Parse(rawError) == Finished([])
  {
    DroppedBlocksLeaveRecords(Split(rawError, "\n"), []);
  }

  // ---------------------------------------------------------------------
  // The `removeFirst` trap

  /** A header with a numeric line field and fewer than two lines after it
      traps. */
  lemma TrapAtEnd(header: string, tail: seq<string>, errors: seq<FileErrors>)
    requires Header(header).Some? && ParseInt(Header(header).value[1]).Some?
    requires |tail| < 2
    ensures ParseFrom([header] + tail, errors).Trapped?
  {
    assert ([header] + tail)[1..] == tail;
  }

  /** A header with a numeric line field: the line the parser reads two
      more lines after. */
  predicate TrapsHere(line: string) {
    Header(line).Some? && ParseInt(Header(line).value[1]).Some?
  }

  /** One of the last two lines is such a header. */
  predicate TrapNearEnd(lines: seq<string>) {
    exists k :: 0 <= k < |lines| && |lines| - 2 <= k && TrapsHere(lines[k])
  }

  lemma SuffixTrapNearEnd(lines: seq<string>, d: nat)
    requires d <= |lines| && TrapNearEnd(lines[d..])
    ensures TrapNearEnd(lines)
  {
    var k :| 0 <= k < |lines[d..]| && |lines[d..]| - 2 <= k && TrapsHere(lines[d..][k]);
    assert lines[d + k] == lines[d..][k];
  }

  lemma {:induction false} GroupTrapsOnlyNearEnd(lines: seq<string>, path: string, fields: seq<string>,
                                                 places: seq<Place>, errors: seq<FileErrors>)
    requires |fields| == 5
    ensures ParseGroup(lines, path, fields, places, errors).Trapped? ==>
      (ParseInt(fields[1]).Some? && |lines| < 2) || TrapNearEnd(lines)
    decreases |lines|
  {
    if ParseInt(fields[1]).Some? && |lines| >= 2 && Contains(lines[1], "^") {
      var rest := lines[2..];
      if rest != [] && Header(rest[0]).Some? && Header(rest[0]).value[0] == path {
        var grown := places + [Place(ParseInt(fields[1]).value, fields[4], lines[0], lines[1])];
        var fields' := Header(rest[0]).value;
        GroupTrapsOnlyNearEnd(rest[1..], path, fields', grown, errors);
        assert lines[3..] == rest[1..];
        if ParseGroup(rest[1..], path, fields', grown, errors).Trapped? {
          if ParseInt(fields'[1]).Some? && |rest[1..]| < 2 {
            assert TrapsHere(lines[2]);
          } else {
            SuffixTrapNearEnd(lines, 3);
          }
        }
      }
    }
  }

  /** The parse traps only when one of the last two lines is a header with
      a numeric line field. */
  lemma {:induction false} TrapsOnlyNearEnd(lines: seq<string>, errors: seq<FileErrors>)
    ensures ParseFrom(lines, errors).Trapped? ==> TrapNearEnd(lines)
    decreases |lines|
  {
    if lines != [] {
      match Header(lines[0])
      case None =>
        TrapsOnlyNearEnd(lines[1..], errors);
        if ParseFrom(lines, errors).Trapped? {
          SuffixTrapNearEnd(lines, 1);
        }
      case Some(fields) =>
        GroupTrapAt(lines, fields, errors);
    }
  }

  lemma {:induction false} GroupTrapAt(lines: seq<string>, fields: seq<string>, errors: seq<FileErrors>)
    requires lines != [] && Header(lines[0]) == Some(fields)
    ensures ParseFrom(lines, errors).Trapped? ==> TrapNearEnd(lines)
    decreases |lines|, 0
  {
    var after := lines[1..];
    GroupTrapsOnlyNearEnd(after, fields[0], fields, [], errors);
    match ParseGroup(after, fields[0], fields, [], errors)
    case Trapped =>
      if ParseInt(fields[1]).Some? && |after| < 2 {
        assert TrapsHere(lines[0]);
      } else {
        SuffixTrapNearEnd(lines, 1);
      }
    case Finished((rest, flushed)) =>
      TrapsOnlyNearEnd(rest, flushed);
      if ParseFrom(rest, flushed).Trapped? {
        assert rest == lines[|lines| - |rest|..];
        SuffixTrapNearEnd(lines, |lines| - |rest|);
      }
  }

  /** Output whose last two lines are not error headers never traps. */
  lemma NoTrapWhenOutputEndsPlain(rawError: string)
    requires forall k :: 0 <= k < |Split(rawError, "\n")| && |Split(rawError, "\n")| - 2 <= k ==>
      Header(Split(rawError, "\n")[k]).None?
    ensures Parse(rawError).Finished?
  {
    var lines := Split(rawError, "\n");
    TrapsOnlyNearEnd(lines, []);
    assert !TrapNearEnd(lines) by {
      forall k | 0 <= k < |lines| && |lines| - 2 <= k
        ensures !TrapsHere(lines[k])
      {
        assert Header(lines[k]).None?;
      }
    }
  }

  // ---------------------------------------------------------------------
  // Well-formed blocks as the compiler prints them

  /** One diagnostic: the header fields, then the code and pointer lines. */
  datatype Block = Block(path: string, line: int, column: string, severity: string,
                         reason: string, code: string, pointer: string)

  function HeaderFields(b: Block): seq<string> {
    [b.path, IntToString(b.line), b.column, b.severity, b.reason]
  }

  function HeaderLine(b: Block): string {
    Join(HeaderFields(b), ":")
  }

  function BlockPlace(b: Block): Place {
    Place(b.line, b.reason, b.code, b.pointer)
  }

  /** A header the parser accepts: an absolute `.swift` path, an `Int` line,
      an `error` severity, and no `:` inside any field. */
  predicate ValidHeader(b: Block) {
    HasPrefix(b.path, "/") && |b.path| >= 6 && b.path[|b.path| - 6..] == ".swift" &&
    IntMin <= b.line <= IntMax && Contains(b.severity, "error") &&
    ':' !in b.path && ':' !in b.column && ':' !in b.severity && ':' !in b.reason
  }

  predicate ValidBlock(b: Block) {
    ValidHeader(b) && Contains(b.pointer, "^")
  }

  function BlockLines(bs: seq<Block>): seq<string> {
    if bs == [] then [] else [HeaderLine(bs[0]), bs[0].code, bs[0].pointer] + BlockLines(bs[1..])
  }

  function BlockPlaces(bs: seq<Block>): seq<Place> {
    if bs == [] then [] else [BlockPlace(bs[0])] + BlockPlaces(bs[1..])
  }

  /** The lines after a group do not continue it. */
  predicate GroupEnds(rest: seq<string>, path: string) {
    rest == [] || Header(rest[0]).None? || Header(rest[0]).value[0] != path
  }

  lemma NoColonInInt(n: int)
    ensures ':' !in IntToString(n)
  {
    var s := IntToString(n);
    if n < 0 {
      assert s == "-" + NatToString(-n);
    }
  }

  /** The header line of a valid block is recognised, with its own fields,
      and its line field reads back as the block's line. */
  lemma HeaderLineParses(b: Block)
    requires ValidHeader(b)
    ensures Header(HeaderLine(b)) == Some(HeaderFields(b))
    ensures ParseInt(HeaderFields(b)[1]) == Some(b.line)
  {
    var fields := HeaderFields(b);
    var line := HeaderLine(b);
    NoColonInInt(b.line);
    SplitJoin(fields, ':');
    JoinCons(b.path, fields[1..], ":");
    assert [b.path] + fields[1..] == fields;
    assert line[..|b.path| + 1] == b.path + ":";
    assert line[..1] == "/";
    OccursAtContains(line, "/", 0);
    SplitCount(line, "/");
    assert line[|b.path| - 6..|b.path| + 1] == ".swift:";
    OccursAtContains(line, ".swift:", |b.path| - 6);
    IntToStringParses(b.line);
  }

  /** How a group goes on once a block is read: into the next header if
      it is for the same path, otherwise a flush. */
  function Continue(tail: seq<string>, path: string, places: seq<Place>, errors: seq<FileErrors>)
    : Outcome<(seq<string>, seq<FileErrors>)>
  {
    if GroupEnds(tail, path) then Finished((tail, Flush(errors, path, places)))
    else ParseGroup(tail[1..], path, Header(tail[0]).value, places, errors)
  }

  /** One block of a group: read its code and pointer lines, then go on. */
  lemma GroupStep(code: string, pointer: string, after: seq<string>, path: string, fields: seq<string>,
                  n: int, places: seq<Place>, errors: seq<FileErrors>)
    requires |fields| == 5 && ParseInt(fields[1]) == Some(n) && Contains(pointer, "^")
    ensures ParseGroup([code, pointer] + after, path, fields, places, errors) ==
      Continue(after, path, places + [Place(n, fields[4], code, pointer)], errors)
  {
    assert ([code, pointer] + after)[2..] == after;
  }

  lemma ContinueIntoBlock(c: Block, rest: seq<string>, path: string, places: seq<Place>, errors: seq<FileErrors>)
    requires ValidHeader(c) && c.path == path
    ensures Continue([HeaderLine(c)] + rest, path, places, errors) == ParseGroup(rest, path, HeaderFields(c), places, errors)
  {
    HeaderLineParses(c);
    assert ([HeaderLine(c)] + rest)[1..] == rest;
  }

  lemma BlockLinesCons(bs: seq<Block>, tail: seq<string>)
    requires bs != []
    ensures BlockLines(bs) + tail == [HeaderLine(bs[0])] + ([bs[0].code, bs[0].pointer] + (BlockLines(bs[1..]) + tail))
  {
    var head, pair, more := [HeaderLine(bs[0])], [bs[0].code, bs[0].pointer], BlockLines(bs[1..]);
    assert [HeaderLine(bs[0]), bs[0].code, bs[0].pointer] == head + pair;
    calc {
      BlockLines(bs) + tail;
      ((head + pair) + more) + tail;
      { ConcatAssoc(head + pair, more, tail); }
      (head + pair) + (more + tail);
      { ConcatAssoc(head, pair, more + tail); }
      head + (pair + (more + tail));
    }
  }

  lemma ConcatAssoc<T>(a: seq<T>, b: seq<T>, c: seq<T>)
    ensures (a + b) + c == a + (b + c)
  {
  }

  lemma BlockPlacesCons(b: Block, bs: seq<Block>)
    ensures BlockPlaces([b] + bs) == [BlockPlace(b)] + BlockPlaces(bs)
  {
    assert ([b] + bs)[1..] == bs;
  }

  lemma RunFirstBlock(b: Block, after: seq<string>, places: seq<Place>, errors: seq<FileErrors>)
    requires ValidBlock(b)
    ensures ParseGroup([b.code, b.pointer] + after, b.path, HeaderFields(b), places, errors) ==
      Continue(after, b.path, places + [BlockPlace(b)], errors)
  {
    HeaderLineParses(b);
    GroupStep(b.code, b.pointer, after, b.path, HeaderFields(b), b.line, places, errors);
  }

  lemma RunNextBlock(bs: seq<Block>, tail: seq<string>, path: string, places: seq<Place>, errors: seq<FileErrors>)
    requires bs != [] && ValidHeader(bs[0]) && bs[0].path == path
    ensures Continue(BlockLines(bs) + tail, path, places, errors) ==
      ParseGroup([bs[0].code, bs[0].pointer] + (BlockLines(bs[1..]) + tail), path, HeaderFields(bs[0]), places, errors)
  {
    var c := bs[0];
    BlockLinesCons(bs, tail);
    ContinueIntoBlock(c, [c.code, c.pointer] + (BlockLines(bs[1..]) + tail), path, places, errors);
  }

  /** A run of valid blocks for one file is one group: its places are
      collected in order and the group goes on with whatever follows. */
  lemma {:induction false} GroupRun(b: Block, bs: seq<Block>, tail: seq<string>, places: seq<Place>,
                                    errors: seq<FileErrors>)
    requires ValidBlock(b) && forall x :: x in bs ==> ValidBlock(x) && x.path == b.path
    ensures ParseGroup([b.code, b.pointer] + (BlockLines(bs) + tail), b.path, HeaderFields(b), places, errors) ==
      Continue(tail, b.path, places + BlockPlaces([b] + bs), errors)
    decreases |bs|
  {
    var grown := places + [BlockPlace(b)];
    BlockPlacesCons(b, bs);
    if bs == [] {
      assert BlockLines(bs) + tail == tail;
      assert places + BlockPlaces([b] + bs) == grown;
      RunFirstBlock(b, tail, places, errors);
    } else {
      var c := bs[0];
      assert c in bs;
      forall x | x in bs[1..]
        ensures ValidBlock(x) && x.path == c.path
      {
        assert x in bs;
      }
      assert [c] + bs[1..] == bs;
      assert grown + BlockPlaces(bs) == places + ([BlockPlace(b)] + BlockPlaces(bs));
      calc {
        ParseGroup([b.code, b.pointer] + (BlockLines(bs) + tail), b.path, HeaderFields(b), places, errors);
        { RunFirstBlock(b, BlockLines(bs) + tail, places, errors); }
        Continue(BlockLines(bs) + tail, b.path, grown, errors);
        { RunNextBlock(bs, tail, b.path, grown, errors); }
        ParseGroup([c.code, c.pointer] + (BlockLines(bs[1..]) + tail), c.path, HeaderFields(c), grown, errors);
        { GroupRun(c, bs[1..], tail, grown, errors); }
        Continue(tail, b.path, grown + BlockPlaces(bs), errors);
        Continue(tail, b.path, places + BlockPlaces([b] + bs), errors);
      }
    }
  }

  lemma FromHeader(b: Block, after: seq<string>, errors: seq<FileErrors>)
    requires ValidHeader(b)
    ensures ParseFrom([HeaderLine(b)] + after, errors) == AfterGroup(ParseGroup(after, b.path, HeaderFields(b), [], errors))
  {
    HeaderLineParses(b);
    assert ([HeaderLine(b)] + after)[1..] == after;
  }

  /** The outer scan over a run of valid blocks for one file: one group,
      which goes on with whatever follows. */
  lemma RunThen(bs: seq<Block>, tail: seq<string>, errors: seq<FileErrors>)
    requires bs != [] && forall x :: x in bs ==> ValidBlock(x) && x.path == bs[0].path
    ensures ParseFrom(BlockLines(bs) + tail, errors) == AfterGroup(Continue(tail, bs[0].path, BlockPlaces(bs), errors))
  {
    var b := bs[0];
    assert b in bs;
    forall x | x in bs[1..]
      ensures ValidBlock(x) && x.path == b.path
    {
      assert x in bs;
    }
    assert [b] + bs[1..] == bs;
    calc {
      ParseFrom(BlockLines(bs) + tail, errors);
      { BlockLinesCons(bs, tail); }
      ParseFrom([HeaderLine(b)] + ([b.code, b.pointer] + (BlockLines(bs[1..]) + tail)), errors);
      { FromHeader(b, [b.code, b.pointer] + (BlockLines(bs[1..]) + tail), errors); }
      AfterGroup(ParseGroup([b.code, b.pointer] + (BlockLines(bs[1..]) + tail), b.path, HeaderFields(b), [], errors));
      { GroupRun(b, bs[1..], tail, [], errors); }
      AfterGroup(Continue(tail, b.path, [] + BlockPlaces([b] + bs[1..]), errors));
      { assert [] + BlockPlaces([b] + bs[1..]) == BlockPlaces(bs); }
      AfterGroup(Continue(tail, b.path, BlockPlaces(bs), errors));
    }
  }

  /** A run of valid blocks for one file, followed by lines that do not
      continue it, becomes one flush of all their places. */
  lemma ParseRun(bs: seq<Block>, rest: seq<string>, errors: seq<FileErrors>)
    requires bs != [] && forall x :: x in bs ==> ValidBlock(x) && x.path == bs[0].path
    requires GroupEnds(rest, bs[0].path)
    ensures ParseFrom(BlockLines(bs) + rest, errors) == ParseFrom(rest, Flush(errors, bs[0].path, BlockPlaces(bs)))
  {
    RunThen(bs, rest, errors);
  }

  /** A block whose pointer has no `^` is dropped, and the places already
      collected for its file are still flushed. */
  lemma MalformedPointerKeepsGroup(bs: seq<Block>, bad: Block, rest: seq<string>, errors: seq<FileErrors>)
    requires bs != [] && forall x :: x in bs ==> ValidBlock(x) && x.path == bs[0].path
    requires ValidHeader(bad) && bad.path == bs[0].path && !Contains(bad.pointer, "^")
    ensures ParseFrom(BlockLines(bs) + ([HeaderLine(bad), bad.code, bad.pointer] + rest), errors) ==
      ParseFrom(rest, Flush(errors, bs[0].path, BlockPlaces(bs)))
  {
    var path := bs[0].path;
    var places := BlockPlaces(bs);
    var after := [bad.code, bad.pointer] + rest;
    assert [HeaderLine(bad), bad.code, bad.pointer] + rest == [HeaderLine(bad)] + after;
    RunThen(bs, [HeaderLine(bad)] + after, errors);
    ContinueIntoBlock(bad, after, path, places, errors);
    HeaderLineParses(bad);
    assert after[0] == bad.code && after[1] == bad.pointer && after[2..] == rest;
  }

  /** A header for the same file whose line field is not an `Int` ends the
      group: the places collected so far are flushed and scanning resumes
      right after that header. */
  lemma BadLineNumberKeepsGroup(bs: seq<Block>, header: string, rest: seq<string>, errors: seq<FileErrors>)
    requires bs != [] && forall x :: x in bs ==> ValidBlock(x) && x.path == bs[0].path
    requires Header(header).Some? && Header(header).value[0] == bs[0].path
    requires ParseInt(Header(header).value[1]).None?
    ensures ParseFrom(BlockLines(bs) + ([header] + rest), errors) ==
      ParseFrom(rest, Flush(errors, bs[0].path, BlockPlaces(bs)))
  {
    RunThen(bs, [header] + rest, errors);
    assert ([header] + rest)[0] == header && ([header] + rest)[1..] == rest;
  }

  /** The same block printed twice in a row, for a file with no record yet,
      yields a record holding that place twice. */
  lemma RepeatedBlockKeptTwice(b: Block, rest: seq<string>, errors: seq<FileErrors>)
    requires ValidBlock(b) && GroupEnds(rest, b.path)
    requires IndexOfKey(errors, FileOf, b.path).None?
    ensures ParseFrom(BlockLines([b, b]) + rest, errors) ==
      ParseFrom(rest, errors + [FileErrors(b.path, [BlockPlace(b), BlockPlace(b)])])
  {
    ParseRun([b, b], rest, errors);
    assert BlockPlaces([b, b]) == [BlockPlace(b), BlockPlace(b)] by {
      BlockPlacesCons(b, [b]);
      BlockPlacesCons(b, []);
      assert [b] + [b] == [b, b] && [b] + [] == [b];
    }
    DuplicateKeptInNewRecord(errors, b.path, BlockPlace(b));
  }

  // ---------------------------------------------------------------------
  // From the raw text

  /** No field of the block holds a line break. */
  predicate SingleLine(b: Block) {
    '\n' !in b.path && '\n' !in b.column && '\n' !in b.severity && '\n' !in b.reason &&
    '\n' !in b.code && '\n' !in b.pointer
  }

  /** The header line spelled out. */
  lemma HeaderLineShape(b: Block)
    ensures HeaderLine(b) == b.path + ":" + IntToString(b.line) + ":" + b.column + ":" + b.severity + ":" + b.reason
  {
    var f := HeaderFields(b);
    assert Join([b.reason], ":") == b.reason;
    JoinCons(b.severity, [b.reason], ":");
    JoinCons(b.column, [b.severity, b.reason], ":");
    JoinCons(IntToString(b.line), [b.column, b.severity, b.reason], ":");
    JoinCons(b.path, [IntToString(b.line), b.column, b.severity, b.reason], ":");
    assert f == [b.path] + [IntToString(b.line), b.column, b.severity, b.reason];
  }

  lemma {:induction false} BlockLinesSingle(bs: seq<Block>)
    requires forall x :: x in bs ==> SingleLine(x)
    ensures forall k :: 0 <= k < |BlockLines(bs)| ==> '\n' !in BlockLines(bs)[k]
  {
    if bs != [] {
      var b := bs[0];
      assert b in bs;
      forall x | x in bs[1..]
        ensures SingleLine(x)
      {
        assert x in bs;
      }
      BlockLinesSingle(bs[1..]);
      HeaderLineShape(b);
      var n := IntToString(b.line);
      assert '\n' !in n by {
        if b.line < 0 {
          assert n == "-" + NatToString(-b.line);
        }
      }
    }
  }

  /** Compiler output made of blocks: its lines, joined by line breaks, are
      split back into exactly those lines. */
  lemma SplitBlockText(bs: seq<Block>)
    requires bs != [] && forall x :: x in bs ==> SingleLine(x)
    ensures Split(Join(BlockLines(bs), "\n"), "\n") == BlockLines(bs)
  {
    BlockLinesSingle(bs);
    assert BlockLines(bs) != [];
    SplitJoin(BlockLines(bs), '\n');
  }

  lemma SortTwo(p: Place, q: Place)
    ensures SortByLine([p, q]) == if p.line <= q.line then [p, q] else [q, p]
  {
    if p.line <= q.line {
      SortSortedIsIdentity([p, q]);
    } else {
      assert [p, q][1..] == [q];
      assert SortByLine([q]) == [q] by {
        assert [q][1..] == [];
      }
      assert LinePosition(p, [q]) == 1 by {
        assert [q][1..] == [];
      }
      assert [q][..1] + [p] + [q][1..] == [q, p];
    }
  }

  lemma ParseOfLines(rawError: string, lines: seq<string>, errors: seq<FileErrors>)
    requires Split(rawError, "\n") == lines && ParseFrom(lines, []) == Finished(errors)
    ensures Parse(rawError) == Finished(SortByName(errors, NameOf))
  {
  }

  /** A run of valid blocks for one file that makes up the whole output
      gives one record holding their places, sorted by line. */
  lemma RunAlone(bs: seq<Block>)
    requires bs != [] && forall x :: x in bs ==> ValidBlock(x) && x.path == bs[0].path
    ensures ParseFrom(BlockLines(bs), []) == Finished([FileErrors(bs[0].path, SortByLine(BlockPlaces(bs)))])
  {
    var places := BlockPlaces(bs);
    assert places != [] by {
      BlockPlacesCons(bs[0], bs[1..]);
      assert [bs[0]] + bs[1..] == bs;
    }
    calc {
      ParseFrom(BlockLines(bs), []);
      { assert BlockLines(bs) + [] == BlockLines(bs); }
      ParseFrom(BlockLines(bs) + [], []);
      { ParseRun(bs, [], []); }
      ParseFrom([], Flush([], bs[0].path, places));
      Finished(Flush([], bs[0].path, places));
      { FlushCases([], bs[0].path, places);
        assert IndexOfKey([], FileOf, bs[0].path) == None;
        assert [] + [FileErrors(bs[0].path, SortByLine(places))] == [FileErrors(bs[0].path, SortByLine(places))]; }
      Finished([FileErrors(bs[0].path, SortByLine(places))]);
    }
  }

  lemma SortOne(f: FileErrors)
    ensures SortByName([f], NameOf) == [f]
  {
    assert [f][1..] == [];
  }

  /** Compiler output whose lines are valid blocks for one file parses to
      one record holding their places, sorted by line. */
  lemma ParseOneFile(rawError: string, bs: seq<Block>)
    requires bs != [] && forall x :: x in bs ==> ValidBlock(x) && x.path == bs[0].path
    requires Split(rawError, "\n") == BlockLines(bs)
    ensures Parse(rawError) == Finished([FileErrors(bs[0].path, SortByLine(BlockPlaces(bs)))])
  {
    var record := [FileErrors(bs[0].path, SortByLine(BlockPlaces(bs)))];
    RunAlone(bs);
    SortOne(record[0]);
    ParseOfLines(rawError, BlockLines(bs), record);
  }

  /** Two valid blocks for one file, the whole output: one record with both
      places, ordered by line whatever order they were printed in. */
  lemma TwoBlocksOneFile(rawError: string, b1: Block, b2: Block)
    requires ValidBlock(b1) && ValidBlock(b2) && b1.path == b2.path
    requires Split(rawError, "\n") == BlockLines([b1, b2])
    ensures Parse(rawError) ==
      Finished([FileErrors(b1.path,
        if b1.line <= b2.line then [BlockPlace(b1), BlockPlace(b2)] else [BlockPlace(b2), BlockPlace(b1)])])
  {
    var bs := [b1, b2];
    assert forall x :: x in bs ==> ValidBlock(x) && x.path == bs[0].path;
    ParseOneFile(rawError, bs);
    TwoPlacesSorted(b1, b2);
  }

  lemma TwoPlacesSorted(b1: Block, b2: Block)
    ensures SortByLine(BlockPlaces([b1, b2])) ==
      if b1.line <= b2.line then [BlockPlace(b1), BlockPlace(b2)] else [BlockPlace(b2), BlockPlace(b1)]
  {
    assert BlockPlaces([b1, b2]) == [BlockPlace(b1), BlockPlace(b2)] by {
      BlockPlacesCons(b1, [b2]);
      BlockPlacesCons(b2, []);
      assert [b1] + [b2] == [b1, b2];
    }
    SortTwo(BlockPlace(b1), BlockPlace(b2));
  }

  /** The compiler output for two errors in `main.swift`. */
  const FirstBlock := Block("/App/main.swift", 10, "5", " error", " no return", "return x", "    ^")
  const SecondBlock := Block(FirstBlock.path, 20, "1", " error", " bad token", "f() {", "^")

  lemma ExamplePathShape()
    ensures var path := FirstBlock.path;
      HasPrefix(path, "/") && |path| >= 6 && path[|path| - 6..] == ".swift"
  {
  }

  lemma ExamplePathPlain()
    ensures ':' !in FirstBlock.path && '\n' !in FirstBlock.path
  {
  }

  lemma FirstBlockValid()
    ensures ValidBlock(FirstBlock)
  {
    ExamplePathShape();
    ExamplePathPlain();
    OccursAtContains(" error", "error", 1);
    OccursAtContains("    ^", "^", 4);
  }

  lemma FirstBlockSingle()
    ensures SingleLine(FirstBlock)
  {
    ExamplePathPlain();
  }

  lemma SecondBlockValid()
    ensures ValidBlock(SecondBlock)
  {
    ExamplePathShape();
    ExamplePathPlain();
    OccursAtContains(" error", "error", 1);
    OccursAtContains("^", "^", 0);
  }

  lemma SecondBlockSingle()
    ensures SingleLine(SecondBlock)
  {
    ExamplePathPlain();
  }

  /** The error on line 20 printed before the error on line 10 parses to
      one record for `main.swift` with the places reordered: line 10, then
      line 20. */
  lemma MainSwiftExample()
    ensures Parse(Join(BlockLines([SecondBlock, FirstBlock]), "\n")) ==
      Finished([FileErrors("/App/main.swift", [BlockPlace(FirstBlock), BlockPlace(SecondBlock)])])
  {
    var raw := Join(BlockLines([SecondBlock, FirstBlock]), "\n");
    FirstBlockValid();
    FirstBlockSingle();
    SecondBlockValid();
    SecondBlockSingle();
    assert Split(raw, "\n") == BlockLines([SecondBlock, FirstBlock]) by {
      SplitBlockText([SecondBlock, FirstBlock]);
    }
    TwoBlocksOneFile(raw, SecondBlock, FirstBlock);
  }

  // ---------------------------------------------------------------------
  // Records, once made, stay

  /** Some record is for `file`. */
  predicate HasRecordFor(errors: seq<FileErrors>, file: string) {
    exists j :: 0 <= j < |errors| && errors[j].file == file
  }

  /** A flush never drops a file's record. */
  lemma FlushKeepsRecords(errors: seq<FileErrors>, path: string, places: seq<Place>, file: string)
    requires HasRecordFor(errors, file)
    ensures HasRecordFor(Flush(errors, path, places), file)
  {
    if places != [] {
      FlushCases(errors, path, places);
      var j :| 0 <= j < |errors| && errors[j].file == file;
      var r := Flush(errors, path, places);
      assert r[j].file == file;
    }
  }

  lemma {:induction false} ParseGroupKeepsRecords(lines: seq<string>, path: string, fields: seq<string>,
                                                  places: seq<Place>, errors: seq<FileErrors>, file: string)
    requires |fields| == 5 && HasRecordFor(errors, file)
    ensures ParseGroup(lines, path, fields, places, errors).Finished? ==>
      HasRecordFor(ParseGroup(lines, path, fields, places, errors).value.1, file)
    decreases |lines|
  {
    match ParseInt(fields[1])
    case None => FlushKeepsRecords(errors, path, places, file);
    case Some(n) =>
      if |lines| >= 2 {
        var code, pointer, rest := lines[0], lines[1], lines[2..];
        if !Contains(pointer, "^") {
          FlushKeepsRecords(errors, path, places, file);
        } else {
          var grown := places + [Place(n, fields[4], code, pointer)];
          var next := if rest == [] then None else Header(rest[0]);
          if next.Some? && next.value[0] == path {
            ParseGroupKeepsRecords(rest[1..], path, next.value, grown, errors, file);
          } else {
            FlushKeepsRecords(errors, path, grown, file);
          }
        }
      }
  }

  /** The scan never drops a file's record. */
  lemma {:induction false} ParseFromKeepsRecords(lines: seq<string>, errors: seq<FileErrors>, file: string)
    requires HasRecordFor(errors, file)
    ensures ParseFrom(lines, errors).Finished? ==> HasRecordFor(ParseFrom(lines, errors).value, file)
    decreases |lines|
  {
    if lines != [] {
      match Header(lines[0])
      case None => ParseFromKeepsRecords(lines[1..], errors, file);
      case Some(fields) =>
        ParseGroupKeepsRecords(lines[1..], fields[0], fields, [], errors, file);
        match ParseGroup(lines[1..], fields[0], fields, [], errors)
        case Trapped =>
        case Finished((rest, flushed)) => ParseFromKeepsRecords(rest, flushed, file);
    }
  }

  /** Lines that are not headers are skipped. */
  lemma {:induction false} SkipPlainLines(plain: seq<string>, lines: seq<string>, errors: seq<FileErrors>)
    requires forall k :: 0 <= k < |plain| ==> Header(plain[k]).None?
    ensures ParseFrom(plain + lines, errors) == ParseFrom(lines, errors)
    decreases |plain|
  {
    if plain != [] {
      assert (plain + lines)[0] == plain[0];
      assert (plain + lines)[1..] == plain[1..] + lines;
      SkipPlainLines(plain[1..], lines, errors);
    } else {
      assert plain + lines == lines;
    }
  }

  /** A valid diagnostic after lines that are not headers, and not continued
      by the next line, starts the records with one for its file. */
  lemma FirstRecordFromBlock(plain: seq<string>, b: Block, rest: seq<string>)
    requires forall k :: 0 <= k < |plain| ==> Header(plain[k]).None?
    requires ValidBlock(b) && GroupEnds(rest, b.path)
    ensures ParseFrom(plain + (BlockLines([b]) + rest), []) == ParseFrom(rest, [FileErrors(b.path, [BlockPlace(b)])])
  {
    var p := BlockPlace(b);
    SkipPlainLines(plain, BlockLines([b]) + rest, []);
    ParseRun([b], rest, []);
    assert BlockPlaces([b]) == [p] by {
      BlockPlacesCons(b, []);
      assert [b] + [] == [b];
    }
    assert Flush([], b.path, [p]) == [FileErrors(b.path, SortByLine([p]))] by {
      FlushCases([], b.path, [p]);
    }
    SortSortedIsIdentity([p]);
  }

  /** Sorting by name keeps every file's record. */
  lemma SortKeepsRecord(errors: seq<FileErrors>, file: string)
    requires HasRecordFor(errors, file)
    ensures exists f :: f in SortByName(errors, NameOf) && f.file == file
  {
    var j :| 0 <= j < |errors| && errors[j].file == file;
    SortByNameMembers(errors, NameOf);
    assert errors[j] in SortByName(errors, NameOf);
  }

  /** Such a diagnostic leaves a record for its file in a finished parse. */
  lemma ValidBlockRecorded(rawError: string, plain: seq<string>, b: Block, rest: seq<string>)
    requires forall k :: 0 <= k < |plain| ==> Header(plain[k]).None?
    requires ValidBlock(b) && GroupEnds(rest, b.path)
    requires Split(rawError, "\n") == plain + (BlockLines([b]) + rest)
    ensures Parse(rawError).Finished? ==> exists f :: f in Parse(rawError).value && f.file == b.path
  {
    var first := [FileErrors(b.path, [BlockPlace(b)])];
    FirstRecordFromBlock(plain, b, rest);
    assert first[0].file == b.path;
    ParseFromKeepsRecords(rest, first, b.path);
    var scanned := ParseFrom(Split(rawError, "\n"), []);
    if scanned.Finished? {
      SortKeepsRecord(scanned.value, b.path);
    }
  }
}
