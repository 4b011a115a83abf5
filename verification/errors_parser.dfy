/** The compiler-diagnostics parser: a single forward pass over the lines of
    a failed build's output that turns each three-line error block (header,
    code excerpt, `^` pointer) into a `Place`, groups consecutive blocks for
    the same file, and flushes each group into one `CompilationError` per
    file.

    The behaviour is specified first on values (`ParseFrom`, `ParseGroup`,
    `Flush`, over `FileErrors`), and then `ParseCompilationErrors` does the
    same work on `CompilationError` objects, updating their `places` in
    place, and is proved to end in the state the specification gives. */
module ErrorsParser {
  import opened Wrappers
  import opened Text
  import opened Diagnostics

  /** The parse either finishes or reaches a `removeFirst` on an empty line
      list, which traps and stops the whole tool. */
  datatype Outcome<T> = Finished(value: T) | Trapped

  // ---------------------------------------------------------------------
  // Recognising an error header

  /** `lineIsPlace`: an absolute path mentioning a Swift source file. */
  predicate LineIsPlace(line: string) {
    HasPrefix(line, "/") && |Split(line, "/")| > 1 && Contains(line, ".swift:")
  }

  /** `placeErrorComponents`: exactly five `:`-separated fields (path, line,
      column, severity, message) whose fourth mentions `error`. */
  function PlaceErrorComponents(line: string): (r: Option<seq<string>>)
    ensures r.Some? ==> r.value == Split(line, ":") && |r.value| == 5
    ensures r.Some? <==> |Split(line, ":")| == 5 && Contains(Split(line, ":")[3], "error")
  {
    var components := Split(line, ":");
    if |components| == 5 && Contains(components[3], "error") then Some(components) else None
  }

  /** The components of an error line are five colon-free fields that join
      back into the line, and the line mentions `error`. */
  lemma ErrorComponentsRejoin(line: string)
    requires PlaceErrorComponents(line).Some?
    ensures var fields := PlaceErrorComponents(line).value;
      Join(fields, ":") == line && (forall k :: 0 <= k < 5 ==> !Contains(fields[k], ":")) &&
      Contains(line, "error")
  {
    var components := Split(line, ":");
    JoinSplit(line, ":");
    SplitPartsAvoidSeparator(line, ":");
    FieldContains(components, 3, ":", "error");
  }

  /** Text found in one field is found in the fields joined back. */
  lemma {:induction false} FieldContains(fields: seq<string>, k: nat, sep: string, pat: string)
    requires k < |fields| && |pat| > 0 && Contains(fields[k], pat)
    ensures Contains(Join(fields, sep), pat)
    decreases |fields|
  {
    var i := IndexOf(fields[k], pat).value;
    if |fields| == 1 {
    } else if k == 0 {
      JoinCons(fields[0], fields[1..], sep);
      assert fields == [fields[0]] + fields[1..];
      var whole := Join(fields, sep);
      assert whole[i..i + |pat|] == fields[0][i..i + |pat|];
      OccursAtContains(whole, pat, i);
    } else {
      FieldContains(fields[1..], k - 1, sep, pat);
      JoinCons(fields[0], fields[1..], sep);
      assert fields == [fields[0]] + fields[1..];
      var rest := Join(fields[1..], sep);
      var j := IndexOf(rest, pat).value;
      var whole := Join(fields, sep);
      var off := |fields[0]| + |sep|;
      assert whole[off + j..off + j + |pat|] == rest[j..j + |pat|];
      OccursAtContains(whole, pat, off + j);
    }
  }

  /** The fields of a line the parser accepts as an error header. */
  function Header(line: string): (r: Option<seq<string>>)
    ensures r.Some? ==> |r.value| == 5
  {
    if LineIsPlace(line) then PlaceErrorComponents(line) else None
  }

  // ---------------------------------------------------------------------
  // Ordering places by line (`sort(by: { $0.line < $1.line })`)

  predicate SortedByLine(ps: seq<Place>) {
    forall i, j :: 0 <= i < j < |ps| ==> ps[i].line <= ps[j].line
  }

  /** Where `p` goes in a line-sorted list: after every place on an earlier
      line, before the rest. */
  function LinePosition(p: Place, ps: seq<Place>): (k: nat)
    ensures k <= |ps|
    ensures forall i :: 0 <= i < k ==> ps[i].line < p.line
    ensures k < |ps| ==> p.line <= ps[k].line
  {
    if ps == [] || p.line <= ps[0].line then 0 else 1 + LinePosition(p, ps[1..])
  }

  function InsertByLine(p: Place, ps: seq<Place>): (r: seq<Place>)
    requires SortedByLine(ps)
    ensures SortedByLine(r) && multiset(r) == multiset(ps) + multiset{p}
  {
    var k := LinePosition(p, ps);
    InsertAtSorted(p, ps, k);
    ps[..k] + [p] + ps[k..]
  }

  lemma InsertAtSorted(p: Place, ps: seq<Place>, k: nat)
    requires SortedByLine(ps) && k == LinePosition(p, ps)
    ensures SortedByLine(ps[..k] + [p] + ps[k..])
    ensures multiset(ps[..k] + [p] + ps[k..]) == multiset(ps) + multiset{p}
  {
    var r := ps[..k] + [p] + ps[k..];
    InsertAtIndex(p, ps, k);
    forall i, j | 0 <= i < j < |r|
      ensures r[i].line <= r[j].line
    {
      if j == k {
        assert r[i] == ps[i];
      } else if i == k {
        assert r[j] == ps[j - 1];
      }
    }
  }

  /** The shape of `s` with `x` inserted at index `k`. */
  lemma InsertAtIndex<T>(x: T, s: seq<T>, k: nat)
    requires k <= |s|
    ensures |s[..k] + [x] + s[k..]| == |s| + 1
    ensures forall i :: 0 <= i < k ==> (s[..k] + [x] + s[k..])[i] == s[i]
    ensures (s[..k] + [x] + s[k..])[k] == x
    ensures forall i :: k < i <= |s| ==> (s[..k] + [x] + s[k..])[i] == s[i - 1]
    ensures multiset(s[..k] + [x] + s[k..]) == multiset(s) + multiset{x}
  {
    assert s == s[..k] + s[k..];
  }

  /** A stable insertion sort: places on the same line keep their order. */
  function SortByLine(ps: seq<Place>): (r: seq<Place>)
    ensures SortedByLine(r) && multiset(r) == multiset(ps)
  {
    if ps == [] then []
    else
      assert ps == [ps[0]] + ps[1..];
      InsertByLine(ps[0], SortByLine(ps[1..]))
  }

  // ---------------------------------------------------------------------
  // Merging places into an existing record (lines 33-37)

  /** Some place in `ps` has this line and this reason. */
  predicate HasKey(ps: seq<Place>, line: int, reason: string) {
    exists i :: 0 <= i < |ps| && ps[i].line == line && ps[i].reason == reason
  }

  function AppendIfAbsent(ps: seq<Place>, p: Place): seq<Place> {
    if HasKey(ps, p.line, p.reason) then ps else ps + [p]
  }

  /** Each incoming place, in order, is appended unless a place with the same
      (line, reason) is already there, counting those appended before it. */
  function MergePlaces(existing: seq<Place>, incoming: seq<Place>): seq<Place>
  {
    if incoming == [] then existing
    else AppendIfAbsent(MergePlaces(existing, incoming[..|incoming| - 1]), incoming[|incoming| - 1])
  }

  // ---------------------------------------------------------------------
  // Ordering records by file name (line 66)

  predicate SortedByName<T>(s: seq<T>, name: T -> string) {
    forall i, j :: 0 <= i < j < |s| ==> !LexLess(name(s[j]), name(s[i]))
  }

  /** Where `x` goes in a name-sorted list: after every element whose name is
      smaller, before the rest. */
  function NamePosition<T>(x: T, s: seq<T>, name: T -> string): (k: nat)
    ensures k <= |s|
    ensures forall i :: 0 <= i < k ==> LexLess(name(s[i]), name(x))
    ensures k < |s| ==> !LexLess(name(s[k]), name(x))
  {
    if s == [] || !LexLess(name(s[0]), name(x)) then 0 else 1 + NamePosition(x, s[1..], name)
  }

  function InsertByName<T>(x: T, s: seq<T>, name: T -> string): (r: seq<T>)
    requires SortedByName(s, name)
    ensures SortedByName(r, name) && multiset(r) == multiset(s) + multiset{x}
  {
    var k := NamePosition(x, s, name);
    InsertAtSortedByName(x, s, name, k);
    s[..k] + [x] + s[k..]
  }

  lemma InsertAtSortedByName<T>(x: T, s: seq<T>, name: T -> string, k: nat)
    requires SortedByName(s, name) && k == NamePosition(x, s, name)
    ensures SortedByName(s[..k] + [x] + s[k..], name)
    ensures multiset(s[..k] + [x] + s[k..]) == multiset(s) + multiset{x}
  {
    var r := s[..k] + [x] + s[k..];
    InsertAtIndex(x, s, k);
    forall i, j | 0 <= i < j < |r|
      ensures !LexLess(name(r[j]), name(r[i]))
    {
      if j == k {
        LexLessAsymmetric(name(s[i]), name(x));
      } else if i == k && j - 1 > k {
        LexLessNegativelyTransitive(name(s[j - 1]), name(s[k]), name(x));
      }
    }
  }

  /** A stable insertion sort by name. */
  function SortByName<T>(s: seq<T>, name: T -> string): (r: seq<T>)
    ensures SortedByName(r, name) && multiset(r) == multiset(s)
  {
    if s == [] then []
    else
      assert s == [s[0]] + s[1..];
      InsertByName(s[0], SortByName(s[1..], name), name)
  }

  /** Sorting by name keeps exactly the same elements. */
  lemma SortByNameMembers<T>(s: seq<T>, name: T -> string)
    ensures forall x :: x in SortByName(s, name) <==> x in s
  {
    var r := SortByName(s, name);
    forall x
      ensures x in r <==> x in s
    {
      assert x in r <==> x in multiset(r);
      assert x in s <==> x in multiset(s);
    }
  }

  /** `first(where:)` on a key: the first index holding key `k`. */
  function IndexOfKey<T>(s: seq<T>, key: T -> string, k: string): (r: Option<nat>)
    ensures r.Some? ==> r.value < |s| && key(s[r.value]) == k
    ensures r.Some? ==> forall j :: 0 <= j < r.value ==> key(s[j]) != k
    ensures r.None? ==> forall j :: 0 <= j < |s| ==> key(s[j]) != k
  {
    if s == [] then None
    else if key(s[0]) == k then Some(0)
    else match IndexOfKey(s[1..], key, k)
      case None => None
      case Some(i) => Some(i + 1)
  }

  // ---------------------------------------------------------------------
  // The specification of the pass, on values

  /** No two records share a file. */
  predicate UniqueFiles(errors: seq<FileErrors>) {
    forall i, j :: 0 <= i < j < |errors| ==> errors[i].file != errors[j].file
  }

  /** `gracefulExit`: commit the pending places of a group. Nothing happens
      when there are none; an existing record for the path gets the places
      whose (line, reason) it lacks and is re-sorted; otherwise a new record
      holds the pending places sorted by line. */
  function Flush(errors: seq<FileErrors>, path: string, places: seq<Place>): seq<FileErrors>
  {
    if places == [] then errors
    else match IndexOfKey(errors, FileOf, path)
      case Some(i) => errors[i := FileErrors(path, SortByLine(MergePlaces(errors[i].places, places)))]
      case None => errors + [FileErrors(path, SortByLine(places))]
  }

  /** `parsePlace` on a header with these `fields`, whose group collects
      `places` for `path`, with `lines` still unread. It returns the lines
      left unread and the records after the group is flushed. */
  function ParseGroup(lines: seq<string>, path: string, fields: seq<string>, places: seq<Place>,
                      errors: seq<FileErrors>): (r: Outcome<(seq<string>, seq<FileErrors>)>)
    requires |fields| == 5
    ensures r.Finished? ==> |r.value.0| <= |lines| && r.value.0 == lines[|lines| - |r.value.0|..]
    decreases |lines|
  {
    match ParseInt(fields[1])
    case None => Finished((lines, Flush(errors, path, places)))
    case Some(lineInFile) =>
      if |lines| < 2 then Trapped
      else
        var code, pointer, rest := lines[0], lines[1], lines[2..];
        if !Contains(pointer, "^") then Finished((rest, Flush(errors, path, places)))
        else
          var grown := places + [Place(lineInFile, fields[4], code, pointer)];
          var next := if rest == [] then None else Header(rest[0]);
          if next.Some? && next.value[0] == path then
            var r := ParseGroup(rest[1..], path, next.value, grown, errors);
            assert r.Finished? ==> rest[1..][|rest[1..]| - |r.value.0|..] == lines[|lines| - |r.value.0|..];
            r
          else Finished((rest, Flush(errors, path, grown)))
  }

  /** The outer `while` loop: skip lines that are not error headers, hand the
      others to `ParseGroup`, until no line is left. */
  function ParseFrom(lines: seq<string>, errors: seq<FileErrors>): Outcome<seq<FileErrors>>
    decreases |lines|
  {
    if lines == [] then Finished(errors)
    else match Header(lines[0])
      case None => ParseFrom(lines[1..], errors)
      case Some(fields) =>
        match ParseGroup(lines[1..], fields[0], fields, [], errors)
        case Trapped => Trapped
        case Finished((rest, flushed)) => ParseFrom(rest, flushed)
  }

  /** `pasreCompilationErrors`: the records, ordered by file name. */
  function Parse(rawError: string): Outcome<seq<FileErrors>>
  {
    match ParseFrom(Split(rawError, "\n"), [])
    case Trapped => Trapped
    case Finished(errors) => Finished(SortByName(errors, NameOf))
  }

  /** What the outer loop goes on to produce once a group has ended. */
  ghost function AfterGroup(g: Outcome<(seq<string>, seq<FileErrors>)>): Outcome<seq<FileErrors>>
  {
    match g
    case Trapped => Trapped
    case Finished((rest, flushed)) => ParseFrom(rest, flushed)
  }

  // ---------------------------------------------------------------------
  // Facts the imperative pass relies on

  lemma {:induction false} IndexOfKeyAgrees<A, B>(s: seq<A>, t: seq<B>, ka: A -> string, kb: B -> string, k: string)
    requires |s| == |t| && forall i :: 0 <= i < |s| ==> ka(s[i]) == kb(t[i])
    ensures IndexOfKey(s, ka, k) == IndexOfKey(t, kb, k)
  {
    if s != [] && ka(s[0]) != k {
      IndexOfKeyAgrees(s[1..], t[1..], ka, kb, k);
    }
  }

  lemma {:induction false} NamePositionAgrees<A, B>(x: A, s: seq<A>, na: A -> string, y: B, t: seq<B>, nb: B -> string)
    requires na(x) == nb(y)
    requires |s| == |t| && forall i :: 0 <= i < |s| ==> na(s[i]) == nb(t[i])
    ensures NamePosition(x, s, na) == NamePosition(y, t, nb)
  {
    if s != [] && LexLess(na(s[0]), na(x)) {
      NamePositionAgrees(x, s[1..], na, y, t[1..], nb);
    }
  }

  lemma SnapshotTail(errors: seq<CompilationError>)
    requires errors != []
    ensures Snapshot(errors[1..]) == Snapshot(errors)[1..]
  {
  }

  lemma SnapshotInsert(x: CompilationError, s: seq<CompilationError>, k: nat)
    requires k <= |s|
    ensures Snapshot(s[..k] + [x] + s[k..]) == Snapshot(s)[..k] + [FileErrors(x.file, x.places)] + Snapshot(s)[k..]
  {
  }

  /** Sorting the records and then reading them gives the same as reading
      them and sorting the values. */
  lemma {:induction false} SnapshotSortByName(errors: seq<CompilationError>)
    ensures Snapshot(SortByName(errors, ErrorName)) == SortByName(Snapshot(errors), NameOf)
  {
    if errors != [] {
      var tail := SortByName(errors[1..], ErrorName);
      var values := Snapshot(errors);
      SnapshotSortByName(errors[1..]);
      SnapshotTail(errors);
      var vtail := Snapshot(tail);
      assert vtail == SortByName(values[1..], NameOf);
      NamePositionAgrees(errors[0], tail, ErrorName, values[0], vtail, NameOf);
      var k := NamePosition(errors[0], tail, ErrorName);
      SnapshotInsert(errors[0], tail, k);
      assert SortByName(errors, ErrorName) == tail[..k] + [errors[0]] + tail[k..];
      assert SortByName(values, NameOf) == vtail[..k] + [values[0]] + vtail[k..];
    }
  }

  lemma FlushCases(errors: seq<FileErrors>, path: string, places: seq<Place>)
    requires places != []
    ensures IndexOfKey(errors, FileOf, path).Some? ==>
      var i := IndexOfKey(errors, FileOf, path).value;
      Flush(errors, path, places) == errors[i := FileErrors(path, SortByLine(MergePlaces(errors[i].places, places)))]
    ensures IndexOfKey(errors, FileOf, path).None? ==>
      Flush(errors, path, places) == errors + [FileErrors(path, SortByLine(places))]
  {
  }

  /** Flushing never makes two records share a file. */
  lemma FlushKeepsFilesUnique(errors: seq<FileErrors>, path: string, places: seq<Place>)
    requires UniqueFiles(errors)
    ensures UniqueFiles(Flush(errors, path, places))
  {
    if places != [] {
      FlushCases(errors, path, places);
    }
  }

  // ---------------------------------------------------------------------
  // The pass itself, on `CompilationError` objects

  /** Lines 33-38: append to `entry` each place whose (line, reason) it does
      not hold yet, then sort its places by line. */
  method MergeInto(entry: CompilationError, places: seq<Place>)
    modifies entry
    ensures entry.places == SortByLine(MergePlaces(old(entry.places), places))
  {
    for i := 0 to |places|
      invariant entry.places == MergePlaces(old(entry.places), places[..i])
    {
      var place := places[i];
      if !HasKey(entry.places, place.line, place.reason) {
        entry.places := entry.places + [place];
      }
      assert places[..i + 1][..i] == places[..i];
    }
    assert places[..|places|] == places;
    entry.places := SortByLine(entry.places);
  }

  /** The existing record at index `i` takes the pending places; no other
      record changes. */
  method MergeAt(errors: seq<CompilationError>, i: nat, places: seq<Place>)
    requires i < |errors| && UniqueFiles(Snapshot(errors))
    modifies errors[i]
    ensures Snapshot(errors) ==
      old(Snapshot(errors))[i := FileErrors(errors[i].file, SortByLine(MergePlaces(old(errors[i].places), places)))]
  {
    ghost var before := Snapshot(errors);
    var entry := errors[i];
    MergeInto(entry, places);
    forall j | 0 <= j < |errors| && j != i
      ensures Snapshot(errors)[j] == before[j]
    {
      assert before[j].file != before[i].file;
    }
  }

  /** A new record for `path` holding the pending places sorted by line. */
  method AppendNew(errors: seq<CompilationError>, path: string, places: seq<Place>)
    returns (result: seq<CompilationError>)
    ensures Snapshot(result) == Snapshot(errors) + [FileErrors(path, SortByLine(places))]
    ensures forall e :: e in result ==> e in errors || fresh(e)
  {
    var entry := new CompilationError(path, SortByLine(places));
    result := errors + [entry];
    assert forall j :: 0 <= j < |errors| ==> result[j] == errors[j];
  }

  /** `gracefulExit` (lines 30-44) on the records found so far. */
  method GracefulExit(errors: seq<CompilationError>, path: string, places: seq<Place>)
    returns (result: seq<CompilationError>)
    requires UniqueFiles(Snapshot(errors))
    modifies errors
    ensures Snapshot(result) == Flush(old(Snapshot(errors)), path, places)
    ensures forall e :: e in result ==> e in errors || fresh(e)
  {
    result := errors;
    if places != [] {
      ghost var before := Snapshot(errors);
      var found := IndexOfKey(errors, ErrorFile, path);
      IndexOfKeyAgrees(errors, before, ErrorFile, FileOf, path);
      FlushCases(before, path, places);
      if found.Some? {
        MergeAt(errors, found.value, places);
      } else {
        result := AppendNew(errors, path, places);
      }
    }
  }

  /** `parsePlace` (lines 27-62) from a header with these `fields`: the
      recursion over the lines of one group is a loop that collects the
      group's places, and the group ends with one `gracefulExit`. */
  method ParsePlace(lines: seq<string>, fields: seq<string>, errors: seq<CompilationError>)
    returns (r: Outcome<(seq<string>, seq<CompilationError>)>)
    requires |fields| == 5
    requires UniqueFiles(Snapshot(errors))
    modifies errors
    ensures r.Trapped? <==> ParseGroup(lines, fields[0], fields, [], old(Snapshot(errors))).Trapped?
    ensures r.Finished? ==>
      ParseGroup(lines, fields[0], fields, [], old(Snapshot(errors))) == Finished((r.value.0, Snapshot(r.value.1)))
    ensures r.Finished? ==> UniqueFiles(Snapshot(r.value.1))
    ensures r.Finished? ==> forall e :: e in r.value.1 ==> e in errors || fresh(e)
  {
    var path := fields[0];
    var header := fields;
    var rest := lines;
    var places: seq<Place> := [];
    ghost var before := Snapshot(errors);
    ghost var goal := ParseGroup(lines, path, fields, [], before);
    var done := false;
    while !done
      invariant |header| == 5
      invariant !done ==> ParseGroup(rest, path, header, places, before) == goal
      invariant done ==> goal == Finished((rest, Flush(before, path, places)))
      decreases |rest|, !done
    {
      var lineInFile := ParseInt(header[1]);
      if lineInFile.None? {
        done := true;
      } else {
        if |rest| < 2 {
          return Trapped;
        }
        var lineWithCode := rest[0];
        var lineWithPointer := rest[1];
        rest := rest[2..];
        if !Contains(lineWithPointer, "^") {
          done := true;
        } else {
          places := places + [Place(lineInFile.value, header[4], lineWithCode, lineWithPointer)];
          var next := if rest != [] && LineIsPlace(rest[0]) then PlaceErrorComponents(rest[0]) else None;
          if next.Some? && next.value[0] == path {
            header := next.value;
            rest := rest[1..];
          } else {
            done := true;
          }
        }
      }
    }
    FlushKeepsFilesUnique(before, path, places);
    var flushed := GracefulExit(errors, path, places);
    r := Finished((rest, flushed));
  }

  /** `pasreCompilationErrors` (lines 10-68): skip lines that are not
      headers, parse each group, then order the records by file name. */
  method ParseCompilationErrors(rawError: string) returns (r: Outcome<seq<CompilationError>>)
    ensures r.Trapped? <==> Parse(rawError).Trapped?
    ensures r.Finished? ==> Snapshot(r.value) == Parse(rawError).value
    ensures r.Finished? ==> forall e :: e in r.value ==> fresh(e)
  {
    var errors: seq<CompilationError> := [];
    var lines := Split(rawError, "\n");
    ghost var target := ParseFrom(lines, []);
    while lines != []
      invariant ParseFrom(lines, Snapshot(errors)) == target
      invariant UniqueFiles(Snapshot(errors))
      invariant forall e :: e in errors ==> fresh(e)
      decreases |lines|
    {
      var line := lines[0];
      lines := lines[1..];
      var header := Header(line);
      if header.Some? {
        ghost var group := ParseGroup(lines, header.value[0], header.value, [], Snapshot(errors));
        assert AfterGroup(group) == target;
        assert fresh(set e | e in errors);
        var parsed := ParsePlace(lines, header.value, errors);
        if parsed.Trapped? {
          return Trapped;
        }
        lines, errors := parsed.value.0, parsed.value.1;
      }
    }
    SnapshotSortByName(errors);
    var sorted := SortByName(errors, ErrorName);
    SortByNameMembers(errors, ErrorName);
    r := Finished(sorted);
  }
}
