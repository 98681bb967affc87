/**
 * The per-person tally `renderReport` in script.js builds while drawing the
 * table: for every printed line, left side then right side, a non-blank
 * name is counted and the position it holds is recorded. Names held more
 * than once are then highlighted.
 */
module Tally {
  import opened Text
  import opened Cells
  import opened Columns
  import opened Wrappers
  import opened Report

  /** `name && name.trim()` for a name that is a string, and that name is `name`. */
  predicate CountsFor(e: ReportRow, name: string) {
    e.name.Str? && Trim(e.name.s, JS_SPACE) != [] && e.name.s == name
  }

  /** The positions recorded for `name`, in walking order: one per entry that counts for it. */
  function Tallied(entries: seq<ReportRow>, name: string): seq<string> {
    if entries == [] then []
    else
      var last := entries[|entries| - 1];
      Tallied(entries[..|entries| - 1], name) + (if CountsFor(last, name) then [last.position] else [])
  }

  /** `nameCount` and `professorPositions` hold the tally of `entries`. */
  ghost predicate TallyOf(nameCount: map<string, nat>, positions: map<string, seq<string>>, entries: seq<ReportRow>) {
    forall name ::
      && (name in nameCount <==> Tallied(entries, name) != [])
      && (name in positions <==> Tallied(entries, name) != [])
      && (name in nameCount ==> nameCount[name] == |Tallied(entries, name)|)
      && (name in positions ==> positions[name] == Tallied(entries, name))
  }

  /** `name.trim()` throws a TypeError: the name is truthy but not a string. */
  predicate TrimThrows(e: ReportRow) {
    Truthy(e.name) && !e.name.Str?
  }

  /** Some line holds, on either side, a name `name.trim()` throws on. */
  predicate SomeTrimThrows(rows: seq<Pair<ReportRow>>) {
    exists k :: 0 <= k < |rows| && (TrimThrows(rows[k].left) || TrimThrows(rows[k].right))
  }

  /** The two maps the walk builds. */
  datatype Counts = Counts(nameCount: map<string, nat>, positions: map<string, seq<string>>)

  /**
   * The two `forEach` loops: `nameCount[name]` counts the lines a name
   * holds and `professorPositions[name]` lists their positions in order; a
   * name is a key exactly when it holds at least one line. A truthy name
   * that is not a string makes `name.trim()` throw a TypeError, which ends
   * the rendering.
   */
  method TallyNames(rows: seq<Pair<ReportRow>>) returns (r: Result<Counts, Error>)
    ensures r.Err? <==> SomeTrimThrows(rows)
    ensures r.Err? ==> r.error == TypeError
    ensures r.Ok? ==> TallyOf(r.value.nameCount, r.value.positions, Entries(rows))
  {
    var counts := Counts(map[], map[]);
    for i := 0 to |rows|
      invariant TallyOf(counts.nameCount, counts.positions, Entries(rows[..i]))
      invariant forall k :: 0 <= k < i ==> !TrimThrows(rows[k].left) && !TrimThrows(rows[k].right)
    {
      var next := TallyLine(counts, rows[i], Entries(rows[..i]));
      if next.Err? {
        return next;
      }
      counts := next.value;
      assert rows[..i + 1][..i] == rows[..i];
    }
    assert rows[..|rows|] == rows;
    r := Ok(counts);
  }

  /** The inner `forEach` over one line: its left entry, then its right. */
  method TallyLine(counts: Counts, line: Pair<ReportRow>, ghost done: seq<ReportRow>) returns (r: Result<Counts, Error>)
    requires TallyOf(counts.nameCount, counts.positions, done)
    ensures r.Err? <==> TrimThrows(line.left) || TrimThrows(line.right)
    ensures r.Err? ==> r.error == TypeError
    ensures r.Ok? ==> TallyOf(r.value.nameCount, r.value.positions, done + Sides(line))
  {
    if TrimThrows(line.left) {
      return Err(TypeError);
    }
    var nameCount, positions := Record(counts.nameCount, counts.positions, line.left, done);
    if TrimThrows(line.right) {
      return Err(TypeError);
    }
    nameCount, positions := Record(nameCount, positions, line.right, done + [line.left]);
    assert done + Sides(line) == (done + [line.left]) + [line.right];
    r := Ok(Counts(nameCount, positions));
  }

  /** The body of the inner `forEach`: count one entry if its name is not blank. */
  method Record(nameCount: map<string, nat>, positions: map<string, seq<string>>, entry: ReportRow, ghost seen: seq<ReportRow>)
    returns (nameCount': map<string, nat>, positions': map<string, seq<string>>)
    requires TallyOf(nameCount, positions, seen)
    ensures TallyOf(nameCount', positions', seen + [entry])
  {
    nameCount', positions' := nameCount, positions;
    if entry.name.Str? && Trim(entry.name.s, JS_SPACE) != [] {
      var name := entry.name.s;
      nameCount' := nameCount'[name := (if name in nameCount' then nameCount'[name] else 0) + 1];
      if name !in positions' {
        positions' := positions'[name := []];
      }
      positions' := positions'[name := positions'[name] + [entry.position]];
    }
    forall other
      ensures && (other in nameCount' <==> Tallied(seen + [entry], other) != [])
              && (other in positions' <==> Tallied(seen + [entry], other) != [])
              && (other in nameCount' ==> nameCount'[other] == |Tallied(seen + [entry], other)|)
              && (other in positions' ==> positions'[other] == Tallied(seen + [entry], other))
    {
      TalliedSnoc(seen, entry, other);
    }
  }

  /** Tallying a concatenation tallies each part. */
  lemma {:induction false} TalliedConcat(a: seq<ReportRow>, b: seq<ReportRow>, name: string)
    ensures Tallied(a + b, name) == Tallied(a, name) + Tallied(b, name)
    decreases |b|
  {
    if b == [] {
      assert a + b == a;
    } else {
      assert (a + b)[..|a + b| - 1] == a + b[..|b| - 1];
      TalliedConcat(a, b[..|b| - 1], name);
    }
  }

  /** Tallying a sequence with one more entry. */
  lemma TalliedSnoc(a: seq<ReportRow>, e: ReportRow, name: string)
    ensures Tallied(a + [e], name) == Tallied(a, name) + (if CountsFor(e, name) then [e.position] else [])
  {
    assert (a + [e])[..|a + [e]| - 1] == a;
  }

  /** Walking the lines pair by pair counts as many entries for a name as reading the left column and then the right. */
  lemma {:induction false} EntriesCountLikeColumns(rows: seq<Pair<ReportRow>>, name: string)
    ensures |Tallied(Entries(rows), name)| == |Tallied(Lefts(rows), name)| + |Tallied(Rights(rows), name)|
    decreases |rows|
  {
    if rows != [] {
      var n := |rows| - 1;
      var init := rows[..n];
      EntriesCountLikeColumns(init, name);
      assert Entries(rows) == (Entries(init) + [rows[n].left]) + [rows[n].right];
      assert Lefts(rows) == Lefts(init) + [rows[n].left];
      assert Rights(rows) == Rights(init) + [rows[n].right];
      TalliedSnoc(Entries(init) + [rows[n].left], rows[n].right, name);
      TalliedSnoc(Entries(init), rows[n].left, name);
      TalliedSnoc(Lefts(init), rows[n].left, name);
      TalliedSnoc(Rights(init), rows[n].right, name);
    }
  }

  /** Blank padding counts for nobody. */
  lemma {:induction false} BlanksCountForNobody(pad: seq<ReportRow>, name: string)
    requires forall k :: 0 <= k < |pad| ==> pad[k] == BLANK
    ensures Tallied(pad, name) == []
    decreases |pad|
  {
    if pad != [] {
      BlanksCountForNobody(pad[..|pad| - 1], name);
    }
  }

  /**
   * The two-column layout changes no one's count: a name is counted on the
   * printed page exactly as often as it appears among the report lines.
   */
  lemma LayoutKeepsCounts(rows: seq<Pair<ReportRow>>, lines: seq<ReportRow>, name: string)
    requires IsSplitOf(rows, lines, BLANK)
    ensures |Tallied(Entries(rows), name)| == |Tallied(lines, name)|
  {
    SplitRoundTrip(rows, lines, BLANK);
    var flat := Unsplit(rows);
    assert flat == lines + flat[|lines|..];
    TalliedConcat(Lefts(rows), Rights(rows), name);
    TalliedConcat(lines, flat[|lines|..], name);
    BlanksCountForNobody(flat[|lines|..], name);
    EntriesCountLikeColumns(rows, name);
  }
}
