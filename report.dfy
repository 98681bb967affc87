/**
 * The report builder of script.js (`processData` and `formatDate`): it reads
 * the date from the roster's filename, extracts the canonical positions from
 * the criteria sheet and fills their categories down, finds the roster's
 * header row, keeps the active appointments, matches every canonical
 * position against them, and lays the result out in two columns.
 *
 * The sheets arrive as rows of cells. Converting a spreadsheet serial number
 * to a date is done by a library the model does not contain; it is the
 * parameter `serialDate` wherever a date cell may be a number.
 */
module Report {
  import opened Wrappers
  import opened Text
  import opened Cells
  import opened Columns
  import opened Matcher

  /** Why `processData` throws. */
  datatype Error =
    | HeaderNotFound  // no cell '성명' in the first ten roster rows
    | TypeError       // a string method called on a number, `undefined` or `null`

  /** One row of the criteria sheet that names a canonical position. */
  datatype Criterion = Criterion(category: Cell, position: Cell, originalIndex: nat)

  /** One line of the report: the canonical position and who holds it ('' when nobody does). */
  datatype ReportRow = ReportRow(category: Cell, position: string, name: Cell, period: string)

  /** The report handed to the renderer. */
  datatype Report = Report(
    title: string,
    date: string,
    leftHeaders: seq<string>,
    rightHeaders: seq<string>,
    rows: seq<Pair<ReportRow>>)

  const DEFAULT_DATE: string := "2025.10.01."
  const NAME_HEADER: string := "성명"
  const POSITION_HEADER: string := "발령직위"
  const START_HEADER: string := "발령시작일"
  const END_HEADER: string := "발령종료일"
  const STATE_HEADER: string := "발령상태"
  const SERVING: string := "재직"
  const KEPT_ON: string := "유지"
  const HEADERS: seq<string> := ["구분", "보 직 명", "성 명", "기 간"]
  const BLANK: ReportRow := ReportRow(Str(""), "", Str(""), "")

  // ---------------------------------------------------------------- dates

  /** Eight digits written `YYYY.MM.DD`. */
  function Dotted(d: string): string
    requires |d| == 8
  {
    d[..4] + "." + d[4..6] + "." + d[6..]
  }

  /** Taking the digits back out of a dotted date gives the eight digits it was made from. */
  lemma DottedDigits(d: string)
    requires |d| == 8 && AllDigits(d)
    ensures |Dotted(d)| == 10 && Dotted(d)[4] == '.' && Dotted(d)[7] == '.'
    ensures DigitsOf(Dotted(d)) == d
  {
    var b := d[..4] + ".";
    var c := b + d[4..6];
    var e := c + ".";
    assert DigitsOf(".") == [];
    DigitsOfConcat(d[..4], ".");
    DigitsOfConcat(b, d[4..6]);
    DigitsOfConcat(c, ".");
    DigitsOfConcat(e, d[6..]);
    DigitsOfDigits(d[..4]);
    DigitsOfDigits(d[4..6]);
    DigitsOfDigits(d[6..]);
    assert d[..4] + d[4..6] + d[6..] == d;
  }

  /**
   * The date in the roster's filename: the first eight consecutive digits,
   * written `YYYY.MM.DD.`, or the fixed default when there is no such run.
   */
  function ExtractDate(filename: string): (date: string)
    ensures |date| == 11 && date[4] == '.' && date[7] == '.' && date[10] == '.'
    ensures FirstDigits(filename, 8).Some? ==>
              var i := FirstDigits(filename, 8).value;
              DigitsOf(date) == filename[i..i + 8]
    ensures FirstDigits(filename, 8).None? ==> date == DEFAULT_DATE
  {
    match FirstDigits(filename, 8)
    case None => DEFAULT_DATE
    case Some(i) =>
      var d := filename[i..i + 8];
      DottedDigits(d);
      DigitsOfConcat(Dotted(d), ".");
      Dotted(d) + "."
  }

  /**
   * `formatDate(excelDate)`: '' for a falsy cell; a number goes to the
   * spreadsheet library; otherwise only the digits are kept, and exactly
   * eight of them are written `YYYY.MM.DD`.
   */
  function FormatDate(c: Cell, serialDate: int -> string): (r: string)
    ensures !Truthy(c) ==> r == ""
    ensures c.Num? && Truthy(c) ==> r == serialDate(c.n)
    ensures c.Str? && Truthy(c) ==> DigitsOf(r) == DigitsOf(c.s)
    ensures c.Str? && Truthy(c) && |DigitsOf(c.s)| == 8 ==> |r| == 10 && r[4] == '.' && r[7] == '.'
    ensures c.Str? && Truthy(c) && |DigitsOf(c.s)| != 8 ==> r == DigitsOf(c.s)
  {
    if !Truthy(c) then ""
    else if c.Num? then serialDate(c.n)
    else
      var digits := DigitsOf(c.s);
      if |digits| == 8 then
        DottedDigits(digits);
        Dotted(digits)
      else
        DigitsOfDigits(digits);
        digits
  }

  /** A cell of exactly eight digits comes back dotted: "20250101" becomes "2025.01.01". */
  lemma FormatEightDigits(d: string, serialDate: int -> string)
    requires |d| == 8 && AllDigits(d)
    ensures FormatDate(Str(d), serialDate) == Dotted(d)
  {
    DigitsOfDigits(d);
  }

  // ------------------------------------------------------------- criteria

  /** The canonical position a criteria row names, if it has five cells and a category or a position. */
  function CriterionOf(row: Row, i: nat): (c: Option<Criterion>)
    ensures c.Some? <==> |row| >= 5 && (Truthy(row[1]) || Truthy(row[4]))
  {
    if |row| >= 5 && (Truthy(row[1]) || Truthy(row[4])) then
      Some(Criterion(Or(row[1], Str("")), Or(row[4], Str("")), i))
    else None
  }

  /** The canonical positions named by the criteria rows from index `from` on, in row order. */
  function CriteriaFrom(rows: seq<Row>, from: nat): seq<Criterion>
    decreases |rows| - from
  {
    if from >= |rows| then []
    else
      match CriterionOf(rows[from], from)
      case Some(c) => [c] + CriteriaFrom(rows, from + 1)
      case None => CriteriaFrom(rows, from + 1)
  }

  /** The first loop of step 2: every row after the header that names a position, in order. */
  method ExtractCriteria(rows: seq<Row>) returns (criteria: seq<Criterion>)
    ensures criteria == CriteriaFrom(rows, 1)
  {
    criteria := [];
    var i := 1;
    while i < |rows|
      invariant 1 <= i
      invariant i <= |rows| || (i == 1 && |rows| == 0)
      invariant criteria + CriteriaFrom(rows, i) == CriteriaFrom(rows, 1)
    {
      var row := rows[i];
      if |row| >= 5 && (Truthy(row[1]) || Truthy(row[4])) {
        criteria := criteria + [Criterion(Or(row[1], Str("")), Or(row[4], Str("")), i)];
        assert criteria + CriteriaFrom(rows, i + 1) == CriteriaFrom(rows, 1);
      }
      i := i + 1;
    }
  }

  /** Every extracted criterion is the one its own row, at or after `from`, names. */
  lemma {:induction false} CriteriaSound(rows: seq<Row>, from: nat)
    ensures forall c :: c in CriteriaFrom(rows, from) ==>
              from <= c.originalIndex < |rows| && CriterionOf(rows[c.originalIndex], c.originalIndex) == Some(c)
    decreases |rows| - from
  {
    if from < |rows| {
      CriteriaSound(rows, from + 1);
    }
  }

  /** The criteria keep the order of their rows. */
  lemma {:induction false} CriteriaOrdered(rows: seq<Row>, from: nat)
    ensures forall k, l :: 0 <= k < l < |CriteriaFrom(rows, from)| ==>
              CriteriaFrom(rows, from)[k].originalIndex < CriteriaFrom(rows, from)[l].originalIndex
    decreases |rows| - from
  {
    if from < |rows| {
      CriteriaOrdered(rows, from + 1);
      CriteriaSound(rows, from + 1);
      var rest := CriteriaFrom(rows, from + 1);
      if CriterionOf(rows[from], from).Some? {
        var all := CriteriaFrom(rows, from);
        assert all == [CriterionOf(rows[from], from).value] + rest;
        forall k, l | 0 <= k < l < |all|
          ensures all[k].originalIndex < all[l].originalIndex
        {
          if k == 0 {
            assert all[l] == rest[l - 1] && rest[l - 1] in rest;
          } else {
            assert all[k] == rest[k - 1] && all[l] == rest[l - 1];
          }
        }
      }
    }
  }

  /** Every row at or after `from` that names a position yields a criterion. */
  lemma {:induction false} CriteriaComplete(rows: seq<Row>, from: nat, i: nat)
    requires from <= i < |rows| && CriterionOf(rows[i], i).Some?
    ensures CriterionOf(rows[i], i).value in CriteriaFrom(rows, from)
    decreases |rows| - from
  {
    if from < i {
      CriteriaComplete(rows, from + 1, i);
    }
  }

  /**
   * The category in force at entry `k`: that of the nearest earlier entry
   * with a truthy category, or '' when there is none.
   */
  function LastCategory(items: seq<Criterion>, k: nat): (c: Cell)
    requires k <= |items|
  {
    if k == 0 then Str("")
    else if Truthy(items[k - 1].category) then items[k - 1].category
    else LastCategory(items, k - 1)
  }

  /** LastCategory is the category of the nearest earlier entry that has one. */
  lemma {:induction false} LastCategoryIsNearest(items: seq<Criterion>, k: nat, j: nat)
    requires j < k <= |items| && Truthy(items[j].category)
    requires forall m :: j < m < k ==> !Truthy(items[m].category)
    ensures LastCategory(items, k) == items[j].category
    decreases k
  {
    if j < k - 1 {
      LastCategoryIsNearest(items, k - 1, j);
    }
  }

  /** With no truthy category before entry `k`, the category in force is ''. */
  lemma {:induction false} LastCategoryNone(items: seq<Criterion>, k: nat)
    requires k <= |items|
    requires forall m :: 0 <= m < k ==> !Truthy(items[m].category)
    ensures LastCategory(items, k) == Str("")
  {
    if k > 0 {
      LastCategoryNone(items, k - 1);
    }
  }

  /** The criteria after fill-down: a falsy category is replaced by the one in force, the rest is kept. */
  function FilledDown(items: seq<Criterion>): (filled: seq<Criterion>)
    ensures |filled| == |items|
  {
    seq(|items|, k requires 0 <= k < |items| =>
      if Truthy(items[k].category) then items[k] else items[k].(category := LastCategory(items, k)))
  }

  /** The `forEach` of the fill-down, which overwrites each falsy category with the current one. */
  method FillDown(items: seq<Criterion>) returns (filled: seq<Criterion>)
    ensures filled == FilledDown(items)
  {
    filled := items;
    var current := Str("");
    for k := 0 to |items|
      invariant |filled| == |items|
      invariant current == LastCategory(items, k)
      invariant forall m :: 0 <= m < k ==> filled[m] == FilledDown(items)[m]
      invariant forall m :: k <= m < |items| ==> filled[m] == items[m]
    {
      if Truthy(filled[k].category) {
        current := filled[k].category;
      } else {
        filled := filled[k := filled[k].(category := current)];
      }
    }
  }

  /**
   * Fill-down keeps the order, the positions and every truthy category, and
   * gives every other entry the nearest earlier truthy category ('' if none),
   * so a category stays falsy only before the first truthy one.
   */
  lemma FillDownMeaning(items: seq<Criterion>, k: nat)
    requires k < |items|
    ensures FilledDown(items)[k].position == items[k].position
    ensures FilledDown(items)[k].originalIndex == items[k].originalIndex
    ensures Truthy(items[k].category) ==> FilledDown(items)[k].category == items[k].category
    ensures !Truthy(FilledDown(items)[k].category) ==>
              FilledDown(items)[k].category == Str("") && forall m :: 0 <= m <= k ==> !Truthy(items[m].category)
  {
    if !Truthy(items[k].category) {
      LastCategoryFalsy(items, k);
    }
  }

  /** The category in force is falsy only when it is '' and no earlier entry has a truthy category. */
  lemma {:induction false} LastCategoryFalsy(items: seq<Criterion>, k: nat)
    requires k <= |items|
    ensures !Truthy(LastCategory(items, k)) ==>
              LastCategory(items, k) == Str("") && forall m :: 0 <= m < k ==> !Truthy(items[m].category)
  {
    if k > 0 && !Truthy(items[k - 1].category) {
      LastCategoryFalsy(items, k - 1);
    }
  }

  // --------------------------------------------------------------- roster

  /** The roster's header row is the one holding a cell '성명'. */
  predicate HasNameHeader(row: Row) {
    Str(NAME_HEADER) in row
  }

  function HeaderTest(): Row -> bool {
    (row: Row) => HasNameHeader(row)
  }

  /** Only the first ten rows are searched for the header. */
  function SearchLimit(rows: seq<Row>): nat {
    if |rows| < 10 then |rows| else 10
  }

  /**
   * The index of the roster's header row: the first of the first
   * `min(10, rows.length)` rows that contains '성명', or None when none does.
   */
  function HeaderIndex(rows: seq<Row>): (h: Option<nat>)
    ensures h.Some? ==> h.value < SearchLimit(rows) && HasNameHeader(rows[h.value])
    ensures h.Some? ==> forall j :: 0 <= j < h.value ==> !HasNameHeader(rows[j])
    ensures h.None? <==> forall j :: 0 <= j < SearchLimit(rows) ==> !HasNameHeader(rows[j])
  {
    var r := Find(rows[..SearchLimit(rows)], HeaderTest());
    if r.Some? then Some(r.value) else None
  }

  /** The header search of step 3: a loop over the first ten rows that stops at the first header. */
  method FindHeader(rows: seq<Row>) returns (h: Option<nat>)
    ensures h == HeaderIndex(rows)
  {
    h := None;
    var i := 0;
    while i < SearchLimit(rows)
      invariant i <= SearchLimit(rows)
      invariant forall j :: 0 <= j < i ==> !HasNameHeader(rows[j])
    {
      if Str(NAME_HEADER) in rows[i] {
        h := Some(i);
        FindIsFirst(rows[..SearchLimit(rows)], HeaderTest(), i);
        return;
      }
      i := i + 1;
    }
  }

  /** Where the header row puts the five columns the roster filter reads (-1 when absent). */
  datatype RosterColumns = RosterColumns(name: int, position: int, start: int, end: int, state: int)

  function ColumnsOf(header: Row): RosterColumns {
    RosterColumns(
      IndexOf(header, Str(NAME_HEADER)),
      IndexOf(header, Str(POSITION_HEADER)),
      IndexOf(header, Str(START_HEADER)),
      IndexOf(header, Str(END_HEADER)),
      IndexOf(header, Str(STATE_HEADER)))
  }

  /** The status of a roster row; a roster without a status column counts every row as serving. */
  function StateOf(row: Row, cols: RosterColumns): Cell {
    if cols.state != -1 then Get(row, cols.state) else Str(SERVING)
  }

  /** A status that lets the row through: empty, or mentioning '재직' (serving) or '유지' (kept on). */
  predicate StatusActive(state: Cell) {
    !Truthy(state) || (state.Str? && (Contains(state.s, SERVING) || Contains(state.s, KEPT_ON)))
  }

  /** What one roster row contributes: nothing, an active appointment, or a TypeError. */
  datatype RowOutcome = Skip | Keep(appointment: Appointment) | Fail

  /** One iteration of the roster loop. */
  function RowOutcomeOf(row: Row, cols: RosterColumns, serialDate: int -> string): RowOutcome {
    var name := Get(row, cols.name);
    var position := Get(row, cols.position);
    var state := StateOf(row, cols);
    if !Truthy(name) || !Truthy(position) then Skip
    else if Truthy(state) && !state.Str? then Fail
    else if Truthy(state) && !Contains(state.s, SERVING) && !Contains(state.s, KEPT_ON) then Skip
    else if !position.Str? then Fail
    else
      Keep(Appointment(
        name,
        Trim(position.s, JS_SPACE),
        FormatDate(Get(row, cols.start), serialDate) + " ~ " + FormatDate(Get(row, cols.end), serialDate)))
  }

  /** The active appointments of the roster rows from `from` on, in row order, or the first TypeError. */
  function ActiveFrom(rows: seq<Row>, from: nat, cols: RosterColumns, serialDate: int -> string): Result<seq<Appointment>, Error>
    decreases |rows| - from
  {
    if from >= |rows| then Ok([])
    else
      match RowOutcomeOf(rows[from], cols, serialDate)
      case Fail => Err(TypeError)
      case Skip => ActiveFrom(rows, from + 1, cols, serialDate)
      case Keep(a) =>
        match ActiveFrom(rows, from + 1, cols, serialDate)
        case Err(e) => Err(e)
        case Ok(rest) => Ok([a] + rest)
  }

  /** `prefix` followed by the list in `r`, or the error in `r`. */
  function Prepend(prefix: seq<Appointment>, r: Result<seq<Appointment>, Error>): Result<seq<Appointment>, Error> {
    match r
    case Err(e) => Err(e)
    case Ok(rest) => Ok(prefix + rest)
  }

  /** How one roster row moves the loop of ExtractActive on. */
  lemma ActiveStep(rows: seq<Row>, i: nat, cols: RosterColumns, serialDate: int -> string, active: seq<Appointment>)
    requires i < |rows|
    ensures RowOutcomeOf(rows[i], cols, serialDate) == Skip ==>
              Prepend(active, ActiveFrom(rows, i, cols, serialDate)) == Prepend(active, ActiveFrom(rows, i + 1, cols, serialDate))
    ensures RowOutcomeOf(rows[i], cols, serialDate) == Fail ==>
              Prepend(active, ActiveFrom(rows, i, cols, serialDate)) == Err(TypeError)
    ensures RowOutcomeOf(rows[i], cols, serialDate).Keep? ==>
              Prepend(active, ActiveFrom(rows, i, cols, serialDate)) ==
              Prepend(active + [RowOutcomeOf(rows[i], cols, serialDate).appointment], ActiveFrom(rows, i + 1, cols, serialDate))
  {
    match ActiveFrom(rows, i + 1, cols, serialDate)
    case Err(e) =>
    case Ok(rest) =>
      if RowOutcomeOf(rows[i], cols, serialDate).Keep? {
        var a := RowOutcomeOf(rows[i], cols, serialDate).appointment;
        assert active + ([a] + rest) == (active + [a]) + rest;
      }
  }

  /** The roster loop of step 3: every row after the header, pushing each active appointment. */
  method ExtractActive(rows: seq<Row>, header: nat, cols: RosterColumns, serialDate: int -> string)
    returns (r: Result<seq<Appointment>, Error>)
    ensures r == ActiveFrom(rows, header + 1, cols, serialDate)
  {
    var active: seq<Appointment> := [];
    var i := header + 1;
    match ActiveFrom(rows, i, cols, serialDate) {
      case Err(e) =>
      case Ok(rest) => assert active + rest == rest;
    }
    while i < |rows|
      invariant Prepend(active, ActiveFrom(rows, i, cols, serialDate)) == ActiveFrom(rows, header + 1, cols, serialDate)
    {
      var row := rows[i];
      ActiveStep(rows, i, cols, serialDate, active);
      var name := Get(row, cols.name);
      var position := Get(row, cols.position);
      var state := if cols.state != -1 then Get(row, cols.state) else Str(SERVING);
      if !Truthy(name) || !Truthy(position) {
        assert RowOutcomeOf(row, cols, serialDate) == Skip;
        i := i + 1;
        continue;
      }
      if Truthy(state) {
        if !state.Str? {
          assert RowOutcomeOf(row, cols, serialDate) == Fail;
          return Err(TypeError);
        }
        if !Contains(state.s, SERVING) && !Contains(state.s, KEPT_ON) {
          assert RowOutcomeOf(row, cols, serialDate) == Skip;
          i := i + 1;
          continue;
        }
      }
      if !position.Str? {
        assert RowOutcomeOf(row, cols, serialDate) == Fail;
        return Err(TypeError);
      }
      var a := Appointment(
        name,
        Trim(position.s, JS_SPACE),
        FormatDate(Get(row, cols.start), serialDate) + " ~ " + FormatDate(Get(row, cols.end), serialDate));
      assert RowOutcomeOf(row, cols, serialDate) == Keep(a);
      active := active + [a];
      i := i + 1;
    }
    assert active + [] == active;
    r := Ok(active);
  }

  /**
   * Every active appointment has a truthy name, comes from a roster row at
   * or after `from` whose name and position cells are truthy and whose
   * status lets it through, and carries that row's position label trimmed.
   */
  lemma {:induction false} ActiveAppointmentsAreServing(rows: seq<Row>, from: nat, cols: RosterColumns, serialDate: int -> string)
    requires ActiveFrom(rows, from, cols, serialDate).Ok?
    ensures forall a :: a in ActiveFrom(rows, from, cols, serialDate).value ==>
              && Truthy(a.name)
              && a.period != ""
              && IsTrimmed(a.position, JS_SPACE)
              && exists j :: from <= j < |rows| && RowOutcomeOf(rows[j], cols, serialDate) == Keep(a)
                   && Truthy(Get(rows[j], cols.name)) && Truthy(Get(rows[j], cols.position))
                   && StatusActive(StateOf(rows[j], cols))
                   && a.name == Get(rows[j], cols.name)
                   && a.position == Trim(Get(rows[j], cols.position).s, JS_SPACE)
    decreases |rows| - from
  {
    if from < |rows| {
      var outcome := RowOutcomeOf(rows[from], cols, serialDate);
      if outcome != Fail {
        ActiveAppointmentsAreServing(rows, from + 1, cols, serialDate);
      }
    }
  }

  /** Which rows the roster loop keeps. */
  function KeepFlags(rows: seq<Row>, cols: RosterColumns, serialDate: int -> string): (flags: seq<bool>)
    ensures |flags| == |rows|
    ensures forall j :: 0 <= j < |rows| ==> flags[j] == RowOutcomeOf(rows[j], cols, serialDate).Keep?
  {
    seq(|rows|, j requires 0 <= j < |rows| => RowOutcomeOf(rows[j], cols, serialDate).Keep?)
  }

  /** The indices from `from` on whose flag is set, in order. */
  function Flagged(flags: seq<bool>, from: nat): seq<nat>
    decreases |flags| - from
  {
    if from >= |flags| then []
    else (if flags[from] then [from] else []) + Flagged(flags, from + 1)
  }

  /** The indices of the rows from `from` on whose outcome is Keep, in row order. */
  function KeepRows(rows: seq<Row>, from: nat, cols: RosterColumns, serialDate: int -> string): seq<nat> {
    Flagged(KeepFlags(rows, cols, serialDate), from)
  }

  /** `kept` holds, in strictly increasing order, indices from `from` on whose flag is set. */
  predicate FlaggedSorted(flags: seq<bool>, from: nat, kept: seq<nat>) {
    && (forall k :: 0 <= k < |kept| ==> from <= kept[k] < |flags| && flags[kept[k]])
    && (forall a, b :: 0 <= a < b < |kept| ==> kept[a] < kept[b])
  }

  /** The flagged indices are flagged, at least `from`, and strictly increasing. */
  lemma {:induction false} FlaggedInOrder(flags: seq<bool>, from: nat)
    ensures FlaggedSorted(flags, from, Flagged(flags, from))
    decreases |flags| - from
  {
    if from < |flags| {
      FlaggedInOrder(flags, from + 1);
      var later := Flagged(flags, from + 1);
      assert FlaggedSorted(flags, from + 1, later);
      if flags[from] {
        assert Flagged(flags, from) == [from] + later;
        FlaggedCons(flags, from, later);
      } else {
        assert Flagged(flags, from) == later;
      }
    }
  }

  /** A flagged index put in front of sorted flagged indices after it keeps them sorted. */
  lemma FlaggedCons(flags: seq<bool>, from: nat, later: seq<nat>)
    requires from < |flags| && flags[from]
    requires FlaggedSorted(flags, from + 1, later)
    ensures FlaggedSorted(flags, from, [from] + later)
  {
    var kept := [from] + later;
    forall k | 0 <= k < |kept|
      ensures from <= kept[k] < |flags| && flags[kept[k]]
    {
      if k > 0 {
        assert kept[k] == later[k - 1];
      }
    }
    forall a, b | 0 <= a < b < |kept|
      ensures kept[a] < kept[b]
    {
      assert kept[b] == later[b - 1];
      if a > 0 {
        assert kept[a] == later[a - 1];
      }
    }
  }

  /** No index from `from` on whose flag is set is missed. */
  lemma {:induction false} FlaggedComplete(flags: seq<bool>, from: nat)
    ensures forall j :: from <= j < |flags| && flags[j] ==> j in Flagged(flags, from)
    decreases |flags| - from
  {
    if from < |flags| {
      FlaggedComplete(flags, from + 1);
      var later := Flagged(flags, from + 1);
      assert Flagged(flags, from) == (if flags[from] then [from] else []) + later;
    }
  }

  /** The k-th appointment of `active` is what row `kept[k]` contributes. */
  predicate Paired(rows: seq<Row>, cols: RosterColumns, serialDate: int -> string, active: seq<Appointment>, kept: seq<nat>) {
    && |active| == |kept|
    && (forall k :: 0 <= k < |kept| ==> kept[k] < |rows| && RowOutcomeOf(rows[kept[k]], cols, serialDate) == Keep(active[k]))
  }

  /** Without a TypeError, the k-th active appointment is the one the k-th kept row contributes. */
  lemma {:induction false} ActiveMatchesKept(rows: seq<Row>, from: nat, cols: RosterColumns, serialDate: int -> string)
    requires ActiveFrom(rows, from, cols, serialDate).Ok?
    ensures Paired(rows, cols, serialDate, ActiveFrom(rows, from, cols, serialDate).value, KeepRows(rows, from, cols, serialDate))
    decreases |rows| - from
  {
    if from < |rows| {
      ActiveMatchesKept(rows, from + 1, cols, serialDate);
      var rest := ActiveFrom(rows, from + 1, cols, serialDate).value;
      var later := KeepRows(rows, from + 1, cols, serialDate);
      var flags := KeepFlags(rows, cols, serialDate);
      assert later == Flagged(flags, from + 1);
      var outcome := RowOutcomeOf(rows[from], cols, serialDate);
      if outcome.Keep? {
        assert flags[from];
        assert KeepRows(rows, from, cols, serialDate) == [from] + later;
        assert ActiveFrom(rows, from, cols, serialDate).value == [outcome.appointment] + rest;
        PairedCons(rows, cols, serialDate, from, outcome.appointment, rest, later);
      } else {
        assert !flags[from];
        assert KeepRows(rows, from, cols, serialDate) == later;
        assert ActiveFrom(rows, from, cols, serialDate).value == rest;
      }
    }
  }

  /** A kept row's appointment in front of the pairing of the rows after it. */
  lemma PairedCons(rows: seq<Row>, cols: RosterColumns, serialDate: int -> string,
                   from: nat, a: Appointment, rest: seq<Appointment>, later: seq<nat>)
    requires from < |rows| && RowOutcomeOf(rows[from], cols, serialDate) == Keep(a)
    requires Paired(rows, cols, serialDate, rest, later)
    ensures Paired(rows, cols, serialDate, [a] + rest, [from] + later)
  {
    var active, kept := [a] + rest, [from] + later;
    forall k | 0 <= k < |kept|
      ensures kept[k] < |rows| && RowOutcomeOf(rows[kept[k]], cols, serialDate) == Keep(active[k])
    {
      if k > 0 {
        assert kept[k] == later[k - 1] && active[k] == rest[k - 1];
      }
    }
  }

  /**
   * The active list is the kept rows' appointments in row order: one per
   * row whose outcome is Keep, none left out, and none out of order, so the
   * first candidate `findBestMatch` meets is the earliest roster row.
   */
  lemma ActiveInRowOrder(rows: seq<Row>, from: nat, cols: RosterColumns, serialDate: int -> string)
    requires ActiveFrom(rows, from, cols, serialDate).Ok?
    ensures var active := ActiveFrom(rows, from, cols, serialDate).value;
            var kept := KeepRows(rows, from, cols, serialDate);
            && |active| == |kept|
            && (forall k :: 0 <= k < |kept| ==>
                  from <= kept[k] < |rows| && RowOutcomeOf(rows[kept[k]], cols, serialDate) == Keep(active[k]))
            && (forall a, b :: 0 <= a < b < |kept| ==> kept[a] < kept[b])
            && (forall j :: from <= j < |rows| && RowOutcomeOf(rows[j], cols, serialDate).Keep? ==> j in kept)
  {
    FlaggedInOrder(KeepFlags(rows, cols, serialDate), from);
    FlaggedComplete(KeepFlags(rows, cols, serialDate), from);
    ActiveMatchesKept(rows, from, cols, serialDate);
  }

  /** The roster filter throws exactly when some row from `from` on would call a string method on a non-string. */
  lemma {:induction false} ActiveFailsIff(rows: seq<Row>, from: nat, cols: RosterColumns, serialDate: int -> string)
    ensures ActiveFrom(rows, from, cols, serialDate).Err? <==>
            exists j :: from <= j < |rows| && RowOutcomeOf(rows[j], cols, serialDate) == Fail
    ensures ActiveFrom(rows, from, cols, serialDate).Err? ==> ActiveFrom(rows, from, cols, serialDate).error == TypeError
    decreases |rows| - from
  {
    if from < |rows| {
      ActiveFailsIff(rows, from + 1, cols, serialDate);
      var outcome := RowOutcomeOf(rows[from], cols, serialDate);
      if outcome != Fail {
        if exists j :: from <= j < |rows| && RowOutcomeOf(rows[j], cols, serialDate) == Fail {
          var j :| from <= j < |rows| && RowOutcomeOf(rows[j], cols, serialDate) == Fail;
          assert from + 1 <= j;
        }
      }
    }
  }

  // ------------------------------------------------------------- matching

  /**
   * The appointment a canonical position is given, as `processData` does
   * it: whatever `findBestMatch` returns, for every label, blank or not.
   */
  function Matched(target: string, active: seq<Appointment>): (m: Option<Appointment>)
    ensures m.Some? ==> m.value in active
    ensures Normalize(target) != [] ==> m == MatchFor(target, active)
  {
    At(active, MatchIndex(target, active))
  }

  /**
   * The intended assignment: an empty label (after normalisation) is given
   * nobody; any other label gets what `findBestMatch` returns.
   */
  function MatchFor(target: string, active: seq<Appointment>): (m: Option<Appointment>)
    ensures Normalize(target) == [] ==> m == None
    ensures m.Some? ==> m.value in active
  {
    if Normalize(target) == [] then None else At(active, MatchIndex(target, active))
  }

  /**
   * Under the intended assignment a criterion is matched exactly when its
   * position is not blank and some active appointment's label contains it
   * once both are normalised.
   */
  lemma MatchForFound(target: string, active: seq<Appointment>)
    ensures MatchFor(target, active).Some? <==>
              Normalize(target) != [] && exists j :: 0 <= j < |active| && Contains(Normalize(active[j].position), Normalize(target))
  {
    MatchFoundIff(target, active);
  }

  /**
   * A criterion is given an appointee exactly when some active
   * appointment's label contains its label once both are normalised; a
   * blank label is contained in every label.
   */
  lemma MatchedFound(target: string, active: seq<Appointment>)
    ensures Matched(target, active).Some? <==>
              exists j :: 0 <= j < |active| && Contains(Normalize(active[j].position), Normalize(target))
  {
    MatchFoundIff(target, active);
  }

  /**
   * The report as written and the intended assignment disagree exactly on a
   * label that is blank once normalised, and then only when some appointment
   * is active: `findBestMatch` finds the empty string in every label and
   * hands the criterion to an appointee of an unrelated position.
   */
  lemma BlankLabelDiffers(target: string, active: seq<Appointment>)
    ensures Matched(target, active) != MatchFor(target, active) <==> Normalize(target) == [] && active != []
    ensures Normalize(target) == [] && active != [] ==> Matched(target, active).Some?
  {
    MatchFoundIff(target, active);
    if Normalize(target) == [] && active != [] {
      ContainsEmpty(Normalize(active[0].position));
    }
  }

  /** The report line of one criterion, or the TypeError `normalize` raises for a label that is not a string. */
  function RowFor(crit: Criterion, active: seq<Appointment>): Result<ReportRow, Error> {
    match crit.position
    case Str(target) =>
      var m := Matched(target, active);
      Ok(ReportRow(
        crit.category,
        target,
        if m.Some? then m.value.name else Str(""),
        if m.Some? then m.value.period else ""))
    case _ => Err(TypeError)
  }

  /** One report line per criterion, in order, or the first TypeError. */
  function MatchAll(criteria: seq<Criterion>, active: seq<Appointment>): Result<seq<ReportRow>, Error> {
    if criteria == [] then Ok([])
    else
      match RowFor(criteria[0], active)
      case Err(e) => Err(e)
      case Ok(row) =>
        match MatchAll(criteria[1..], active)
        case Err(e) => Err(e)
        case Ok(rest) => Ok([row] + rest)
  }

  /** `prefix` followed by the lines in `r`, or the error in `r`. */
  function PrependRows(prefix: seq<ReportRow>, r: Result<seq<ReportRow>, Error>): Result<seq<ReportRow>, Error> {
    match r
    case Err(e) => Err(e)
    case Ok(rest) => Ok(prefix + rest)
  }

  /** How one criterion moves the loop of MatchCriteria on. */
  lemma MatchStep(criteria: seq<Criterion>, k: nat, active: seq<Appointment>, prefix: seq<ReportRow>)
    requires k < |criteria|
    ensures RowFor(criteria[k], active).Err? ==>
              PrependRows(prefix, MatchAll(criteria[k..], active)) == Err(RowFor(criteria[k], active).error)
    ensures RowFor(criteria[k], active).Ok? ==>
              PrependRows(prefix, MatchAll(criteria[k..], active)) ==
              PrependRows(prefix + [RowFor(criteria[k], active).value], MatchAll(criteria[k + 1..], active))
  {
    assert criteria[k..][1..] == criteria[k + 1..];
    match MatchAll(criteria[k + 1..], active)
    case Err(e) =>
    case Ok(rest) =>
      if RowFor(criteria[k], active).Ok? {
        var row := RowFor(criteria[k], active).value;
        assert prefix + ([row] + rest) == (prefix + [row]) + rest;
      }
  }

  /** Step 4: for each criterion in order, look up its incumbent and push a report line. */
  method MatchCriteria(criteria: seq<Criterion>, active: seq<Appointment>) returns (r: Result<seq<ReportRow>, Error>)
    ensures r == MatchAll(criteria, active)
  {
    var finalRows: seq<ReportRow> := [];
    assert criteria[0..] == criteria;
    match MatchAll(criteria, active) {
      case Err(e) =>
      case Ok(rest) => assert finalRows + rest == rest;
    }
    for k := 0 to |criteria|
      invariant MatchAll(criteria, active) == PrependRows(finalRows, MatchAll(criteria[k..], active))
    {
      MatchStep(criteria, k, active, finalRows);
      var crit := criteria[k];
      if !crit.position.Str? {
        return Err(TypeError);
      }
      var target := crit.position.s;
      var m := FindBestMatch(target, active);
      var row := ReportRow(
        crit.category,
        target,
        if m.Some? then m.value.name else Str(""),
        if m.Some? then m.value.period else "");
      assert RowFor(crit, active) == Ok(row);
      finalRows := finalRows + [row];
    }
    assert criteria[|criteria|..] == [];
    assert finalRows + [] == finalRows;
    r := Ok(finalRows);
  }

  /** With no TypeError, the k-th report line is the line of the k-th criterion. */
  lemma {:induction false} MatchAllLines(criteria: seq<Criterion>, active: seq<Appointment>)
    requires MatchAll(criteria, active).Ok?
    ensures |MatchAll(criteria, active).value| == |criteria|
    ensures forall k :: 0 <= k < |criteria| ==> RowFor(criteria[k], active) == Ok(MatchAll(criteria, active).value[k])
  {
    if criteria != [] {
      MatchAllLines(criteria[1..], active);
      var rest := MatchAll(criteria[1..], active).value;
      assert MatchAll(criteria, active).value == [RowFor(criteria[0], active).value] + rest;
      forall k | 1 <= k < |criteria|
        ensures RowFor(criteria[k], active) == Ok(MatchAll(criteria, active).value[k])
      {
        assert criteria[k] == criteria[1..][k - 1];
      }
    }
  }

  /**
   * With no TypeError there is exactly one report line per criterion, in
   * order; line `k` carries criterion `k`'s category and label, and its
   * name and period are empty exactly when no appointment was matched and
   * otherwise those of the matched appointment (active appointments have
   * truthy names and non-empty periods).
   */
  lemma OneLinePerCriterion(criteria: seq<Criterion>, active: seq<Appointment>, k: nat)
    requires forall a :: a in active ==> Truthy(a.name) && a.period != ""
    requires MatchAll(criteria, active).Ok?
    requires k < |criteria|
    ensures |MatchAll(criteria, active).value| == |criteria|
    ensures criteria[k].position.Str?
    ensures var row := MatchAll(criteria, active).value[k];
            var m := Matched(criteria[k].position.s, active);
            && row.category == criteria[k].category
            && row.position == criteria[k].position.s
            && (!Truthy(row.name) <==> m.None?)
            && (row.period == "" <==> m.None?)
            && (m.Some? ==> row.name == m.value.name && row.period == m.value.period)
  {
    MatchAllLines(criteria, active);
    var m := Matched(criteria[k].position.s, active);
    if m.Some? {
      assert m.value in active;
    }
  }

  // -------------------------------------------------------------- report

  /** The flat report lines `processData` computes before the two-column split, or the error it throws. */
  function ReportLines(criteriaRows: seq<Row>, rawRows: seq<Row>, serialDate: int -> string): Result<seq<ReportRow>, Error> {
    var criteria := FilledDown(CriteriaFrom(criteriaRows, 1));
    match HeaderIndex(rawRows)
    case None => Err(HeaderNotFound)
    case Some(h) =>
      match ActiveFrom(rawRows, h + 1, ColumnsOf(rawRows[h]), serialDate)
      case Err(e) => Err(e)
      case Ok(active) => MatchAll(criteria, active)
  }

  function Title(date: string): string {
    "교 원 보 직 자 현 황 (" + date + ")"
  }

  function DateLine(date: string): string {
    "(" + date + " 현재)"
  }

  /**
   * `processData(criteriaRows, rawRows, filename)`: the report, whose rows
   * are the two-column layout of the report lines, or the error it throws.
   */
  method ProcessData(criteriaRows: seq<Row>, rawRows: seq<Row>, filename: string, serialDate: int -> string)
    returns (r: Result<Report, Error>)
    ensures ReportLines(criteriaRows, rawRows, serialDate).Err? ==>
              r == Err(ReportLines(criteriaRows, rawRows, serialDate).error)
    ensures ReportLines(criteriaRows, rawRows, serialDate).Ok? ==>
              && r.Ok?
              && r.value.title == Title(ExtractDate(filename))
              && r.value.date == DateLine(ExtractDate(filename))
              && r.value.leftHeaders == HEADERS && r.value.rightHeaders == HEADERS
              && IsSplitOf(r.value.rows, ReportLines(criteriaRows, rawRows, serialDate).value, BLANK)
  {
    var dateStr := ExtractDate(filename);

    var criteria := ExtractCriteria(criteriaRows);
    criteria := FillDown(criteria);

    var header := FindHeader(rawRows);
    if header.None? {
      return Err(HeaderNotFound);
    }
    var cols := ColumnsOf(rawRows[header.value]);
    var active := ExtractActive(rawRows, header.value, cols, serialDate);
    if active.Err? {
      return Err(active.error);
    }

    var finalRows := MatchCriteria(criteria, active.value);
    if finalRows.Err? {
      return Err(finalRows.error);
    }

    var rows := Split(finalRows.value, BLANK);
    r := Ok(Report(Title(dateStr), DateLine(dateStr), HEADERS, HEADERS, rows));
  }

  /** `processData` throws HeaderNotFound exactly when none of the first ten roster rows holds '성명'. */
  lemma HeaderNotFoundIff(criteriaRows: seq<Row>, rawRows: seq<Row>, serialDate: int -> string)
    ensures ReportLines(criteriaRows, rawRows, serialDate) == Err(HeaderNotFound) <==>
            forall j :: 0 <= j < SearchLimit(rawRows) ==> !HasNameHeader(rawRows[j])
  {
    match HeaderIndex(rawRows)
    case None =>
    case Some(h) =>
      var cols := ColumnsOf(rawRows[h]);
      ActiveFailsIff(rawRows, h + 1, cols, serialDate);
      match ActiveFrom(rawRows, h + 1, cols, serialDate)
      case Err(e) =>
      case Ok(active) =>
        MatchAllError(FilledDown(CriteriaFrom(criteriaRows, 1)), active);
  }

  /** Matching throws nothing but TypeError. */
  lemma {:induction false} MatchAllError(criteria: seq<Criterion>, active: seq<Appointment>)
    ensures MatchAll(criteria, active).Err? ==> MatchAll(criteria, active).error == TypeError
  {
    if criteria != [] {
      MatchAllError(criteria[1..], active);
    }
  }
}
