/**
 * The older Python matcher, extract_data.py: it reads the date from the
 * roster's filename, keeps the roster rows whose appointment period covers
 * that date, scores every canonical position against the kept positions on
 * a tiered integer scale, and lays the results out in two columns.
 *
 * Spreadsheet cells reach it through pandas; a cell is modelled as NaN, a
 * string or an integer (`Value`). Reading the files, the pandas sort of the
 * active rows and the debug output are not part of this model.
 */
module Extract {
  import opened Wrappers
  import opened Text
  import opened Cells
  import opened Columns
  import Report

  /** A cell as pandas hands it over. */
  datatype Value = NaN | PyStr(s: string) | PyInt(n: int)

  /** One roster row: the columns '발령직위', '성명', '발령시작일' and '발령종료일'. */
  datatype RawRow = RawRow(position: Value, name: Value, start: Value, end: Value)

  /** One entry of `raw_positions_list`. */
  datatype RawRecord = RawRecord(position: string, name: string, start: Value, end: Value)

  /** One row of the criteria sheet: the columns '구분' and '보 직 명'. */
  datatype CriteriaRow = CriteriaRow(category: Value, position: Value)

  /** One entry of `results`: a canonical position and who holds it ('' when nobody does). */
  datatype Item = Item(category: string, position: string, name: string, period: string)

  /** The structure written to professor_data.json. */
  datatype Data = Data(title: string, date: string, leftHeaders: seq<string>, rightHeaders: seq<string>, rows: seq<Pair<Item>>)

  const NO_DATE: string := "(날짜 없음)"
  const TITLE: string := "교 원 보 직 자 현 황"
  const COMPANY_MARK: string := "(주)"
  /** The end date given to an appointment without one. */
  const OPEN_END: int := 99999999
  /** The lowest score `find_best_match` accepts. */
  const ACCEPT: nat := 70
  const BLANK_ITEM: Item := Item("", "", "", "")

  /** `str(x)`: NaN prints as 'nan', an integer in decimal with a leading '-' when negative. */
  function ToStr(v: Value): string {
    match v
    case NaN => "nan"
    case PyStr(s) => s
    case PyInt(n) => if n < 0 then "-" + NatToDecimal(-n) else NatToDecimal(n)
  }

  /** `str(x).strip() if pd.notna(x) else ''`, used for the criteria columns and by `fmt_date`. */
  function Cleaned(v: Value): string {
    if v.NaN? then "" else Trim(ToStr(v), PY_SPACE)
  }

  // ---------------------------------------------------------------- dates

  /**
   * `extract_date_from_filename`: the first eight consecutive digits give
   * the label '(YYYY.MM.DD.)' and the number YYYYMMDD; without them the
   * label says there is no date and there is no number.
   */
  function ExtractDateFromFilename(filename: string): (r: (string, Option<nat>))
    ensures r.1.None? <==> FirstDigits(filename, 8).None?
    ensures r.1.None? ==> r.0 == NO_DATE
    ensures r.1.Some? ==>
              var i := FirstDigits(filename, 8).value;
              && |r.0| == 13 && r.0[0] == '(' && r.0[5] == '.' && r.0[8] == '.' && r.0[11] == '.' && r.0[12] == ')'
              && DigitsOf(r.0) == filename[i..i + 8]
              && r.1.value == DecimalValue(DigitsOf(r.0))
  {
    match FirstDigits(filename, 8)
    case None => (NO_DATE, None)
    case Some(i) =>
      var d := filename[i..i + 8];
      var dateLabel := "(" + Report.Dotted(d) + ".)";
      DateLabelDigits(d);
      (dateLabel, Some(DecimalValue(d)))
  }

  /** The digits of a date label are the eight digits it was made from. */
  lemma DateLabelDigits(d: string)
    requires |d| == 8 && AllDigits(d)
    ensures DigitsOf("(" + Report.Dotted(d) + ".)") == d
  {
    Report.DottedDigits(d);
    DigitsOfConcat("(", Report.Dotted(d));
    DigitsOfConcat("(" + Report.Dotted(d), ".)");
    assert DigitsOf("(") == [] && DigitsOf(".)") == [];
  }

  /** Both programs read the same date from a filename: the Python label is the JavaScript date in brackets. */
  lemma DateAgreesWithReport(filename: string)
    requires FirstDigits(filename, 8).Some?
    ensures ExtractDateFromFilename(filename).0 == "(" + Report.ExtractDate(filename) + ")"
  {
  }

  /** `current_date`: the filename's date, or `today` when there is none or it is 0 (`if not current_date`). */
  function CurrentDate(filename: string, today: int): (d: int)
    ensures ExtractDateFromFilename(filename).1.Some? && ExtractDateFromFilename(filename).1.value != 0 ==>
              d == ExtractDateFromFilename(filename).1.value
    ensures ExtractDateFromFilename(filename).1.None? ==> d == today
    ensures ExtractDateFromFilename(filename).1 == Some(0) ==> d == today
  {
    match ExtractDateFromFilename(filename).1
    case None => today
    case Some(v) => if v == 0 then today else v
  }

  /** Two underscores in a row start at `i`. */
  predicate DoubleUnderscoreAt(s: string, i: int) {
    0 <= i < |s| - 1 && s[i] == '_' && s[i + 1] == '_'
  }

  /** A well-formed Python integer literal body: digits, single underscores only between digits. */
  predicate IntBody(s: string) {
    && s != []
    && IsDigit(s[0]) && IsDigit(s[|s| - 1])
    && (forall i :: 0 <= i < |s| ==> IsDigit(s[i]) || s[i] == '_')
    && (forall i :: 0 <= i < |s| ==> !DoubleUnderscoreAt(s, i))
  }

  /** The text after an optional leading '+' or '-'. */
  function Unsigned(s: string): string {
    if s != [] && (s[0] == '+' || s[0] == '-') then s[1..] else s
  }

  /**
   * `int(s)` for a string with no surrounding whitespace: an optional sign
   * and a literal body, read as a decimal number once its underscores are
   * dropped and negated after a '-'; `None` is a ValueError.
   */
  function ParseInt(s: string): (r: Option<int>)
    ensures r.Some? <==> IntBody(Unsigned(s))
    ensures r.Some? ==> s != [] && (IsDigit(s[0]) || s[0] == '+' || s[0] == '-')
    ensures r.Some? ==>
              && AllDigits(Without(Unsigned(s), {'_'}))
              && (s[0] == '-' ==> r.value == -(DecimalValue(Without(Unsigned(s), {'_'})) as int))
              && (s[0] != '-' ==> r.value == DecimalValue(Without(Unsigned(s), {'_'})))
  {
    var negative := s != [] && s[0] == '-';
    match ParseBody(Unsigned(s))
    case None => None
    case Some(magnitude) =>
      Some(if negative then -(magnitude as int) else magnitude)
  }

  /** The magnitude a literal body denotes, its underscores dropped; `None` when it is not a body. */
  function ParseBody(body: string): (r: Option<nat>)
    ensures r.Some? <==> IntBody(body)
    ensures r.Some? ==> AllDigits(Without(body, {'_'})) && r.value == DecimalValue(Without(body, {'_'}))
  {
    if !IntBody(body) then None
    else
      UnderscoresRemoved(body);
      Some(DecimalValue(Without(body, {'_'})))
  }

  /** A date written with dashes is not an integer literal, so `to_date_int` reads it as 0. */
  lemma DashedDateIsZero()
    ensures ParseInt("2025-01-01") == None
    ensures ToDateInt(PyStr("2025-01-01")) == 0
  {
    var s := "2025-01-01";
    assert Unsigned(s) == s;
    assert !(IsDigit(s[4]) || s[4] == '_');
    PlainText(s);
    assert DateText(PyStr(s)) == s;
  }

  /** Without its underscores, a literal body is a string of digits. */
  lemma {:induction false} UnderscoresRemoved(body: string)
    requires forall i :: 0 <= i < |body| ==> IsDigit(body[i]) || body[i] == '_'
    ensures AllDigits(Without(body, {'_'}))
  {
    if body != [] {
      UnderscoresRemoved(body[1..]);
    }
  }

  /** What `to_date_int` parses: `str(x)` without its dots, stripped. */
  function DateText(x: Value): string {
    Trim(Without(ToStr(x), {'.'}), PY_SPACE)
  }

  /**
   * `to_date_int(x)`: the date text parsed as an integer; 0 for an empty
   * text, 'nan' (a missing cell) or anything `int` rejects.
   */
  function ToDateInt(x: Value): (n: int)
    ensures DateText(x) == [] || DateText(x) == "nan" || ParseInt(DateText(x)).None? ==> n == 0
    ensures ParseInt(DateText(x)).Some? && DateText(x) != "nan" ==> n == ParseInt(DateText(x)).value
  {
    var s := DateText(x);
    if s == [] || s == "nan" then 0
    else
      match ParseInt(s)
      case None => 0
      case Some(n) => n
  }

  /** A missing cell reads as 0. */
  lemma MissingDate()
    ensures ToDateInt(NaN) == 0
  {
    var s := "nan";
    WithoutAbsent(s, {'.'});
    TrimTrimmed(s, PY_SPACE);
    assert DateText(NaN) == s;
  }

  /** The end-date column: a positive date, or `OPEN_END` when `to_date_int` gives 0 or less. */
  function EndDateInt(x: Value): (n: int)
    ensures n > 0
    ensures ToDateInt(x) > 0 ==> n == ToDateInt(x)
    ensures ToDateInt(x) <= 0 ==> n == OPEN_END
  {
    if ToDateInt(x) > 0 then ToDateInt(x) else OPEN_END
  }

  /** `active_mask`: the appointment started on or before `current` and ends on or after it. */
  predicate IsActive(row: RawRow, current: int) {
    ToDateInt(row.start) <= current && EndDateInt(row.end) >= current
  }

  /** `active_mask`: one flag per roster row. */
  function ActiveMask(rows: seq<RawRow>, current: int): (mask: seq<bool>)
    ensures |mask| == |rows|
  {
    seq(|rows|, k requires 0 <= k < |rows| => IsActive(rows[k], current))
  }

  /** `xs[mask]`: the entries whose flag is set, in order. */
  function Select<T(!new)>(xs: seq<T>, mask: seq<bool>): (ys: seq<T>)
    requires |mask| == |xs|
    ensures |ys| <= |xs|
    ensures forall y :: y in ys <==> exists k :: 0 <= k < |xs| && mask[k] && xs[k] == y
  {
    if xs == [] then []
    else
      var n := |xs| - 1;
      var init := Select(xs[..n], mask[..n]);
      assert forall k :: 0 <= k < n ==> xs[..n][k] == xs[k] && mask[..n][k] == mask[k];
      init + (if mask[n] then [xs[n]] else [])
  }

  /** Masking keeps order: masking two stretches one after the other concatenates what each keeps. */
  lemma {:induction false} SelectConcat<T(!new)>(a: seq<T>, b: seq<T>, ma: seq<bool>, mb: seq<bool>)
    requires |ma| == |a| && |mb| == |b|
    ensures Select(a + b, ma + mb) == Select(a, ma) + Select(b, mb)
    decreases |b|
  {
    if b == [] {
      assert a + b == a && ma + mb == ma;
    } else {
      var n := |b| - 1;
      assert (a + b)[..|a| + n] == a + b[..n];
      assert (ma + mb)[..|a| + n] == ma + mb[..n];
      SelectConcat(a, b[..n], ma, mb[..n]);
    }
  }

  /** `df_raw[active_mask]`: exactly the active rows, in roster order. */
  function ActiveRows(rows: seq<RawRow>, current: int): (active: seq<RawRow>)
    ensures |active| <= |rows|
  {
    Select(rows, ActiveMask(rows, current))
  }

  /** A row is kept exactly when some active row of the roster is that row. */
  lemma ActiveRowsKeep(rows: seq<RawRow>, current: int, row: RawRow)
    ensures row in ActiveRows(rows, current) <==> row in rows && IsActive(row, current)
  {
    var mask := ActiveMask(rows, current);
    if row in rows && IsActive(row, current) {
      var k :| 0 <= k < |rows| && rows[k] == row;
      assert mask[k];
    }
  }

  /** `DecimalValue` reads back what `NatToDecimal` writes. */
  lemma {:induction false} DecimalRoundTrip(n: nat)
    ensures AllDigits(NatToDecimal(n)) && DecimalValue(NatToDecimal(n)) == n
  {
    var digit := ['0' + (n % 10) as char];
    if n >= 10 {
      DecimalRoundTrip(n / 10);
      var ds := NatToDecimal(n / 10) + digit;
      assert ds[..|ds| - 1] == NatToDecimal(n / 10);
    }
  }

  /** A string of digits is a literal body. */
  lemma DigitsAreIntBody(ds: string)
    requires ds != [] && AllDigits(ds)
    ensures IntBody(ds) && Without(ds, {'_'}) == ds
  {
    forall i | 0 <= i < |ds|
      ensures !DoubleUnderscoreAt(ds, i)
    {
      assert IsDigit(ds[i]);
    }
    WithoutAbsent(ds, {'_'});
  }

  /** A string of digits parses as the number it denotes, and with a leading '-' as its negation. */
  lemma ParseDigits(ds: string)
    requires ds != [] && AllDigits(ds)
    ensures ParseInt(ds) == Some(DecimalValue(ds))
    ensures ParseInt("-" + ds) == Some(-(DecimalValue(ds) as int))
  {
    ParsePlain(ds);
    ParseSigned(ds);
  }

  lemma ParsePlain(ds: string)
    requires ds != [] && AllDigits(ds)
    ensures ParseInt(ds) == Some(DecimalValue(ds))
  {
    DigitsAreIntBody(ds);
    assert IsDigit(ds[0]) && Unsigned(ds) == ds;
  }

  lemma ParseSigned(ds: string)
    requires ds != [] && AllDigits(ds)
    ensures ParseInt("-" + ds) == Some(-(DecimalValue(ds) as int))
  {
    var s := "-" + ds;
    assert s[0] == '-' && Unsigned(s) == ds;
    assert ParseBody(ds) == Some(DecimalValue(ds)) by {
      DigitsAreIntBody(ds);
    }
  }

  /** Text without dots or surrounding whitespace is its own date text. */
  lemma PlainText(s: string)
    requires s != [] && s[0] !in PY_SPACE && s[|s| - 1] !in PY_SPACE
    requires forall i :: 0 <= i < |s| ==> s[i] != '.'
    ensures Trim(Without(s, {'.'}), PY_SPACE) == s
  {
    WithoutAbsent(s, {'.'});
    TrimTrimmed(s, PY_SPACE);
  }

  /** A string of digits is read as the number it denotes. */
  lemma PlainDigits(ds: string)
    requires ds != [] && AllDigits(ds)
    ensures ToDateInt(PyStr(ds)) == DecimalValue(ds)
  {
    PlainText(ds);
    assert DateText(PyStr(ds)) == ds;
    assert ds != "nan" by {
      assert IsDigit(ds[0]);
    }
    ParseDigits(ds);
  }

  /** An integer cell is read back as itself. */
  lemma IntegerDate(n: int)
    ensures ToDateInt(PyInt(n)) == n
  {
    if n < 0 {
      NegativeDate(n);
    } else {
      NonNegativeDate(n);
    }
  }

  lemma NegativeDate(n: int)
    requires n < 0
    ensures ToDateInt(PyInt(n)) == n
  {
    var ds := NatToDecimal(-n);
    assert ToStr(PyInt(n)) == "-" + ds;
    DecimalRoundTrip(-n);
    NegativeDigits(ds);
    SameText(PyInt(n), "-" + ds, n);
  }

  lemma NonNegativeDate(n: nat)
    ensures ToDateInt(PyInt(n)) == n
  {
    var ds := NatToDecimal(n);
    DecimalRoundTrip(n);
    PlainDigits(ds);
    SameText(PyInt(n), ds, n);
  }

  /** Two cells that print alike read as the same date. */
  lemma SameText(x: Value, s: string, v: int)
    requires ToStr(x) == s && ToDateInt(PyStr(s)) == v
    ensures ToDateInt(x) == v
  {
    assert DateText(x) == DateText(PyStr(s));
  }

  /** A minus sign followed by digits is read as the negative number. */
  lemma NegativeDigits(ds: string)
    requires ds != [] && AllDigits(ds)
    ensures ToDateInt(PyStr("-" + ds)) == -(DecimalValue(ds) as int)
  {
    var s := "-" + ds;
    assert s[0] == '-' && s[|s| - 1] == ds[|ds| - 1];
    assert forall i :: 1 <= i < |s| ==> s[i] == ds[i - 1];
    PlainText(s);
    assert DateText(PyStr(s)) == s;
    assert s != "nan";
    ParseDigits(ds);
  }

  /** A dotted date 'YYYY.MM.DD' in a string cell is read as the number YYYYMMDD. */
  lemma DottedDate(d: string)
    requires |d| == 8 && AllDigits(d)
    ensures ToDateInt(PyStr(Report.Dotted(d))) == DecimalValue(d)
  {
    DotsRemoved(d);
    TrimTrimmed(d, PY_SPACE);
    assert DateText(PyStr(Report.Dotted(d))) == d;
    assert d != "nan";
    ParseDigits(d);
  }

  /** Removing the dots of 'YYYY.MM.DD' gives back 'YYYYMMDD'. */
  lemma DotsRemoved(d: string)
    requires |d| == 8 && AllDigits(d)
    ensures Without(Report.Dotted(d), {'.'}) == d
  {
    var a := d[..4] + ".";
    var b := a + d[4..6];
    var c := b + ".";
    WithoutAbsent(d[..4], {'.'});
    WithoutAbsent(d[4..6], {'.'});
    WithoutAbsent(d[6..], {'.'});
    WithoutConcat(d[..4], ".", {'.'});
    WithoutConcat(a, d[4..6], {'.'});
    WithoutConcat(b, ".", {'.'});
    WithoutConcat(c, d[6..], {'.'});
    assert d[..4] + d[4..6] + d[6..] == d;
  }


  /** A row without an end date is active from its start date on, up to the open end. */
  lemma OpenEnded(row: RawRow, current: int)
    requires row.end.NaN?
    ensures IsActive(row, current) <==> ToDateInt(row.start) <= current <= OPEN_END
  {
    MissingDate();
  }

  // ------------------------------------------------------ normal forms

  /** A word of `str.split()`: a non-empty run of non-whitespace characters. */
  predicate IsWord(w: string) {
    w != [] && forall i :: 0 <= i < |w| ==> w[i] !in PY_SPACE
  }

  predicate AllWords(ws: seq<string>) {
    forall k :: 0 <= k < |ws| ==> IsWord(ws[k])
  }

  /** The length of the leading run of non-whitespace characters. */
  function WordLength(s: string): (n: nat)
    ensures n <= |s|
    ensures forall i :: 0 <= i < n ==> s[i] !in PY_SPACE
    ensures n < |s| ==> s[n] in PY_SPACE
  {
    if s == [] || s[0] in PY_SPACE then 0 else 1 + WordLength(s[1..])
  }

  /** `s.split()`: the words of `s`, whitespace runs of any length separating them. */
  function Words(s: string): (ws: seq<string>)
    ensures AllWords(ws)
    decreases |s|
  {
    if s == [] then []
    else if s[0] in PY_SPACE then Words(s[1..])
    else
      var n := WordLength(s);
      [s[..n]] + Words(s[n..])
  }

  /** `' '.join(ws)`. */
  function Join(ws: seq<string>): string {
    if ws == [] then ""
    else if |ws| == 1 then ws[0]
    else ws[0] + " " + Join(ws[1..])
  }

  /** Two spaces in a row start at `i`. */
  predicate DoubleSpaceAt(r: string, i: int) {
    0 <= i < |r| - 1 && r[i] == ' ' && r[i + 1] == ' '
  }

  /** No whitespace but single spaces between non-space characters. */
  predicate Collapsed(r: string) {
    && (forall i :: 0 <= i < |r| && r[i] in PY_SPACE ==> r[i] == ' ')
    && (r != [] ==> r[0] !in PY_SPACE && r[|r| - 1] !in PY_SPACE)
    && (forall i :: 0 <= i < |r| ==> !DoubleSpaceAt(r, i))
  }

  /** `normalize_position`: '' for NaN, otherwise the words of the stripped string joined by single spaces. */
  function NormalizePosition(v: Value): string {
    if v.NaN? then "" else Join(Words(Trim(ToStr(v), PY_SPACE)))
  }

  /** The normal form is collapsed. */
  lemma NormalizeCollapsed(v: Value)
    ensures Collapsed(NormalizePosition(v))
  {
    if !v.NaN? {
      JoinCollapsed(Words(Trim(ToStr(v), PY_SPACE)));
    }
  }

  /** Joining words with single spaces leaves no other whitespace, nothing at the ends and no double space. */
  lemma {:induction false} JoinCollapsed(ws: seq<string>)
    requires AllWords(ws)
    ensures Collapsed(Join(ws))
    ensures Join(ws) == [] <==> ws == []
    ensures ws != [] ==> Join(ws)[0] == ws[0][0]
  {
    if |ws| > 1 {
      var rest := ws[1..];
      JoinCollapsed(rest);
      var w := ws[0];
      var j := Join(rest);
      var r := w + " " + j;
      assert forall i :: 0 <= i < |w| ==> r[i] == w[i];
      assert r[|w|] == ' ';
      assert forall i :: |w| < i < |r| ==> r[i] == j[i - |w| - 1];
      assert r[|r| - 1] == j[|j| - 1];
      forall i | 0 <= i < |r|
        ensures !DoubleSpaceAt(r, i)
      {
        if i < |w| {
          assert r[i] == w[i] && w[i] !in PY_SPACE && ' ' in PY_SPACE;
        } else if i == |w| {
          assert r[i + 1] == j[0] && j[0] !in PY_SPACE && ' ' in PY_SPACE;
        } else if i + 1 < |r| {
          assert !DoubleSpaceAt(j, i - |w| - 1);
          assert r[i] == j[i - |w| - 1] && r[i + 1] == j[i - |w|];
        }
      }
    }
  }

  /** A word followed by whitespace or nothing is read as that word. */
  lemma {:induction false} WordLengthOfWord(w: string, t: string)
    requires IsWord(w)
    requires t == [] || t[0] in PY_SPACE
    ensures WordLength(w + t) == |w|
    decreases |w|
  {
    assert (w + t)[0] == w[0];
    if |w| > 1 {
      assert (w + t)[1..] == w[1..] + t;
      WordLengthOfWord(w[1..], t);
    } else {
      assert (w + t)[1..] == t;
    }
  }

  /** Splitting words joined by single spaces gives the words back. */
  lemma {:induction false} WordsOfJoin(ws: seq<string>)
    requires AllWords(ws)
    ensures Words(Join(ws)) == ws
  {
    if ws != [] {
      var w := ws[0];
      if |ws| == 1 {
        WordLengthOfWord(w, []);
        assert w + [] == w;
        assert w[|w|..] == [];
      } else {
        var j := Join(ws[1..]);
        var r := w + " " + j;
        WordLengthOfWord(w, " " + j);
        assert r == w + (" " + j);
        assert r[..|w|] == w && r[|w|..] == " " + j;
        assert (" " + j)[1..] == j;
        WordsOfJoin(ws[1..]);
      }
    }
  }

  /** A string of whitespace has no words. */
  lemma {:induction false} WordsOfSpace(t: string)
    requires forall i :: 0 <= i < |t| ==> t[i] in PY_SPACE
    ensures Words(t) == []
  {
    if t != [] {
      WordsOfSpace(t[1..]);
    }
  }

  /** Trailing whitespace does not change the words. */
  lemma {:induction false} WordsTrailing(s: string, t: string)
    requires forall i :: 0 <= i < |t| ==> t[i] in PY_SPACE
    ensures Words(s + t) == Words(s)
    decreases |s|
  {
    if s == [] {
      assert s + t == t;
      WordsOfSpace(t);
    } else if s[0] in PY_SPACE {
      assert (s + t)[1..] == s[1..] + t;
      WordsTrailing(s[1..], t);
    } else {
      var n := WordLength(s);
      if n < |s| {
        WordLengthOfWord(s[..n], s[n..] + t);
        assert s + t == s[..n] + (s[n..] + t);
      } else {
        WordLengthOfWord(s, t);
      }
      assert WordLength(s + t) == n;
      assert (s + t)[..n] == s[..n];
      assert (s + t)[n..] == s[n..] + t;
      WordsTrailing(s[n..], t);
    }
  }

  /** Leading whitespace does not change the words. */
  lemma {:induction false} WordsLeading(t: string, s: string)
    requires forall i :: 0 <= i < |t| ==> t[i] in PY_SPACE
    ensures Words(t + s) == Words(s)
    decreases |t|
  {
    if t != [] {
      assert (t + s)[1..] == t[1..] + s;
      WordsLeading(t[1..], s);
    } else {
      assert t + s == s;
    }
  }

  /** Stripping does not change the words. */
  lemma WordsOfTrim(s: string)
    ensures Words(Trim(s, PY_SPACE)) == Words(s)
  {
    TrimSlice(s, PY_SPACE);
    var k := LeadingCount(s, PY_SPACE);
    var r := Trim(s, PY_SPACE);
    assert s == s[..k] + (r + s[k + |r|..]);
    WordsLeading(s[..k], r + s[k + |r|..]);
    WordsTrailing(r, s[k + |r|..]);
  }

  /** `normalize_position` keeps the words of its input, in order, and nothing else. */
  lemma NormalizeKeepsWords(v: Value)
    requires !v.NaN?
    ensures Words(NormalizePosition(v)) == Words(ToStr(v))
  {
    WordsOfTrim(ToStr(v));
    WordsOfJoin(Words(Trim(ToStr(v), PY_SPACE)));
  }

  /** `normalize_position` is idempotent. */
  lemma NormalizeIdempotent(v: Value)
    ensures NormalizePosition(PyStr(NormalizePosition(v))) == NormalizePosition(v)
  {
    if !v.NaN? {
      var r := NormalizePosition(v);
      NormalizeCollapsed(v);
      TrimTrimmed(r, PY_SPACE);
      WordsOfJoin(Words(Trim(ToStr(v), PY_SPACE)));
    }
  }

  /** `s.replace(pattern, '')`: one left-to-right pass deleting non-overlapping occurrences. */
  function RemoveAll(s: string, pattern: string): (r: string)
    requires pattern != []
    ensures |r| <= |s|
    decreases |s|
  {
    if |s| < |pattern| then s
    else if s[..|pattern|] == pattern then RemoveAll(s[|pattern|..], pattern)
    else [s[0]] + RemoveAll(s[1..], pattern)
  }

  /** Deleting occurrences brings in no character that was not there. */
  lemma {:induction false} RemoveAllKeeps(s: string, pattern: string)
    requires pattern != []
    ensures forall i :: 0 <= i < |RemoveAll(s, pattern)| ==> RemoveAll(s, pattern)[i] in s
    decreases |s|
  {
    if |s| >= |pattern| {
      if s[..|pattern|] == pattern {
        RemoveAllKeeps(s[|pattern|..], pattern);
        assert forall c :: c in s[|pattern|..] ==> c in s;
      } else {
        RemoveAllKeeps(s[1..], pattern);
        assert forall c :: c in s[1..] ==> c in s;
      }
    }
  }

  /** A string without the pattern is left as it is. */
  lemma {:induction false} RemoveAbsent(s: string, pattern: string)
    requires pattern != [] && !Contains(s, pattern)
    ensures RemoveAll(s, pattern) == s
    decreases |s|
  {
    if |s| >= |pattern| {
      assert !OccursAt(s, pattern, 0);
      if !Contains(s[1..], pattern) {
        RemoveAbsent(s[1..], pattern);
      } else {
        var i :| 0 <= i <= |s[1..]| - |pattern| && OccursAt(s[1..], pattern, i);
        assert s[i + 1..i + 1 + |pattern|] == s[1..][i..i + |pattern|];
        assert OccursAt(s, pattern, i + 1);
      }
    }
  }

  /**
   * `normalize_for_comparison`: '' for NaN, otherwise the stripped string
   * without any ' ' and then without '(주)'.
   */
  function NormalizeForComparison(v: Value): string {
    if v.NaN? then ""
    else RemoveAll(Without(Trim(ToStr(v), PY_SPACE), {' '}), COMPANY_MARK)
  }

  /** The comparison form has no ' '. */
  lemma ComparisonHasNoSpace(v: Value)
    ensures forall i :: 0 <= i < |NormalizeForComparison(v)| ==> NormalizeForComparison(v)[i] != ' '
  {
    if !v.NaN? {
      RemoveAllKeeps(Without(Trim(ToStr(v), PY_SPACE), {' '}), COMPANY_MARK);
    }
  }

  /** The one pass can leave a mark the deletion itself brought together. */
  lemma MarkCanSurvive()
    ensures NormalizeForComparison(PyStr("((주)주)")) == COMPANY_MARK
  {
    var s := "((주)주)";
    WithoutAbsent(s, {' '});
    TrimTrimmed(s, PY_SPACE);
    MarkRemovedOnce(s);
  }

  /** The pass over '((주)주)' deletes the mark at index 1 and keeps the rest. */
  lemma MarkRemovedOnce(s: string)
    requires s == "((주)주)"
    ensures RemoveAll(s, COMPANY_MARK) == COMPANY_MARK
  {
    var rest := "주)";
    assert RemoveAll(rest, COMPANY_MARK) == rest;
    assert s[1..][..3] == COMPANY_MARK && s[1..][3..] == rest;
    assert RemoveAll(s[1..], COMPANY_MARK) == rest;
    assert s[..3][1] == '(' && COMPANY_MARK[1] == '주';
  }


  // ---------------------------------------------------------- scoring

  /** `int(60 * overlap / total)` over the character sets of the two comparison forms. */
  function PartialScore(a: string, b: string): (score: nat)
    requires a != [] && b != []
    ensures score <= 60
  {
    var sa := set i | 0 <= i < |a| :: a[i];
    var sb := set i | 0 <= i < |b| :: b[i];
    assert a[0] in sa + sb;
    var overlap := |sa * sb|;
    var total := |sa + sb|;
    SubsetSize(sa * sb, sa + sb);
    QuotientBound(60 * overlap, total, 60);
    Quotient(60 * overlap, total)
  }

  /** `a // b` for a non-negative `a` and a positive `b`, by repeated subtraction. */
  function Quotient(a: nat, b: nat): nat
    requires b > 0
    decreases a
  {
    if a < b then 0 else 1 + Quotient(a - b, b)
  }

  /** A quotient is at most `k` when the dividend is at most `k` times the divisor. */
  lemma {:induction false} QuotientBound(a: nat, b: nat, k: nat)
    requires b > 0 && a <= k * b
    ensures Quotient(a, b) <= k
    decreases a
  {
    if a >= b {
      QuotientBound(a - b, b, k - 1);
    }
  }

  lemma SubsetSize(x: set<char>, y: set<char>)
    requires x <= y
    ensures |x| <= |y|
  {
    assert y == x + (y - x);
  }

  /**
   * The score of one roster position against a canonical one: 100 for equal
   * normal forms, 90 for equal comparison forms, 80 when the canonical form
   * ends with a roster form longer than 3, 70 when the roster form ends with
   * a canonical form longer than 3, and otherwise at most 60, for
   * containment either way, or 0.
   */
  function Score(criteria: string, raw: string): (score: nat)
    ensures score <= 100
    ensures score == 100 <==> NormalizePosition(PyStr(criteria)) == NormalizePosition(PyStr(raw))
    ensures score < ACCEPT ==> score <= 60
  {
    var criteriaNorm := NormalizePosition(PyStr(criteria));
    var criteriaComp := NormalizeForComparison(PyStr(criteria));
    var rawNorm := NormalizePosition(PyStr(raw));
    var rawComp := NormalizeForComparison(PyStr(raw));
    if criteriaNorm == rawNorm then 100
    else if criteriaComp == rawComp then 90
    else if EndsWith(criteriaComp, rawComp) && |rawComp| > 3 then 80
    else if EndsWith(rawComp, criteriaComp) && |criteriaComp| > 3 then 70
    else if Contains(rawComp, criteriaComp) || Contains(criteriaComp, rawComp) then
      if |criteriaComp| > 0 && |rawComp| > 0 then PartialScore(criteriaComp, rawComp) else 0
    else 0
  }

  /** A score reaches the acceptance bar exactly through one of the four named tiers, never through partial overlap. */
  lemma AcceptedTiers(criteria: string, raw: string)
    ensures Score(criteria, raw) >= ACCEPT <==>
            var cc := NormalizeForComparison(PyStr(criteria));
            var rc := NormalizeForComparison(PyStr(raw));
            || NormalizePosition(PyStr(criteria)) == NormalizePosition(PyStr(raw))
            || cc == rc
            || (EndsWith(cc, rc) && |rc| > 3)
            || (EndsWith(rc, cc) && |cc| > 3)
  {
  }

  /** Every position scores 100 against itself. */
  lemma SelfScore(s: string)
    ensures Score(s, s) == 100
  {
  }

  /** The suffix tiers are not symmetric: a canonical label ending with a roster label scores 80, the reverse 70. */
  lemma SuffixAsymmetry(criteria: string, raw: string)
    requires NormalizePosition(PyStr(criteria)) != NormalizePosition(PyStr(raw))
    requires NormalizeForComparison(PyStr(criteria)) != NormalizeForComparison(PyStr(raw))
    requires EndsWith(NormalizeForComparison(PyStr(criteria)), NormalizeForComparison(PyStr(raw)))
    requires |NormalizeForComparison(PyStr(raw))| > 3
    ensures Score(criteria, raw) == 80 && Score(raw, criteria) == 70
  {
  }

  /** What the loop of `find_best_match` holds after a prefix: the best score so far and where it was first reached. */
  datatype Pick = Pick(score: nat, index: Option<nat>)

  /** The score of each roster entry against `criteria`, in roster order. */
  function Scores(criteria: string, list: seq<RawRecord>): (scores: seq<nat>)
    ensures |scores| == |list|
  {
    seq(|list|, j requires 0 <= j < |list| => Score(criteria, list[j].position))
  }

  /**
   * The best of `scores` and the first index reaching it; a score replaces
   * the best only when strictly higher, starting from 0.
   */
  function BestOf(scores: seq<nat>): (b: Pick)
    ensures b.index.Some? <==> b.score > 0
    ensures b.index.Some? ==> b.index.value < |scores| && scores[b.index.value] == b.score
    ensures forall j :: 0 <= j < |scores| ==> scores[j] <= b.score
    ensures b.index.Some? ==> forall j :: 0 <= j < b.index.value ==> scores[j] < b.score
  {
    if scores == [] then Pick(0, None)
    else
      var n := |scores| - 1;
      var p := BestOf(scores[..n]);
      assert forall j :: 0 <= j < n ==> scores[..n][j] == scores[j];
      if scores[n] > p.score then Pick(scores[n], Some(n)) else p
  }

  /**
   * Where the answer of `find_best_match` sits among `scores`: the first
   * index with the highest score, when that score reaches the bar.
   */
  function AcceptedIndex(scores: seq<nat>): (k: Option<nat>)
    ensures k.Some? <==> exists j :: 0 <= j < |scores| && scores[j] >= ACCEPT
    ensures k.Some? ==> && k.value < |scores| && scores[k.value] >= ACCEPT
                        && (forall j :: 0 <= j < |scores| ==> scores[j] <= scores[k.value])
                        && (forall j :: 0 <= j < k.value ==> scores[j] < scores[k.value])
  {
    var b := BestOf(scores);
    if b.score >= ACCEPT then b.index else None
  }

  /** The answer of `find_best_match`: the record at the accepted index of the scores, if any. */
  function Accepted(criteria: string, list: seq<RawRecord>): Option<RawRecord> {
    match AcceptedIndex(Scores(criteria, list))
    case None => None
    case Some(k) => Some(list[k])
  }

  /**
   * In terms of the scores of the roster entries themselves: a record is
   * found exactly when one scores 70 or more, and it is the first one with
   * the highest score.
   */
  lemma AcceptedSpec(criteria: string, list: seq<RawRecord>)
    ensures Accepted(criteria, list).Some? <==> exists j :: 0 <= j < |list| && Score(criteria, list[j].position) >= ACCEPT
    ensures Accepted(criteria, list).Some? ==>
              exists k :: && 0 <= k < |list| && Accepted(criteria, list) == Some(list[k])
                          && Score(criteria, list[k].position) >= ACCEPT
                          && (forall j :: 0 <= j < |list| ==> Score(criteria, list[j].position) <= Score(criteria, list[k].position))
                          && (forall j :: 0 <= j < k ==> Score(criteria, list[j].position) < Score(criteria, list[k].position))
  {
    var scores := Scores(criteria, list);
    assert forall j :: 0 <= j < |list| ==> scores[j] == Score(criteria, list[j].position);
  }

  /** One more score replaces the best so far exactly when it is strictly higher. */
  lemma BestOfSnoc(scores: seq<nat>, x: nat)
    ensures var p := BestOf(scores);
            BestOf(scores + [x]) == if x > p.score then Pick(x, Some(|scores|)) else p
  {
    assert (scores + [x])[..|scores|] == scores;
  }

  /** The scores of one more roster entry are those of the prefix and the entry's own. */
  lemma ScoresSnoc(criteria: string, list: seq<RawRecord>, i: nat)
    requires i < |list|
    ensures Scores(criteria, list[..i + 1]) == Scores(criteria, list[..i]) + [Score(criteria, list[i].position)]
  {
    var a := Scores(criteria, list[..i + 1]);
    var b := Scores(criteria, list[..i]) + [Score(criteria, list[i].position)];
    forall k | 0 <= k < i + 1
      ensures a[k] == b[k]
    {
      if k < i {
        assert list[..i + 1][k] == list[..i][k];
      }
    }
  }

  /** `find_best_match(criteria_pos, raw_positions_list)`. */
  method FindBestMatch(criteria: string, list: seq<RawRecord>) returns (m: Option<RawRecord>)
    ensures m == Accepted(criteria, list)
  {
    var bestMatch: Option<RawRecord> := None;
    var bestScore: nat := 0;
    ghost var bestIndex: Option<nat> := None;
    for i := 0 to |list|
      invariant Pick(bestScore, bestIndex) == BestOf(Scores(criteria, list[..i]))
      invariant bestIndex.Some? ==> bestIndex.value < i
      invariant bestMatch == if bestIndex.Some? then Some(list[bestIndex.value]) else None
    {
      var score := Score(criteria, list[i].position);
      ScoresSnoc(criteria, list, i);
      BestOfSnoc(Scores(criteria, list[..i]), score);
      if score > bestScore {
        bestScore := score;
        bestMatch := Some(list[i]);
        bestIndex := Some(i);
      }
    }
    assert list[..|list|] == list;
    if bestScore < ACCEPT {
      m := None;
    } else {
      m := bestMatch;
    }
  }

  // ------------------------------------------------------------- main

  /** The entry a kept row contributes to `raw_positions_list`: rows without a position contribute none. */
  function RecordOf(row: RawRow): Option<RawRecord> {
    if Cleaned(row.position) == [] then None
    else Some(RawRecord(Cleaned(row.position), if row.name.NaN? then "" else ToStr(row.name), row.start, row.end))
  }

  /** `raw_positions_list` for the active rows in the order they are visited. */
  function Records(rows: seq<RawRow>): (records: seq<RawRecord>)
    ensures |records| <= |rows|
    ensures forall k :: 0 <= k < |records| ==> records[k].position != [] && IsTrimmed(records[k].position, PY_SPACE)
  {
    if rows == [] then []
    else
      var last := rows[|rows| - 1];
      Records(rows[..|rows| - 1]) + (match RecordOf(last) case None => [] case Some(r) => [r])
  }

  /** The loop building `raw_positions_list`. */
  method BuildRecords(rows: seq<RawRow>) returns (records: seq<RawRecord>)
    ensures records == Records(rows)
  {
    records := [];
    for i := 0 to |rows|
      invariant records == Records(rows[..i])
    {
      assert rows[..i + 1][..i] == rows[..i];
      var pos := rows[i].position;
      if !pos.NaN? && Trim(ToStr(pos), PY_SPACE) != [] {
        var name := if rows[i].name.NaN? then "" else ToStr(rows[i].name);
        records := records + [RawRecord(Trim(ToStr(pos), PY_SPACE), name, rows[i].start, rows[i].end)];
      }
    }
    assert rows[..|rows|] == rows;
  }

  /**
   * The result for one criteria row: its category and position, and the
   * matched record's name and 'start-end' period, or '' for both.
   */
  function ResultFor(row: CriteriaRow, records: seq<RawRecord>): Item {
    var category := Cleaned(row.category);
    var position := Cleaned(row.position);
    match Accepted(position, records)
    case None => Item(category, position, "", "")
    case Some(m) => Item(category, position, m.name, Cleaned(m.start) + "-" + Cleaned(m.end))
  }

  /** A result keeps its row's category and position; its period is empty exactly when no record is accepted, and then so is its name. */
  lemma ResultForSpec(row: CriteriaRow, records: seq<RawRecord>)
    ensures var item := ResultFor(row, records);
            && item.category == Cleaned(row.category) && item.position == Cleaned(row.position)
            && (item.period == "" <==> Accepted(Cleaned(row.position), records).None?)
            && (Accepted(Cleaned(row.position), records).None? ==> item.name == "")
  {
  }

  /** One pass of the loop over the criteria rows. */
  method MatchRow(row: CriteriaRow, records: seq<RawRecord>) returns (item: Item)
    ensures item == ResultFor(row, records)
  {
    var category := if row.category.NaN? then "" else Trim(ToStr(row.category), PY_SPACE);
    var position := if row.position.NaN? then "" else Trim(ToStr(row.position), PY_SPACE);
    var matchData := FindBestMatch(position, records);
    var name := "";
    var period := "";
    if matchData.Some? {
      name := matchData.value.name;
      period := Cleaned(matchData.value.start) + "-" + Cleaned(matchData.value.end);
    }
    item := Item(category, position, name, period);
  }

  /** The results of all criteria rows against the records, in order. */
  function Results(criteria: seq<CriteriaRow>, records: seq<RawRecord>): seq<Item> {
    seq(|criteria|, k requires 0 <= k < |criteria| => ResultFor(criteria[k], records))
  }

  /** The loop over the criteria rows, in order. */
  method BuildResults(criteria: seq<CriteriaRow>, records: seq<RawRecord>) returns (results: seq<Item>)
    ensures |results| == |criteria|
    ensures forall k :: 0 <= k < |criteria| ==> results[k] == ResultFor(criteria[k], records)
  {
    results := [];
    for i := 0 to |criteria|
      invariant |results| == i
      invariant forall k :: 0 <= k < i ==> results[k] == ResultFor(criteria[k], records)
    {
      var item := MatchRow(criteria[i], records);
      results := results + [item];
    }
  }

  /**
   * From the active rows (in the order the sort leaves them) to the data
   * written out: one result per criteria row, laid out in two columns with
   * blank padding.
   */
  method BuildData(criteria: seq<CriteriaRow>, activeRows: seq<RawRow>, dateLabel: string) returns (data: Data)
    ensures data.title == TITLE && data.date == dateLabel
    ensures data.leftHeaders == Report.HEADERS && data.rightHeaders == Report.HEADERS
    ensures IsSplitOf(data.rows, Results(criteria, Records(activeRows)), BLANK_ITEM)
  {
    var records := BuildRecords(activeRows);
    var results := BuildResults(criteria, records);
    assert results == Results(criteria, records);
    var rows := Split(results, BLANK_ITEM);
    data := Data(TITLE, dateLabel, Report.HEADERS, Report.HEADERS, rows);
  }
}
