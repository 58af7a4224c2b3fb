/**
 * The display layer of src/display.rs: the projections of the server's
 * records into table rows, the subject-name canonicalisation, the name
 * filter, the date-key sort of grades, the "No records" short-circuits and
 * the sort-then-fill loop of the agenda and lesson tables.
 *
 * Table rendering is not modelled: a table is the sequence of rows it shows.
 * Date and time formatting is a parameter `format` (chrono's
 * "%Y-%m-%d %A" applied to an instant). A panic of the source is an `Err`.
 */
module Display {
  import opened Wrappers
  import opened Strings
  import opened Responses
  import opened Sorting

  /** What a display function renders: "No records", or a table of these rows. */
  datatype Table<R> = NoRecords | Rows(rows: seq<R>)

  /** The panics of the display layer: a date the sort cannot read, a reason without its code. */
  datatype DisplayFailure = DateUnparseable | MissingReasonCode

  // ---------------------------------------------------------------------------
  // Subject names
  // ---------------------------------------------------------------------------

  const Section: string := "sez. INFORMATICA"
  const ItalianName: string := "LINGUA E LETTERATURA ITALIANA"
  const HistoryName: string := "STORIA,CITTADINANZA E COSTITUZIONE"
  const SportsName: string := "SCIENZE MOTORIE E SPORTIVE"
  /** The key carries a trailing space: it is what is left of the name once its section is removed. */
  const TpsitName: string :=
    "TECNOLOGIE E " + "PROGETTAZIONE " + "DI SISTEMI " + "INFORMATICI " + "E DI " + "TELECOMUNICAZIONI "

  predicate IsLongName(subject: string)
  {
    subject == ItalianName || subject == HistoryName || subject == SportsName || subject == TpsitName
  }

  /** A subject that ends with the section loses every occurrence of it; any other is untouched. */
  function StripSection(subject: string): (r: string)
    ensures !EndsWith(subject, Section) ==> r == subject
  {
    if EndsWith(subject, Section) then Replace(subject, Section, "") else subject
  }

  lemma SectionStartsOnce()
    ensures Section[0] == 's' && 's' !in Section[1..]
  {
    var rest := Section[1..];
    assert forall k :: 0 <= k < |rest| ==> rest[k] != 's';
  }

  /** A name with its section appended gets the bare name back. */
  lemma StripSectionSuffix(name: string)
    requires 's' !in name
    ensures StripSection(name + Section) == name
  {
    SectionStartsOnce();
    assert (name + Section)[|name + Section| - |Section|..] == Section;
    ReplaceOnlyOccurrence(name, Section, "", "");
    assert name + Section + "" == name + Section;
    assert name + "" + "" == name;
  }

  /**
   * Every occurrence of the section is removed, not only the final one: a
   * subject made of 's'-free pieces joined by the section, and ending with it,
   * comes back as the pieces run together.
   */
  lemma StripSectionRemovesEveryOccurrence(parts: seq<string>)
    requires |parts| >= 2 && parts[|parts| - 1] == ""
    requires forall k :: 0 <= k < |parts| ==> 's' !in parts[k]
    ensures StripSection(Interleave(parts, Section)) == Interleave(parts, "")
  {
    SectionStartsOnce();
    ReplaceInterleavedEnding(parts, Section, "");
  }

  /** Exactly the four long names change, each to its short form. */
  function AbbreviateSubject(subject: string): (r: string)
    ensures r != subject <==> IsLongName(subject)
    ensures subject == ItalianName ==> r == "ITALIANO"
    ensures subject == HistoryName ==> r == "STORIA"
    ensures subject == SportsName ==> r == "MOTORIA"
    ensures subject == TpsitName ==> r == "TPSIT"
  {
    if subject == ItalianName then "ITALIANO"
    else if subject == HistoryName then "STORIA"
    else if subject == SportsName then "MOTORIA"
    else if subject == TpsitName then "TPSIT"
    else subject
  }

  /** A short form is never a long name, so abbreviating twice is abbreviating once. */
  lemma AbbreviateSubjectIdempotent(subject: string)
    ensures AbbreviateSubject(AbbreviateSubject(subject)) == AbbreviateSubject(subject)
  {
    var r := AbbreviateSubject(subject);
    if IsLongName(subject) {
      assert |r| <= 8;
      assert !IsLongName(r);
    }
  }

  /** The subject of a displayed grade: the section is stripped, then the name abbreviated. */
  function CanonicalSubject(subjectDesc: string): string
  {
    AbbreviateSubject(StripSection(subjectDesc))
  }

  /** The long name of TPSIT with its section, as the server sends it, becomes TPSIT. */
  lemma CanonicalTpsitWithSection()
    ensures CanonicalSubject(TpsitName + Section) == "TPSIT"
  {
    var a, b, c, d, e, f := "TECNOLOGIE E ", "PROGETTAZIONE ", "DI SISTEMI ", "INFORMATICI ", "E DI ", "TELECOMUNICAZIONI ";
    assert forall k :: 0 <= k < |a| ==> a[k] != 's';
    assert forall k :: 0 <= k < |b| ==> b[k] != 's';
    assert forall k :: 0 <= k < |c| ==> c[k] != 's';
    assert forall k :: 0 <= k < |d| ==> d[k] != 's';
    assert forall k :: 0 <= k < |e| ==> e[k] != 's';
    assert forall k :: 0 <= k < |f| ==> f[k] != 's';
    StripSectionSuffix(TpsitName);
  }

  /** Without its trailing space, the TPSIT name is not one of the four and is kept. */
  lemma TpsitKeyNeedsTrailingSpace()
    ensures var bare := TpsitName[..|TpsitName| - 1];
      AbbreviateSubject(bare) == bare
  {
    var bare := TpsitName[..|TpsitName| - 1];
    assert |bare| != |TpsitName|;
  }

  // ---------------------------------------------------------------------------
  // Grades
  // ---------------------------------------------------------------------------

  datatype SimpleGrade = SimpleGrade(
    subject: string,
    date: string,
    grade: Float32,
    subjectType: string,
    weight: Float32)

  function FromGrade(grade: Grade): SimpleGrade
  {
    SimpleGrade(CanonicalSubject(grade.subjectDesc), grade.evtDate, grade.decimalValue,
                grade.componentDesc, grade.weightFactor)
  }

  /** The numbers of every piece, or None when a piece does not parse. */
  function ParseAll(parts: seq<string>): (r: Option<seq<int>>)
  {
    if parts == [] then Some([])
    else
      var head, tail := ParseI32(parts[0]), ParseAll(parts[1..]);
      if head.Some? && tail.Some? then Some([head.value] + tail.value) else None
  }

  /** Every piece parses exactly when the whole does, and each number is its piece's. */
  lemma {:induction false} ParseAllSpec(parts: seq<string>)
    ensures var r := ParseAll(parts);
      && (r.Some? <==> forall k :: 0 <= k < |parts| ==> ParseI32(parts[k]).Some?)
      && (r.Some? ==> |r.value| == |parts|
                      && forall k :: 0 <= k < |parts| ==> ParseI32(parts[k]) == Some(r.value[k]))
  {
    if parts != [] {
      ParseAllSpec(parts[1..]);
      assert forall k :: 1 <= k < |parts| ==> parts[k] == parts[1..][k - 1];
    }
  }

  /**
   * The sort key of a grade's date: the pieces between `-` are parsed as
   * `i32`, and the first three combine as `y * 365 + m * 30 + d` in `i32`
   * arithmetic. None stands for the panics: a piece that does not parse,
   * fewer than three pieces, or an overflow.
   */
  function DateKey(date: string): (r: Option<int>)
    ensures r.Some? ==> InI32(r.value)
  {
    match ParseAll(Split(date, '-'))
    case None => None
    case Some(v) => KeyOfNumbers(v)
  }

  /** `v[0] * 365 + v[1] * 30 + v[2]`, each step checked for `i32` overflow. */
  function KeyOfNumbers(v: seq<int>): (r: Option<int>)
    ensures r.Some? ==> InI32(r.value)
  {
    if |v| < 3 then None
    else
      var year, month := v[0] * 365, v[1] * 30;
      if InI32(year) && InI32(month) && InI32(year + month) && InI32(year + month + v[2])
      then Some(year + month + v[2])
      else None
  }

  lemma DigitsHaveNoDash(p: string)
    requires AllDigits(p)
    ensures '-' !in p
  {
  }

  /** A date of three dash-free pieces splits into those pieces. */
  lemma SplitDate(y: string, m: string, d: string)
    requires '-' !in y && '-' !in m && '-' !in d
    ensures Split(y + "-" + m + "-" + d, '-') == [y, m, d]
  {
    var parts := [y, m, d];
    assert parts[1..][1..] == [d];
    assert Join(parts[1..], '-') == m + "-" + d;
    calc {
      Join(parts, '-');
      y + "-" + Join(parts[1..], '-');
      y + "-" + (m + "-" + d);
      y + "-" + m + "-" + d;
    }
    SplitJoin(parts, '-');
  }

  lemma ParseThree(y: string, m: string, d: string, a: int, b: int, c: int)
    requires ParseI32(y) == Some(a) && ParseI32(m) == Some(b) && ParseI32(d) == Some(c)
    ensures ParseAll([y, m, d]) == Some([a, b, c])
  {
    assert [d][1..] == [];
    assert ParseAll([d]) == Some([c] + []);
    assert [c] + [] == [c];
    assert [m, d][1..] == [d];
    assert ParseAll([m, d]) == Some([b] + [c]);
    assert [b] + [c] == [b, c];
    assert [y, m, d][1..] == [m, d];
    assert ParseAll([y, m, d]) == Some([a] + [b, c]);
    assert [a] + [b, c] == [a, b, c];
  }

  /** Three numbers within a million each combine without overflow. */
  lemma KeyOfSmallNumbers(a: int, b: int, c: int)
    requires 0 <= a <= 1000000 && 0 <= b <= 1000000 && 0 <= c <= 1000000
    ensures KeyOfNumbers([a, b, c]) == Some(a * 365 + b * 30 + c)
  {
    assert a * 365 <= 1000000 * 365;
    assert b * 30 <= 1000000 * 30;
  }

  /** A date that splits into three pieces parsing to small numbers gets their key. */
  lemma DateKeyOfPieces(date: string, y: string, m: string, d: string, a: int, b: int, c: int)
    requires Split(date, '-') == [y, m, d]
    requires ParseI32(y) == Some(a) && ParseI32(m) == Some(b) && ParseI32(d) == Some(c)
    requires 0 <= a <= 1000000 && 0 <= b <= 1000000 && 0 <= c <= 1000000
    ensures DateKey(date) == Some(a * 365 + b * 30 + c)
  {
    ParseThree(y, m, d, a, b, c);
    KeyOfSmallNumbers(a, b, c);
  }

  /** A date written as three dash-free numbers `y-m-d` gets the key `y * 365 + m * 30 + d`. */
  lemma DateKeyOfDashed(y: string, m: string, d: string, a: int, b: int, c: int)
    requires '-' !in y && '-' !in m && '-' !in d
    requires ParseI32(y) == Some(a) && ParseI32(m) == Some(b) && ParseI32(d) == Some(c)
    requires 0 <= a <= 1000000 && 0 <= b <= 1000000 && 0 <= c <= 1000000
    ensures DateKey(y + "-" + m + "-" + d) == Some(a * 365 + b * 30 + c)
  {
    SplitDate(y, m, d);
    DateKeyOfPieces(y + "-" + m + "-" + d, y, m, d, a, b, c);
  }

  /** An empty date has no key: its one piece does not parse. */
  lemma DateKeyOfEmpty()
    ensures DateKey("") == None
  {
    assert Split("", '-') == [""];
    assert ParseI32("") == None;
  }

  lemma DigitsOf2023()
    ensures AllDigits("2023") && DigitsValue("2023") == 2023
  {
    assert "2"[..0] == "";
    assert DigitsValue("2") == 2;
    assert "20"[..1] == "2";
    assert DigitsValue("20") == 20;
    assert "202"[..2] == "20";
    assert DigitsValue("202") == 202;
    assert "2023"[..3] == "202";
  }

  lemma DigitsOfSmall()
    ensures AllDigits("01") && DigitsValue("01") == 1
    ensures AllDigits("02") && DigitsValue("02") == 2
    ensures AllDigits("31") && DigitsValue("31") == 31
  {
    assert "0"[..0] == "" && "3"[..0] == "";
    assert DigitsValue("0") == 0 && DigitsValue("3") == 3;
    assert "01"[..1] == "0" && "02"[..1] == "0" && "31"[..1] == "3";
  }

  /** A run of digits without a sign parses to its decimal value. */
  lemma ParseDigitSamples()
    ensures ParseI32("2023") == Some(2023) && '-' !in "2023"
    ensures ParseI32("01") == Some(1) && '-' !in "01"
    ensures ParseI32("02") == Some(2) && '-' !in "02"
    ensures ParseI32("31") == Some(31) && '-' !in "31"
  {
    DigitsOf2023();
    DigitsOfSmall();
    ParseDigits("2023");
    ParseDigits("01");
    ParseDigits("02");
    ParseDigits("31");
  }

  lemma SampleDateTexts()
    ensures "2023" + "-" + "01" + "-" + "31" == "2023-01-31"
    ensures "2023" + "-" + "02" + "-" + "01" == "2023-02-01"
  {
  }

  lemma DateKeyOfJanuary31()
    ensures DateKey("2023-01-31") == Some(2023 * 365 + 1 * 30 + 31)
  {
    ParseDigitSamples();
    DateKeyOfDashed("2023", "01", "31", 2023, 1, 31);
    SampleDateTexts();
  }

  lemma DateKeyOfFebruary1()
    ensures DateKey("2023-02-01") == Some(2023 * 365 + 2 * 30 + 1)
  {
    ParseDigitSamples();
    DateKeyOfDashed("2023", "02", "01", 2023, 2, 1);
    SampleDateTexts();
  }

  /**
   * The key is not a day count: the last day of a 31-day month ties with the
   * first day of the next one, so the sort keeps such grades in input order.
   */
  lemma DateKeyTie()
    ensures DateKey("2023-01-31") == DateKey("2023-02-01") == Some(2023 * 365 + 61)
  {
    DateKeyOfJanuary31();
    DateKeyOfFebruary1();
  }

  /** The sort key of one grade: its date key, negated when newest first is asked for. */
  function Rank(grade: SimpleGrade, fromOldestToYoungest: bool): int
  {
    var k := DateKey(grade.date).GetOr(0);
    if fromOldestToYoungest then -k else k
  }

  function RankKey(fromOldestToYoungest: bool): SimpleGrade -> int
  {
    (grade: SimpleGrade) => Rank(grade, fromOldestToYoungest)
  }

  predicate DatesWellFormed(grades: seq<SimpleGrade>)
  {
    forall k :: 0 <= k < |grades| ==> DateKey(grades[k].date).Some?
  }

  /**
   * `sort_date_grade`: a stable sort by date key, ascending, or descending
   * when the flag is set (the comparator is `b.cmp(a)`). The comparator reads
   * every element's date as soon as there are two elements to compare, and
   * panics on one it cannot read.
   */
  function SortedGrades(grades: seq<SimpleGrade>, fromOldestToYoungest: bool)
    : (r: Result<seq<SimpleGrade>, DisplayFailure>)
    ensures r.Err? <==> |grades| >= 2 && !DatesWellFormed(grades)
    ensures r.Err? ==> r.error == DateUnparseable
  {
    if |grades| >= 2 && !DatesWellFormed(grades) then Err(DateUnparseable)
    else Ok(SortByKey(grades, RankKey(fromOldestToYoungest)))
  }

  /**
   * The sorted grades are the same grades, ordered by date key (oldest first
   * unless the flag is set, newest first if it is), and grades with equal
   * keys keep their input order.
   */
  lemma SortedGradesSpec(grades: seq<SimpleGrade>, fromOldestToYoungest: bool)
    requires DatesWellFormed(grades)
    ensures SortedGrades(grades, fromOldestToYoungest).Ok?
    ensures var r := SortedGrades(grades, fromOldestToYoungest).value;
      && multiset(r) == multiset(grades)
      && DatesWellFormed(r)
      && (forall i, j :: 0 <= i < j < |r| ==>
            if fromOldestToYoungest then DateKey(r[j].date).value <= DateKey(r[i].date).value
            else DateKey(r[i].date).value <= DateKey(r[j].date).value)
      && (forall k :: KeyFilter(r, RankKey(fromOldestToYoungest), k)
                   == KeyFilter(grades, RankKey(fromOldestToYoungest), k))
  {
    var key := RankKey(fromOldestToYoungest);
    var r := SortByKey(grades, key);
    SortByKeySpec(grades, key);
    forall k | 0 <= k < |r| ensures DateKey(r[k].date).Some? {
      assert r[k] in multiset(grades);
      var m :| 0 <= m < |grades| && grades[m] == r[k];
    }
    forall i, j | 0 <= i < j < |r|
      ensures if fromOldestToYoungest then DateKey(r[j].date).value <= DateKey(r[i].date).value
              else DateKey(r[i].date).value <= DateKey(r[j].date).value
    {
      assert key(r[i]) <= key(r[j]);
    }
  }

  /** The source's sort: the grades are moved into a vector and sorted in place. */
  method SortDateGrade(grades: seq<SimpleGrade>, fromOldestToYoungest: bool)
    returns (r: Result<seq<SimpleGrade>, DisplayFailure>)
    ensures r == SortedGrades(grades, fromOldestToYoungest)
  {
    if |grades| >= 2 && !DatesWellFormed(grades) {
      return Err(DateUnparseable);
    }
    var sorted := new SimpleGrade[|grades|](i requires 0 <= i < |grades| => grades[i]);
    assert sorted[..] == grades;
    SortInPlace(sorted, RankKey(fromOldestToYoungest));
    return Ok(sorted[..]);
  }

  /** The name filter compares subjects and name lower-cased and trimmed. */
  predicate NameMatches(grade: SimpleGrade, name: string)
  {
    Normalize(grade.subject) == Normalize(name)
  }

  /** The grades whose subject has the comparison form `form`, in input order. */
  function KeepSubject(grades: seq<SimpleGrade>, form: string): (r: seq<SimpleGrade>)
    ensures |r| <= |grades|
  {
    if grades == [] then []
    else
      var rest := KeepSubject(grades[1..], form);
      if Normalize(grades[0].subject) == form then [grades[0]] + rest else rest
  }

  /**
   * Without a name every grade is kept; with one, the grades whose subject
   * matches it, the name being brought to its comparison form as well.
   */
  function FilterByName(grades: seq<SimpleGrade>, name: Option<string>): (r: seq<SimpleGrade>)
    ensures name.None? ==> r == grades
    ensures |r| <= |grades|
  {
    match name
    case None => grades
    case Some(n) => KeepSubject(grades, Normalize(n))
  }

  lemma {:induction false} KeepSubjectMembers(grades: seq<SimpleGrade>, form: string)
    ensures forall g :: g in KeepSubject(grades, form) <==> g in grades && Normalize(g.subject) == form
  {
    if grades != [] {
      KeepSubjectMembers(grades[1..], form);
      assert forall g :: g in grades <==> g == grades[0] || g in grades[1..];
    }
  }

  /** When no subject has the comparison form, nothing is kept. */
  lemma {:induction false} KeepSubjectNone(grades: seq<SimpleGrade>, form: string)
    requires forall k :: 0 <= k < |grades| ==> Normalize(grades[k].subject) != form
    ensures KeepSubject(grades, form) == []
  {
    if grades != [] {
      assert forall k :: 0 <= k < |grades[1..]| ==> grades[1..][k] == grades[k + 1];
      KeepSubjectNone(grades[1..], form);
    }
  }

  /** A grade is kept exactly when it is in the input and, if a name is given, matches it. */
  lemma FilterByNameMembers(grades: seq<SimpleGrade>, name: Option<string>)
    ensures forall g :: g in FilterByName(grades, name) <==>
      g in grades && (name.Some? ==> NameMatches(g, name.value))
  {
    if name.Some? {
      KeepSubjectMembers(grades, Normalize(name.value));
    }
  }

  /** The filter keeps the input order: filtering a concatenation concatenates the filtered parts. */
  lemma {:induction false} KeepSubjectAppend(a: seq<SimpleGrade>, b: seq<SimpleGrade>, form: string)
    ensures KeepSubject(a + b, form) == KeepSubject(a, form) + KeepSubject(b, form)
  {
    if a == [] {
      assert a + b == b;
    } else {
      assert (a + b)[0] == a[0];
      assert (a + b)[1..] == a[1..] + b;
      KeepSubjectAppend(a[1..], b, form);
    }
  }

  lemma FilterByNameAppend(a: seq<SimpleGrade>, b: seq<SimpleGrade>, name: Option<string>)
    ensures FilterByName(a + b, name) == FilterByName(a, name) + FilterByName(b, name)
  {
    if name.Some? {
      KeepSubjectAppend(a, b, Normalize(name.value));
    }
  }

  /** The filter ignores the case of the name and whitespace padding around it. */
  lemma FilterByNameIgnoresCaseAndPadding(grades: seq<SimpleGrade>, name: string, w1: string, w2: string)
    requires AllWhitespace(w1) && AllWhitespace(w2)
    ensures FilterByName(grades, Some(w1 + ToLower(name) + w2)) == FilterByName(grades, Some(name))
  {
    NormalizeIgnoresPadding(w1, ToLower(name), w2);
    NormalizeIgnoresCase(name);
  }

  /** The `settings` argument of `display_grades`: the subject filter and the order flag. */
  datatype GradeSettings = GradeSettings(name: Option<string>, descDate: bool)

  function SimplifyGrades(grades: seq<Grade>): (r: seq<SimpleGrade>)
    ensures |r| == |grades| && forall k :: 0 <= k < |grades| ==> r[k] == FromGrade(grades[k])
  {
    seq(|grades|, k requires 0 <= k < |grades| => FromGrade(grades[k]))
  }

  /**
   * What `display_grades` returns: "No records" and no rows for an empty
   * response, else the table of the filtered, sorted grades and those grades.
   */
  function GradesReport(grades: Grades, settings: GradeSettings)
    : (r: Result<(Table<SimpleGrade>, seq<SimpleGrade>), DisplayFailure>)
    ensures r == Ok((NoRecords, [])) <==> grades.grades == []
    ensures r.Ok? && grades.grades != [] ==> r.value.0 == Rows(r.value.1)
  {
    var simplified := SimplifyGrades(grades.grades);
    if simplified == [] then Ok((NoRecords, []))
    else
      match SortedGrades(FilterByName(simplified, settings.name), settings.descDate)
      case Err(e) => Err(e)
      case Ok(sorted) => Ok((Rows(sorted), sorted))
  }

  /**
   * The empty check comes before the filter: a filter that matches nothing
   * still yields a table, an empty one, not "No records".
   */
  lemma GradesReportFilteredAway(grades: Grades, name: string, descDate: bool)
    requires grades.grades != []
    requires forall k :: 0 <= k < |grades.grades| ==> !NameMatches(FromGrade(grades.grades[k]), name)
    ensures GradesReport(grades, GradeSettings(Some(name), descDate)) == Ok((Rows([]), []))
  {
    var simplified := SimplifyGrades(grades.grades);
    KeepSubjectNone(simplified, Normalize(name));
    assert SortByKey([], RankKey(descDate)) == [];
  }

  /** The rows are the grades the filter keeps, reordered. */
  lemma GradesReportRows(grades: Grades, settings: GradeSettings)
    requires GradesReport(grades, settings).Ok?
    requires grades.grades != []
    ensures multiset(GradesReport(grades, settings).value.1)
         == multiset(FilterByName(SimplifyGrades(grades.grades), settings.name))
  {
    SortByKeyMultiset(FilterByName(SimplifyGrades(grades.grades), settings.name), RankKey(settings.descDate));
  }

  /** Every row shown matches the name filter and comes from the response. */
  lemma GradesReportRowsMatch(grades: Grades, settings: GradeSettings, g: SimpleGrade)
    requires GradesReport(grades, settings).Ok?
    requires g in GradesReport(grades, settings).value.1
    ensures g in SimplifyGrades(grades.grades)
    ensures settings.name.Some? ==> NameMatches(g, settings.name.value)
  {
    var filtered := FilterByName(SimplifyGrades(grades.grades), settings.name);
    GradesReportRows(grades, settings);
    assert g in multiset(GradesReport(grades, settings).value.1);
    assert g in filtered;
    FilterByNameMembers(SimplifyGrades(grades.grades), settings.name);
  }

  /** `display_grades` as the source writes it: map, check for empty, filter, sort. */
  method DisplayGrades(grades: Grades, settings: GradeSettings)
    returns (r: Result<(Table<SimpleGrade>, seq<SimpleGrade>), DisplayFailure>)
    ensures r == GradesReport(grades, settings)
  {
    var simplified := SimplifyGrades(grades.grades);
    if |simplified| == 0 {
      return Ok((NoRecords, []));
    }
    var filtered := FilterByName(simplified, settings.name);
    var sorted := SortDateGrade(filtered, settings.descDate);
    match sorted {
      case Err(e) => return Err(e);
      case Ok(s) => return Ok((Rows(s), s));
    }
  }

  // ---------------------------------------------------------------------------
  // Absences
  // ---------------------------------------------------------------------------

  datatype SimpleAbsence = SimpleAbsence(id: string, date: string, justified: bool, reason: string, code: string)

  /** The three known absence codes have labels; every other code gets the empty label. */
  function AbsenceLabel(evtCode: string): (shown: string)
    ensures shown == "Assenza" <==> evtCode == "ABA0"
    ensures shown == "Ritardo" <==> evtCode == "ABR0"
    ensures shown == "R. Breve" <==> evtCode == "ABR1"
    ensures shown == "" <==> evtCode != "ABA0" && evtCode != "ABR0" && evtCode != "ABR1"
  {
    if evtCode == "ABA0" then "Assenza"
    else if evtCode == "ABR0" then "Ritardo"
    else if evtCode == "ABR1" then "R. Breve"
    else ""
  }

  /**
   * `from_absence`: without a reason description both reason and code read
   * "N/A"; with one, both are taken, and a missing code then panics.
   */
  function FromAbsence(absence: Absence): (r: Result<SimpleAbsence, DisplayFailure>)
    ensures r.Err? <==> absence.justifReasonDesc.Some? && absence.justifReasonCode.None?
    ensures r.Err? ==> r.error == MissingReasonCode
    ensures r.Ok? && absence.justifReasonDesc.None? ==> r.value.reason == "N/A" && r.value.code == "N/A"
    ensures r.Ok? && absence.justifReasonDesc.Some? ==>
      r.value.reason == absence.justifReasonDesc.value && r.value.code == absence.justifReasonCode.value
    ensures r.Ok? ==> r.value.id == AbsenceLabel(absence.evtCode)
  {
    if absence.justifReasonDesc.Some? && absence.justifReasonCode.None? then Err(MissingReasonCode)
    else
      var (reason, code) :=
        if absence.justifReasonDesc.None? then ("N/A", "N/A")
        else (absence.justifReasonDesc.value, absence.justifReasonCode.value);
      Ok(SimpleAbsence(AbsenceLabel(absence.evtCode), absence.evtDate, absence.isJustified, reason, code))
  }

  /** Every absence projected in order, or the panic of the first one that cannot be. */
  function SimplifyAbsences(events: seq<Absence>): (r: Result<seq<SimpleAbsence>, DisplayFailure>)
  {
    if events == [] then Ok([])
    else
      var head, tail := FromAbsence(events[0]), SimplifyAbsences(events[1..]);
      if head.Err? then Err(head.error)
      else if tail.Err? then Err(tail.error)
      else Ok([head.value] + tail.value)
  }

  /** The mapping succeeds exactly when every absence can be projected, and then holds their rows in order. */
  lemma {:induction false} SimplifyAbsencesSpec(events: seq<Absence>)
    ensures var r := SimplifyAbsences(events);
      && (r.Ok? <==> forall k :: 0 <= k < |events| ==> FromAbsence(events[k]).Ok?)
      && (r.Ok? ==> |r.value| == |events|
                    && forall k :: 0 <= k < |events| ==> FromAbsence(events[k]) == Ok(r.value[k]))
  {
    if events != [] {
      SimplifyAbsencesSpec(events[1..]);
      assert forall k :: 1 <= k < |events| ==> events[k] == events[1..][k - 1];
    }
  }

  /** `display_absences`: "No records" exactly for an empty response, else one row per absence, in order. */
  function DisplayAbsences(absences: Absences): (r: Result<Table<SimpleAbsence>, DisplayFailure>)
    ensures r == Ok(NoRecords) <==> absences.events == []
    ensures r.Ok? && r.value.Rows? ==>
      |r.value.rows| == |absences.events|
      && forall k :: 0 <= k < |absences.events| ==> FromAbsence(absences.events[k]) == Ok(r.value.rows[k])
  {
    SimplifyAbsencesSpec(absences.events);
    match SimplifyAbsences(absences.events)
    case Err(e) => Err(e)
    case Ok(rows) => if rows == [] then Ok(NoRecords) else Ok(Rows(rows))
  }

  // ---------------------------------------------------------------------------
  // Agenda and lessons
  // ---------------------------------------------------------------------------

  /** AGHW and AGNT get names; every other code is shown as it is. */
  function AgendaLabel(evtCode: string): (shown: string)
    ensures shown != evtCode <==> evtCode == "AGHW" || evtCode == "AGNT"
    ensures shown == "Homework" <==> evtCode == "AGHW" || evtCode == "Homework"
    ensures shown == "Nota" <==> evtCode == "AGNT" || evtCode == "Nota"
  {
    if evtCode == "AGHW" then "Homework"
    else if evtCode == "AGNT" then "Nota"
    else evtCode
  }

  lemma AgendaLabelIdempotent(evtCode: string)
    ensures AgendaLabel(AgendaLabel(evtCode)) == AgendaLabel(evtCode)
  {
  }

  /** An agenda row; `time` is the event's instant and `date` its displayed form. */
  datatype SimpleAgenda = SimpleAgenda(time: int, date: string, code: string, notes: string, teacher: string)

  function FromAgenda(agenda: Agenda): SimpleAgenda
  {
    SimpleAgenda(agenda.evtDatetimeBegin, "", AgendaLabel(agenda.evtCode), agenda.notes, agenda.authorName)
  }

  function AgendaTime(row: SimpleAgenda): int
  {
    row.time
  }

  function SimplifyAgenda(agenda: seq<Agenda>): (r: seq<SimpleAgenda>)
    ensures |r| == |agenda| && forall k :: 0 <= k < |agenda| ==> r[k] == FromAgenda(agenda[k])
  {
    seq(|agenda|, k requires 0 <= k < |agenda| => FromAgenda(agenda[k]))
  }

  function DateAgenda(rows: seq<SimpleAgenda>, format: int -> string): (r: seq<SimpleAgenda>)
    ensures |r| == |rows| && forall k :: 0 <= k < |rows| ==> r[k] == rows[k].(date := format(rows[k].time))
  {
    seq(|rows|, k requires 0 <= k < |rows| => rows[k].(date := format(rows[k].time)))
  }

  function UndateAgenda(rows: seq<SimpleAgenda>): seq<SimpleAgenda>
  {
    seq(|rows|, k requires 0 <= k < |rows| => rows[k].(date := ""))
  }

  /** The rows of the agenda table: sorted by time, then dated. */
  function AgendaRows(agenda: seq<Agenda>, format: int -> string): seq<SimpleAgenda>
  {
    DateAgenda(SortByKey(SimplifyAgenda(agenda), AgendaTime), format)
  }

  /**
   * The agenda table shows every event once, in time order, with events at
   * the same instant in server order, and each row dated from its own time.
   */
  lemma AgendaRowsSpec(agenda: seq<Agenda>, format: int -> string)
    ensures var rows := AgendaRows(agenda, format);
      && |rows| == |agenda|
      && (forall i, j :: 0 <= i < j < |rows| ==> rows[i].time <= rows[j].time)
      && (forall k :: 0 <= k < |rows| ==> rows[k].date == format(rows[k].time))
      && multiset(UndateAgenda(rows)) == multiset(SimplifyAgenda(agenda))
      && (forall t :: KeyFilter(UndateAgenda(rows), AgendaTime, t) == KeyFilter(SimplifyAgenda(agenda), AgendaTime, t))
  {
    var simplified := SimplifyAgenda(agenda);
    var sorted := SortByKey(simplified, AgendaTime);
    var rows := AgendaRows(agenda, format);
    SortByKeySpec(simplified, AgendaTime);
    forall i, j | 0 <= i < j < |rows| ensures rows[i].time <= rows[j].time {
      assert AgendaTime(sorted[i]) <= AgendaTime(sorted[j]);
    }
    forall k | 0 <= k < |sorted| ensures sorted[k].date == "" {
      assert sorted[k] in multiset(simplified);
      var m :| 0 <= m < |simplified| && simplified[m] == sorted[k];
    }
    assert UndateAgenda(rows) == sorted;
  }

  /** The fill loop: each row's date is written from its own time. */
  method FillAgendaDates(records: array<SimpleAgenda>, format: int -> string)
    modifies records
    ensures records[..] == DateAgenda(old(records[..]), format)
  {
    for i := 0 to records.Length
      invariant forall k :: 0 <= k < i ==> records[k] == old(records[k]).(date := format(old(records[k]).time))
      invariant forall k :: i <= k < records.Length ==> records[k] == old(records[k])
    {
      records[i] := records[i].(date := format(records[i].time));
    }
  }

  /**
   * `display_agenda`: "No records" for an empty response; otherwise the rows
   * are sorted in place by time and a loop then fills in each row's date.
   */
  method DisplayAgenda(agendas: Agendas, format: int -> string) returns (r: Table<SimpleAgenda>)
    ensures agendas.agenda == [] ==> r == NoRecords
    ensures agendas.agenda != [] ==> r == Rows(AgendaRows(agendas.agenda, format))
  {
    var simplified := SimplifyAgenda(agendas.agenda);
    if |simplified| == 0 {
      return NoRecords;
    }
    var records := new SimpleAgenda[|simplified|](k requires 0 <= k < |simplified| => simplified[k]);
    assert records[..] == simplified;
    SortInPlace(records, AgendaTime);
    FillAgendaDates(records, format);
    return Rows(records[..]);
  }

  /** A lesson row; `time` is the instant of midnight UTC of the lesson's day. */
  datatype SimpleLesson = SimpleLesson(time: int, date: string, desc: string, code: string, teacher: string)

  const SecondsPerDay: int := 86400

  function FromLesson(lesson: Lesson): SimpleLesson
  {
    SimpleLesson(lesson.evtDate * SecondsPerDay, "", lesson.lessonArg, lesson.evtCode, lesson.authorName)
  }

  function LessonTime(row: SimpleLesson): int
  {
    row.time
  }

  function SimplifyLessons(lessons: seq<Lesson>): (r: seq<SimpleLesson>)
    ensures |r| == |lessons| && forall k :: 0 <= k < |lessons| ==> r[k] == FromLesson(lessons[k])
  {
    seq(|lessons|, k requires 0 <= k < |lessons| => FromLesson(lessons[k]))
  }

  function DateLessons(rows: seq<SimpleLesson>, format: int -> string): (r: seq<SimpleLesson>)
    ensures |r| == |rows| && forall k :: 0 <= k < |rows| ==> r[k] == rows[k].(date := format(rows[k].time))
  {
    seq(|rows|, k requires 0 <= k < |rows| => rows[k].(date := format(rows[k].time)))
  }

  function UndateLessons(rows: seq<SimpleLesson>): seq<SimpleLesson>
  {
    seq(|rows|, k requires 0 <= k < |rows| => rows[k].(date := ""))
  }

  /** The rows of the lessons table: sorted by time, then dated. */
  function LessonRows(lessons: seq<Lesson>, format: int -> string): seq<SimpleLesson>
  {
    DateLessons(SortByKey(SimplifyLessons(lessons), LessonTime), format)
  }

  /**
   * The lessons table shows every lesson once, by day, with lessons of the
   * same day in server order, and each row dated from its own time.
   */
  lemma LessonRowsSpec(lessons: seq<Lesson>, format: int -> string)
    ensures var rows := LessonRows(lessons, format);
      && |rows| == |lessons|
      && (forall i, j :: 0 <= i < j < |rows| ==> rows[i].time <= rows[j].time)
      && (forall k :: 0 <= k < |rows| ==> rows[k].date == format(rows[k].time))
      && (forall k :: 0 <= k < |rows| ==> exists m :: 0 <= m < |lessons| && rows[k].time == lessons[m].evtDate * SecondsPerDay)
      && multiset(UndateLessons(rows)) == multiset(SimplifyLessons(lessons))
      && (forall t :: KeyFilter(UndateLessons(rows), LessonTime, t) == KeyFilter(SimplifyLessons(lessons), LessonTime, t))
  {
    var simplified := SimplifyLessons(lessons);
    var sorted := SortByKey(simplified, LessonTime);
    var rows := LessonRows(lessons, format);
    SortByKeySpec(simplified, LessonTime);
    forall i, j | 0 <= i < j < |rows| ensures rows[i].time <= rows[j].time {
      assert LessonTime(sorted[i]) <= LessonTime(sorted[j]);
    }
    forall k | 0 <= k < |rows|
      ensures exists m :: 0 <= m < |lessons| && rows[k].time == lessons[m].evtDate * SecondsPerDay
    {
      assert sorted[k] in multiset(simplified);
      var m :| 0 <= m < |simplified| && simplified[m] == sorted[k];
      assert rows[k].time == lessons[m].evtDate * SecondsPerDay;
    }
    forall k | 0 <= k < |sorted| ensures sorted[k].date == "" {
      assert sorted[k] in multiset(simplified);
      var m :| 0 <= m < |simplified| && simplified[m] == sorted[k];
    }
    assert UndateLessons(rows) == sorted;
  }

  /** The fill loop: each row's date is written from its own time. */
  method FillLessonDates(records: array<SimpleLesson>, format: int -> string)
    modifies records
    ensures records[..] == DateLessons(old(records[..]), format)
  {
    for i := 0 to records.Length
      invariant forall k :: 0 <= k < i ==> records[k] == old(records[k]).(date := format(old(records[k]).time))
      invariant forall k :: i <= k < records.Length ==> records[k] == old(records[k])
    {
      records[i] := records[i].(date := format(records[i].time));
    }
  }

  /** `display_lessons`: the same sort-then-fill as the agenda. */
  method DisplayLessons(lessons: Lessons, format: int -> string) returns (r: Table<SimpleLesson>)
    ensures lessons.lessons == [] ==> r == NoRecords
    ensures lessons.lessons != [] ==> r == Rows(LessonRows(lessons.lessons, format))
  {
    var simplified := SimplifyLessons(lessons.lessons);
    if |simplified| == 0 {
      return NoRecords;
    }
    var records := new SimpleLesson[|simplified|](k requires 0 <= k < |simplified| => simplified[k]);
    assert records[..] == simplified;
    SortInPlace(records, LessonTime);
    FillLessonDates(records, format);
    return Rows(records[..]);
  }
}
