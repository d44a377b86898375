/** `generate_student_course_matrix_v4`: the course numbers come from the
    names of the course files, the student IDs from the summary file, and
    each student gets one row of 0/1 cells, one per course, the cell being 1
    when the student is in that course's active block. */
module Matrix {
  import opened Results
  import opened Collections
  import opened Sorting
  import opened Text
  import opened CourseFile
  import opened Generator
  import opened Summary

  const MatrixFileName := "student_course_matrix.csv"
  const MatrixHeaderStart := "StudentID"

  // ---------------------------------------------------------------------------
  // Course numbers from the directory listing

  /** `filename.startswith(program) and filename.endswith(".txt")`. */
  predicate IsCourseFile(program: string, filename: string)
  {
    StartsWith(filename, program) && EndsWith(filename, ".txt")
  }

  /** `filename[len(program):-4]`: empty when the prefix and the suffix overlap. */
  function NumberText(program: string, filename: string): string
    requires IsCourseFile(program, filename)
  {
    if |program| <= |filename| - 4 then filename[|program|..|filename| - 4] else ""
  }

  /** The prefix and the suffix are taken off again exactly. */
  lemma NumberTextOf(program: string, s: string)
    ensures IsCourseFile(program, program + s + ".txt")
    ensures NumberText(program, program + s + ".txt") == s
  {
    var f := program + s + ".txt";
    assert f[..|program|] == program;
    assert f[|f| - 4..] == ".txt";
    assert f[|program|..|f| - 4] == s;
  }

  /** A file the generator wrote for course number `n` gives back `n`. */
  lemma GeneratedFileNumber(program: string, n: int)
    ensures IsCourseFile(program, CourseFileName(CourseName(program, n)))
    ensures ParseInt(NumberText(program, CourseFileName(CourseName(program, n)))) == Some(n)
  {
    assert CourseFileName(CourseName(program, n)) == program + IntToString(n) + ".txt";
    NumberTextOf(program, IntToString(n));
    ParseIntToString(n);
  }

  /** The course files of a listing, in listing order. */
  function ListedCourseFiles(program: string, listing: seq<string>): (r: seq<string>)
    ensures forall f :: f in r <==> f in listing && IsCourseFile(program, f)
    ensures forall i :: 0 <= i < |r| ==> IsCourseFile(program, r[i])
  {
    if listing == [] then []
    else
      var prev := ListedCourseFiles(program, listing[..|listing| - 1]);
      var f := listing[|listing| - 1];
      assert listing == listing[..|listing| - 1] + [f];
      if IsCourseFile(program, f) then prev + [f] else prev
  }

  /** At most once each, when the listing names each file once. */
  lemma {:induction false} ListedCourseFilesDistinct(program: string, listing: seq<string>)
    requires Distinct(listing)
    ensures Distinct(ListedCourseFiles(program, listing))
  {
    if listing != [] {
      var init := listing[..|listing| - 1];
      var f := listing[|listing| - 1];
      assert Distinct(init) by {
        forall i, j | 0 <= i < j < |init| ensures init[i] != init[j] {
          assert init[i] == listing[i] && init[j] == listing[j];
        }
      }
      ListedCourseFilesDistinct(program, init);
      var prev := ListedCourseFiles(program, init);
      if IsCourseFile(program, f) {
        assert f !in init by {
          forall k | 0 <= k < |init| ensures init[k] != f {
            assert init[k] == listing[k];
          }
        }
        var r := prev + [f];
        forall i, j | 0 <= i < j < |r| ensures r[i] != r[j] {
          if j == |prev| {
            assert r[i] == prev[i] && prev[i] in init;
          } else {
            assert r[i] == prev[i] && r[j] == prev[j];
          }
        }
      }
    }
  }

  /** The `course_numbers` strings the loop over the listing collects. */
  function ListedNumberTexts(program: string, listing: seq<string>): (r: seq<string>)
    ensures |r| == |ListedCourseFiles(program, listing)|
  {
    var files := ListedCourseFiles(program, listing);
    seq(|files|, i requires 0 <= i < |files| => NumberText(program, files[i]))
  }

  /** The loop over `os.listdir(output_dir)`: the number part of every
      course file's name, in listing order. */
  method CollectNumberTexts(program: string, listing: seq<string>) returns (texts: seq<string>)
    ensures texts == ListedNumberTexts(program, listing)
  {
    texts := [];
    var k := 0;
    while k < |listing|
      invariant 0 <= k <= |listing|
      invariant texts == ListedNumberTexts(program, listing[..k])
    {
      var f := listing[k];
      assert listing[..k + 1][..k] == listing[..k];
      if IsCourseFile(program, f) {
        texts := texts + [NumberText(program, f)];
      }
      k := k + 1;
    }
    assert listing[..k] == listing;
  }

  /** `sorted([int(c) for c in course_numbers])`. */
  function CourseNumbers(program: string, listing: seq<string>): Result<seq<int>>
  {
    match ParseIdLines(ListedNumberTexts(program, listing))
    case Err(e) => Err(e)
    case Ok(numbers) => Ok(Sort(numbers, IntLe))
  }

  /** The course numbers come out in ascending order whatever the listing's
      order. */
  lemma CourseNumbersSorted(program: string, listing: seq<string>)
    requires CourseNumbers(program, listing).Ok?
    ensures SortedBy(CourseNumbers(program, listing).value, IntLe)
  {
    IntLeTotal();
    SortIsSorted(ParseIdLines(ListedNumberTexts(program, listing)).value, IntLe);
  }

  /** A file the generator wrote for one of `numbers` is a course file whose
      number part parses as that number. */
  lemma GeneratedFileOfNumbers(program: string, numbers: seq<int>, f: string)
    requires f in FileNames(CourseNames(program, numbers))
    ensures IsCourseFile(program, f)
    ensures ParseInt(Strip(NumberText(program, f))).Some?
    ensures ParseInt(Strip(NumberText(program, f))).value in numbers
    ensures f == CourseFileName(CourseName(program, ParseInt(Strip(NumberText(program, f))).value))
  {
    var names := CourseNames(program, numbers);
    var c :| c in names && f == CourseFileName(c);
    var j :| 0 <= j < |names| && names[j] == c;
    GeneratedFileNumber(program, numbers[j]);
    ParseIntStrip(NumberText(program, f));
  }

  /** When every listed course file is one the generator wrote, every number
      part parses, and the `i`-th parsed number is that of the `i`-th listed
      course file. */
  lemma ListedGeneratedParse(program: string, numbers: seq<int>, listing: seq<string>)
    requires forall f :: f in listing && IsCourseFile(program, f) ==> f in FileNames(CourseNames(program, numbers))
    ensures ParseIdLines(ListedNumberTexts(program, listing)).Ok?
    ensures |ParseIdLines(ListedNumberTexts(program, listing)).value| == |ListedCourseFiles(program, listing)|
    ensures forall i :: 0 <= i < |ListedCourseFiles(program, listing)| ==>
      ParseIdLines(ListedNumberTexts(program, listing)).value[i] in numbers &&
      ListedCourseFiles(program, listing)[i] ==
        CourseFileName(CourseName(program, ParseIdLines(ListedNumberTexts(program, listing)).value[i]))
  {
    var files := ListedCourseFiles(program, listing);
    var texts := ListedNumberTexts(program, listing);
    forall i | 0 <= i < |texts| ensures ParseInt(Strip(texts[i])).Some? {
      assert texts[i] == NumberText(program, files[i]);
      GeneratedFileOfNumbers(program, numbers, files[i]);
    }
    ParseIdLinesOk(texts);
    ParseIdLinesValues(texts);
    var parsed := ParseIdLines(texts).value;
    forall i | 0 <= i < |files|
      ensures parsed[i] in numbers && files[i] == CourseFileName(CourseName(program, parsed[i]))
    {
      assert texts[i] == NumberText(program, files[i]);
      GeneratedFileOfNumbers(program, numbers, files[i]);
    }
  }

  /** Numbers named by distinct file names are distinct, and when each of
      `numbers` has its file among them, they are the same set. */
  lemma ParsedMatchNumbers(program: string, numbers: seq<int>, files: seq<string>, parsed: seq<int>)
    requires Distinct(files) && |parsed| == |files|
    requires forall i :: 0 <= i < |files| ==>
      parsed[i] in numbers && files[i] == CourseFileName(CourseName(program, parsed[i]))
    requires forall n :: n in numbers ==> CourseFileName(CourseName(program, n)) in files
    ensures Distinct(parsed)
    ensures Elems(parsed) == Elems(numbers)
  {
    forall i, j | 0 <= i < j < |parsed| ensures parsed[i] != parsed[j] {
      assert files[i] != files[j];
    }
    forall n | n in numbers ensures n in parsed {
      var file := CourseFileName(CourseName(program, n));
      var i :| 0 <= i < |files| && files[i] == file;
      CourseFileNameInjective(CourseName(program, parsed[i]), CourseName(program, n));
      CourseNameInjective(program, parsed[i], n);
    }
  }

  /** On a directory holding the generator's course files and any other
      files that are not course files, the matrix builder recovers exactly
      the generator's sorted course numbers. */
  lemma CourseNumbersOfGenerated(program: string, numbers: seq<int>, listing: seq<string>)
    requires Distinct(numbers) && SortedBy(numbers, IntLe)
    requires Distinct(listing)
    requires FileNames(CourseNames(program, numbers)) <= Elems(listing)
    requires forall f :: f in listing && IsCourseFile(program, f) ==> f in FileNames(CourseNames(program, numbers))
    ensures CourseNumbers(program, listing) == Ok(numbers)
  {
    var names := CourseNames(program, numbers);
    var files := ListedCourseFiles(program, listing);
    ListedCourseFilesDistinct(program, listing);
    ListedGeneratedParse(program, numbers, listing);
    var parsed := ParseIdLines(ListedNumberTexts(program, listing)).value;
    forall n | n in numbers ensures CourseFileName(CourseName(program, n)) in files {
      var file := CourseFileName(CourseName(program, n));
      assert CourseName(program, n) in names;
      assert file in FileNames(names);
      GeneratedFileNumber(program, n);
    }
    ParsedMatchNumbers(program, numbers, files, parsed);
    DistinctSameElems(parsed, numbers);
    IntLeTotal();
    SortPermutationInvariant(parsed, numbers, IntLe);
    SortOfSorted(numbers, IntLe);
  }

  // ---------------------------------------------------------------------------
  // Student IDs from the summary file

  /** `student_id, _ = line.strip().split(',', 1)` followed by `int(student_id)`. */
  function SummaryId(line: string): Result<int>
  {
    match SplitOnce(Strip(line), ',')
    case None => Err(NoComma(line))
    case Some((id, _)) =>
      match ParseInt(id)
      case None => Err(InvalidInt(id))
      case Some(sid) => Ok(sid)
  }

  /** The IDs of the summary lines, in file order, or the first error. */
  function SummaryIds(lines: seq<string>): Result<seq<int>>
  {
    Collect(seq(|lines|, i requires 0 <= i < |lines| => SummaryId(lines[i])))
  }

  /** `next(file)` skips the header, then the IDs are sorted; a file with no
      line at all stops at `next`. */
  function StudentIds(text: string): Result<seq<int>>
  {
    var lines := Lines(text);
    if lines == [] then Err(EmptySummary)
    else
      match SummaryIds(lines[1..])
      case Err(e) => Err(e)
      case Ok(ids) => Ok(Sort(ids, IntLe))
  }

  /** The loop over the summary's lines after the header, then `sort()`. */
  method ReadStudentIds(text: string) returns (r: Result<seq<int>>)
    ensures r == StudentIds(text)
  {
    var lines := Lines(text);
    if lines == [] {
      return Err(EmptySummary);
    }
    var body := lines[1..];
    ghost var steps := seq(|body|, i requires 0 <= i < |body| => SummaryId(body[i]));
    var ids: seq<int> := [];
    var k := 0;
    assert steps[k..] == steps;
    AfterNothing(Collect(steps));
    while k < |body|
      invariant 0 <= k <= |body|
      invariant Collect(steps) == After(ids, Collect(steps[k..]))
    {
      var sid := SummaryId(body[k]);
      assert steps[k] == sid;
      CollectStep(steps, k, ids);
      if sid.Err? {
        return Err(sid.error);
      }
      ids := ids + [sid.value];
      k := k + 1;
    }
    CollectDone(steps, ids);
    r := Ok(Sort(ids, IntLe));
  }

  /** The rows come out in ascending student-ID order. */
  lemma StudentIdsSorted(text: string)
    requires StudentIds(text).Ok?
    ensures SortedBy(StudentIds(text).value, IntLe)
  {
    IntLeTotal();
    SortIsSorted(SummaryIds(Lines(text)[1..]).value, IntLe);
  }

  /** The ID is read back from a summary line, newline included: the text
      before the first comma is the ID's decimal string. */
  lemma SummaryIdOfLine(sid: int, taken: seq<string>)
    ensures SummaryId(SummaryLine(sid, taken) + "\n") == Ok(sid)
  {
    var rest := Join(',', Sort(taken, StrLe));
    assert SummaryLine(sid, taken) + "\n" == IntToString(sid) + "," + (rest + "\n");
    SummaryIdOfText(sid, rest + "\n");
  }

  /** Whatever follows the first comma, the ID before it is read back. */
  lemma SummaryIdOfText(sid: int, rest: string)
    ensures SummaryId(IntToString(sid) + "," + rest) == Ok(sid)
  {
    var digits := IntToString(sid);
    var head := digits + ",";
    var line := digits + "," + rest;
    assert line == head + rest;
    assert Trimmed(head) by {
      assert head[0] == digits[0];
    }
    StripKeepsPrefix(head, rest);
    var stripped := Strip(line);
    var tail := stripped[|head|..];
    assert stripped == digits + [','] + tail by {
      assert stripped[..|head|] == head;
    }
    SplitOnceJoin(digits, ',', tail);
    ParseIntToString(sid);
  }

  /** Lines whose IDs all read back give those IDs, in order. */
  lemma SummaryIdsOfLines(lines: seq<string>, ids: seq<int>)
    requires |lines| == |ids|
    requires forall i :: 0 <= i < |lines| ==> SummaryId(lines[i]) == Ok(ids[i])
    ensures SummaryIds(lines) == Ok(ids)
  {
    var steps := seq(|lines|, i requires 0 <= i < |lines| => SummaryId(lines[i]));
    CollectAll(steps, ids);
  }

  /** A summary file made of the header and lines without newlines, each
      reading back as its ID, gives those IDs sorted. */
  lemma StudentIdsOfWritten(lines: seq<string>, ids: seq<int>)
    requires |lines| == |ids|
    requires forall i :: 0 <= i < |lines| ==> '\n' !in lines[i]
    requires forall i :: 0 <= i < |lines| ==> SummaryId(lines[i] + "\n") == Ok(ids[i])
    ensures StudentIds(WriteLines([SummaryHeader] + lines)) == Ok(Sort(ids, IntLe))
  {
    var all := [SummaryHeader] + lines;
    var body := Terminated(lines);
    assert Lines(WriteLines(all)) == [SummaryHeader + "\n"] + body by {
      forall i | 0 <= i < |all| ensures '\n' !in all[i] {
        if i > 0 {
          assert all[i] == lines[i - 1];
        }
      }
      LinesOfWritten(all);
    }
    assert SummaryIds(body) == Ok(ids) by {
      forall i | 0 <= i < |body| ensures SummaryId(body[i]) == Ok(ids[i]) {
        assert body[i] == lines[i] + "\n";
      }
      SummaryIdsOfLines(body, ids);
    }
    assert ([SummaryHeader + "\n"] + body)[1..] == body;
  }

  /** The generator's summary line for student `i` has no newline, when no
      course name has one, and reads back as the student's ID. */
  lemma SummaryLineReadsBack(files: map<string, string>, ids: seq<int>, courses: seq<string>, i: nat)
    requires forall c :: c in courses ==> '\n' !in c
    requires SummaryLines(files, ids, courses).Ok? && i < |ids|
    ensures |SummaryLines(files, ids, courses).value| == |ids|
    ensures '\n' !in SummaryLines(files, ids, courses).value[i]
    ensures SummaryId(SummaryLines(files, ids, courses).value[i] + "\n") == Ok(ids[i])
  {
    SummaryLinesAt(files, ids, courses, i);
    var taken := ActiveCourses(files, ids[i], courses).value;
    forall c | c in taken ensures '\n' !in c {
      ActiveCoursesMembership(files, ids[i], courses, c);
    }
    SummaryLineNoNewline(ids[i], taken);
    SummaryIdOfLine(ids[i], taken);
  }

  /** A summary line has no newline when no course name has one. */
  lemma SummaryLineNoNewline(sid: int, taken: seq<string>)
    requires forall c :: c in taken ==> '\n' !in c
    ensures '\n' !in SummaryLine(sid, taken)
  {
    var sorted := Sort(taken, StrLe);
    forall k | 0 <= k < |sorted| ensures '\n' !in sorted[k] {
      assert sorted[k] in multiset(taken);
    }
    JoinExcludes(',', sorted, '\n');
  }

  /** The matrix builder reads back, sorted, exactly the students the
      generator wrote to the summary, as long as no course name holds a
      newline. */
  lemma StudentIdsOfSummary(files: map<string, string>, ids: seq<int>, courses: seq<string>)
    requires forall c :: c in courses ==> '\n' !in c
    requires SummaryText(files, ids, courses).Ok?
    ensures StudentIds(SummaryText(files, ids, courses).value) == Ok(Sort(ids, IntLe))
  {
    var lines := SummaryLines(files, ids, courses).value;
    if ids != [] {
      SummaryLinesAt(files, ids, courses, 0);
    }
    forall i | 0 <= i < |lines|
      ensures '\n' !in lines[i] && SummaryId(lines[i] + "\n") == Ok(ids[i])
    {
      SummaryLineReadsBack(files, ids, courses, i);
    }
    StudentIdsOfWritten(lines, ids);
  }

  // ---------------------------------------------------------------------------
  // Header and rows

  /** `"StudentID," + ",".join(f"{program_name}{c}" for c in course_numbers)`. */
  function MatrixHeader(program: string, numbers: seq<int>): string
  {
    MatrixHeaderStart + "," + Join(',', CourseNames(program, numbers))
  }

  /** A header over at least one course splits into `StudentID` and the
      course names in order, when the program name has no comma; with no
      course it is `StudentID,`, whose second field is empty. */
  lemma MatrixHeaderFields(program: string, numbers: seq<int>)
    requires ',' !in program
    ensures numbers != [] ==> Split(MatrixHeader(program, numbers), ',') == [MatrixHeaderStart] + CourseNames(program, numbers)
    ensures numbers == [] ==> Split(MatrixHeader(program, numbers), ',') == [MatrixHeaderStart, ""]
  {
    if numbers == [] {
      SplitJoin(',', [MatrixHeaderStart, ""]);
      assert Join(',', [MatrixHeaderStart, ""]) == MatrixHeader(program, numbers);
      return;
    }
    var names := CourseNames(program, numbers);
    forall i | 0 <= i < |names| ensures ',' !in names[i] {
      assert names[i] == program + IntToString(numbers[i]);
    }
    var fields := [MatrixHeaderStart] + names;
    forall i | 0 <= i < |fields| ensures ',' !in fields[i] {
      if i > 0 {
        assert fields[i] == names[i - 1];
      }
    }
    SplitJoin(',', fields);
    assert fields[1..] == names;
    assert Join(',', fields) == MatrixHeader(program, numbers);
  }

  /** `'1' if student_id in remaining_students else '0'`. */
  function Cell(active: seq<int>, sid: int): string
  {
    if sid in active then "1" else "0"
  }

  /** The cell of one course: its file read, then the test. */
  function CellRead(files: map<string, string>, program: string, sid: int, number: int): Result<string>
  {
    match ReadActive(files, CourseName(program, number))
    case Err(e) => Err(e)
    case Ok(active) => Ok(Cell(active, sid))
  }

  /** One cell per course, in ascending course order, or the first error. */
  function RowCells(files: map<string, string>, program: string, sid: int, numbers: seq<int>): (r: Result<seq<string>>)
    ensures r.Ok? ==> |r.value| == |numbers|
  {
    Collect(seq(|numbers|, k requires 0 <= k < |numbers| => CellRead(files, program, sid, numbers[k])))
  }

  /** The inner loop over `course_numbers` for one student. */
  method BuildRowCells(files: map<string, string>, program: string, sid: int, numbers: seq<int>)
    returns (r: Result<seq<string>>)
    ensures r == RowCells(files, program, sid, numbers)
  {
    ghost var steps := seq(|numbers|, k requires 0 <= k < |numbers| => CellRead(files, program, sid, numbers[k]));
    var cells: seq<string> := [];
    var k := 0;
    assert steps[k..] == steps;
    AfterNothing(Collect(steps));
    while k < |numbers|
      invariant 0 <= k <= |numbers|
      invariant Collect(steps) == After(cells, Collect(steps[k..]))
    {
      var active := ReadActive(files, CourseName(program, numbers[k]));
      assert steps[k] == CellRead(files, program, sid, numbers[k]);
      CollectStep(steps, k, cells);
      if active.Err? {
        return Err(active.error);
      }
      cells := cells + [Cell(active.value, sid)];
      k := k + 1;
    }
    CollectDone(steps, cells);
    r := Ok(cells);
  }

  /** The cells can all be built exactly when every course file can be read. */
  lemma RowCellsOk(files: map<string, string>, program: string, sid: int, numbers: seq<int>)
    ensures RowCells(files, program, sid, numbers).Ok? <==>
            forall n :: n in numbers ==> ReadActive(files, CourseName(program, n)).Ok?
  {
    var steps := seq(|numbers|, k requires 0 <= k < |numbers| => CellRead(files, program, sid, numbers[k]));
    CollectOk(steps);
    forall k | 0 <= k < |numbers|
      ensures steps[k].Ok? <==> ReadActive(files, CourseName(program, numbers[k])).Ok?
    {
      assert steps[k] == CellRead(files, program, sid, numbers[k]);
    }
  }

  /** One cell per course; each is `"1"` or `"0"`, and it is `"1"` exactly
      when the student is in that course's active block. */
  lemma RowCellsAt(files: map<string, string>, program: string, sid: int, numbers: seq<int>, k: nat)
    requires RowCells(files, program, sid, numbers).Ok? && k < |numbers|
    ensures |RowCells(files, program, sid, numbers).value| == |numbers|
    ensures ReadActive(files, CourseName(program, numbers[k])).Ok?
    ensures RowCells(files, program, sid, numbers).value[k] == "1" || RowCells(files, program, sid, numbers).value[k] == "0"
    ensures RowCells(files, program, sid, numbers).value[k] == "1" <==>
            sid in ReadActive(files, CourseName(program, numbers[k])).value
  {
    var steps := seq(|numbers|, k requires 0 <= k < |numbers| => CellRead(files, program, sid, numbers[k]));
    CollectAt(steps, k);
    assert steps[k] == CellRead(files, program, sid, numbers[k]);
  }

  /** `",".join(row)`, the ID first. */
  function RowLine(sid: int, cells: seq<string>): string
  {
    Join(',', [IntToString(sid)] + cells)
  }

  /** A row splits back into the ID and its cells: `1 + |cells|` fields. */
  lemma RowLineFields(sid: int, cells: seq<string>)
    requires forall k :: 0 <= k < |cells| ==> cells[k] == "1" || cells[k] == "0"
    ensures Split(RowLine(sid, cells), ',') == [IntToString(sid)] + cells
    ensures |Split(RowLine(sid, cells), ',')| == 1 + |cells|
  {
    var fields := [IntToString(sid)] + cells;
    forall i | 0 <= i < |fields| ensures ',' !in fields[i] {
      if i > 0 {
        assert fields[i] == cells[i - 1];
      }
    }
    SplitJoin(',', fields);
  }

  /** A matrix cell and the student's summary line agree: the cell of a
      course is `"1"` exactly when the summary lists that course. */
  lemma CellAgreesWithSummary(files: map<string, string>, program: string, sid: int,
                              numbers: seq<int>, courses: seq<string>, k: nat)
    requires RowCells(files, program, sid, numbers).Ok? && k < |numbers|
    requires ActiveCourses(files, sid, courses).Ok?
    requires CourseName(program, numbers[k]) in courses
    ensures RowCells(files, program, sid, numbers).value[k] == "1" <==>
            CourseName(program, numbers[k]) in ActiveCourses(files, sid, courses).value
  {
    RowCellsAt(files, program, sid, numbers, k);
    ActiveCoursesMembership(files, sid, courses, CourseName(program, numbers[k]));
  }

  // ---------------------------------------------------------------------------
  // The matrix file

  /** The row of one student: the cells, then the joined line. */
  function RowRead(files: map<string, string>, program: string, numbers: seq<int>, sid: int): Result<string>
  {
    match RowCells(files, program, sid, numbers)
    case Err(e) => Err(e)
    case Ok(cells) => Ok(RowLine(sid, cells))
  }

  /** One row per student, in the given order, or the first error. */
  function MatrixRows(files: map<string, string>, program: string, ids: seq<int>, numbers: seq<int>)
    : (r: Result<seq<string>>)
    ensures r.Ok? ==> |r.value| == |ids|
  {
    Collect(seq(|ids|, i requires 0 <= i < |ids| => RowRead(files, program, numbers, ids[i])))
  }

  /** The outer loop over the sorted student IDs. */
  method BuildRows(files: map<string, string>, program: string, ids: seq<int>, numbers: seq<int>)
    returns (r: Result<seq<string>>)
    ensures r == MatrixRows(files, program, ids, numbers)
  {
    ghost var steps := seq(|ids|, i requires 0 <= i < |ids| => RowRead(files, program, numbers, ids[i]));
    var rows: seq<string> := [];
    var i := 0;
    assert steps[i..] == steps;
    AfterNothing(Collect(steps));
    while i < |ids|
      invariant 0 <= i <= |ids|
      invariant Collect(steps) == After(rows, Collect(steps[i..]))
    {
      var cells := BuildRowCells(files, program, ids[i], numbers);
      assert steps[i] == RowRead(files, program, numbers, ids[i]);
      CollectStep(steps, i, rows);
      if cells.Err? {
        return Err(cells.error);
      }
      rows := rows + [RowLine(ids[i], cells.value)];
      i := i + 1;
    }
    CollectDone(steps, rows);
    r := Ok(rows);
  }

  /** There is one row per student, in the order of `ids`, each built from
      that student's cells. */
  lemma MatrixRowsAt(files: map<string, string>, program: string, ids: seq<int>, numbers: seq<int>, i: nat)
    requires MatrixRows(files, program, ids, numbers).Ok? && i < |ids|
    ensures |MatrixRows(files, program, ids, numbers).value| == |ids|
    ensures RowCells(files, program, ids[i], numbers).Ok?
    ensures MatrixRows(files, program, ids, numbers).value[i]
         == RowLine(ids[i], RowCells(files, program, ids[i], numbers).value)
  {
    var steps := seq(|ids|, i requires 0 <= i < |ids| => RowRead(files, program, numbers, ids[i]));
    CollectAt(steps, i);
    assert steps[i] == RowRead(files, program, numbers, ids[i]);
  }

  /** The whole matrix builder: nothing when the directory is missing;
      otherwise the course numbers, the summary's IDs and the rows, written
      to `student_course_matrix.csv`, or the first error. */
  function BuildMatrixFiles(files: map<string, string>, directoryExists: bool, program: string,
                            listing: seq<string>): Result<map<string, string>>
  {
    if !directoryExists then Err(DirectoryNotFound)
    else
      match CourseNumbers(program, listing)
      case Err(e) => Err(e)
      case Ok(numbers) =>
        if SummaryFileName !in files then Err(FileNotFound(SummaryFileName))
        else
          match StudentIds(files[SummaryFileName])
          case Err(e) => Err(e)
          case Ok(ids) =>
            match MatrixRows(files, program, ids, numbers)
            case Err(e) => Err(e)
            case Ok(rows) =>
              Ok(files[MatrixFileName := WriteLines([MatrixHeader(program, numbers)] + rows)])
  }

  /** `generate_student_course_matrix_v4` with the directory's files and its
      listing as inputs. */
  method GenerateStudentCourseMatrix(files: map<string, string>, directoryExists: bool, program: string,
                                     listing: seq<string>) returns (r: Result<map<string, string>>)
    ensures r == BuildMatrixFiles(files, directoryExists, program, listing)
  {
    if !directoryExists {
      return Err(DirectoryNotFound);
    }
    var texts := CollectNumberTexts(program, listing);
    var parsed := ParseIdLines(texts);
    if parsed.Err? {
      return Err(parsed.error);
    }
    var numbers := Sort(parsed.value, IntLe);
    if SummaryFileName !in files {
      return Err(FileNotFound(SummaryFileName));
    }
    var ids := ReadStudentIds(files[SummaryFileName]);
    if ids.Err? {
      return Err(ids.error);
    }
    var rows := BuildRows(files, program, ids.value, numbers);
    if rows.Err? {
      return Err(rows.error);
    }
    r := Ok(files[MatrixFileName := WriteLines([MatrixHeader(program, numbers)] + rows.value)]);
  }
}
