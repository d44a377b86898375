/** Step 7 of `generate_enrollment_data_v4`: for each student, every course
    file is read back and the courses whose active block holds the student
    are listed, sorted, on one `id,course,course,...` line. */
module Summary {
  import opened Results
  import opened Collections
  import opened Sorting
  import opened Text
  import opened CourseFile
  import opened Generator

  const SummaryFileName := "student_courses_summary.txt"
  const SummaryHeader := "StudentID,Courses"

  // ---------------------------------------------------------------------------
  // The courses one student is active in

  /** The courses, in dictionary order, whose active block as given by
      `read` holds `sid`. The first course whose read fails stops the step
      with its error. */
  function Listed(read: string -> Result<seq<int>>, sid: int, courses: seq<string>): Result<seq<string>>
  {
    if courses == [] then Ok([])
    else
      match read(courses[0])
      case Err(e) => Err(e)
      case Ok(active) => After(if sid in active then [courses[0]] else [], Listed(read, sid, courses[1..]))
  }

  /** Opening a course's file and taking its active block. */
  function Reader(files: map<string, string>): string -> Result<seq<int>>
  {
    c => ReadActive(files, c)
  }

  /** The courses, in dictionary order, whose file lists `sid` in its active
      block. The first file that is missing or does not parse stops the step
      with its error. */
  function ActiveCourses(files: map<string, string>, sid: int, courses: seq<string>): Result<seq<string>>
  {
    Listed(Reader(files), sid, courses)
  }

  /** What the loop over the courses keeps: the courses listed so far,
      followed by what the remaining courses give, is the whole answer. */
  ghost predicate TakenSoFar(read: string -> Result<seq<int>>, sid: int, courses: seq<string>,
                             k: nat, taken: seq<string>)
    requires k <= |courses|
  {
    Listed(read, sid, courses) == After(taken, Listed(read, sid, courses[k..]))
  }

  /** The loop that fills `courses_taken` for one student. */
  method CoursesTaken(files: map<string, string>, sid: int, courses: seq<string>)
    returns (r: Result<seq<string>>)
    ensures r == ActiveCourses(files, sid, courses)
  {
    ghost var read := Reader(files);
    var taken: seq<string> := [];
    var k := 0;
    TakenAtStart(read, sid, courses);
    while k < |courses|
      invariant 0 <= k <= |courses|
      invariant TakenSoFar(read, sid, courses, k, taken)
    {
      var active := ReadActive(files, courses[k]);
      assert read(courses[k]) == active;
      if active.Err? {
        ListedStepErr(read, sid, courses, k, taken);
        return Err(active.error);
      }
      ListedStepOk(read, sid, courses, k, taken);
      if sid in active.value {
        taken := taken + [courses[k]];
      }
      k := k + 1;
    }
    TakenAtEnd(read, sid, courses, taken);
    r := Ok(taken);
  }

  lemma TakenAtStart(read: string -> Result<seq<int>>, sid: int, courses: seq<string>)
    ensures TakenSoFar(read, sid, courses, 0, [])
  {
    assert courses[0..] == courses;
    AfterNothing(Listed(read, sid, courses));
  }

  lemma TakenAtEnd(read: string -> Result<seq<int>>, sid: int, courses: seq<string>, taken: seq<string>)
    requires TakenSoFar(read, sid, courses, |courses|, taken)
    ensures Listed(read, sid, courses) == Ok(taken)
  {
    assert courses[|courses|..] == [] && taken + [] == taken;
  }

  /** A course whose file cannot be read ends the step with that error. */
  lemma ListedStepErr(read: string -> Result<seq<int>>, sid: int, courses: seq<string>,
                      k: nat, taken: seq<string>)
    requires k < |courses| && read(courses[k]).Err?
    requires TakenSoFar(read, sid, courses, k, taken)
    ensures Listed(read, sid, courses) == Err(read(courses[k]).error)
  {
    var tail := courses[k..];
    assert tail[0] == courses[k];
  }

  /** A course whose file can be read is appended when its active block
      holds the student. */
  lemma ListedStepOk(read: string -> Result<seq<int>>, sid: int, courses: seq<string>,
                     k: nat, taken: seq<string>)
    requires k < |courses| && read(courses[k]).Ok?
    requires TakenSoFar(read, sid, courses, k, taken)
    ensures TakenSoFar(read, sid, courses, k + 1,
                       if sid in read(courses[k]).value then taken + [courses[k]] else taken)
  {
    assert taken + [] == taken;
    var tail := courses[k..];
    var listed := if sid in read(courses[k]).value then [courses[k]] else [];
    assert tail[0] == courses[k] && tail[1..] == courses[k + 1..];
    AfterAfter(taken, listed, Listed(read, sid, tail[1..]));
  }

  /** The step succeeds exactly when every course can be read. */
  lemma {:induction false} ListedOk(read: string -> Result<seq<int>>, sid: int, courses: seq<string>)
    ensures Listed(read, sid, courses).Ok? <==> forall c :: c in courses ==> read(c).Ok?
  {
    if courses != [] {
      ListedOk(read, sid, courses[1..]);
      assert forall c :: c in courses <==> c == courses[0] || c in courses[1..];
    }
  }

  /** A successful step lists the first course or not, then the rest. */
  lemma ListedCons(read: string -> Result<seq<int>>, sid: int, courses: seq<string>)
    requires courses != [] && Listed(read, sid, courses).Ok?
    ensures read(courses[0]).Ok? && Listed(read, sid, courses[1..]).Ok?
    ensures Listed(read, sid, courses).value
         == (if sid in read(courses[0]).value then [courses[0]] else []) + Listed(read, sid, courses[1..]).value
  {
  }

  /** A course is listed exactly when it is one of the courses and its
      active block holds the student. */
  lemma {:induction false} ListedMembership(read: string -> Result<seq<int>>, sid: int,
                                            courses: seq<string>, c: string)
    requires Listed(read, sid, courses).Ok?
    ensures c in courses ==> read(c).Ok?
    ensures c in Listed(read, sid, courses).value <==> c in courses && sid in read(c).value
  {
    if courses != [] {
      ListedCons(read, sid, courses);
      ListedMembership(read, sid, courses[1..], c);
      assert c in courses <==> c == courses[0] || c in courses[1..];
    }
  }

  /** Distinct courses are listed at most once each. */
  lemma {:induction false} ListedDistinct(read: string -> Result<seq<int>>, sid: int, courses: seq<string>)
    requires Distinct(courses) && Listed(read, sid, courses).Ok?
    ensures Distinct(Listed(read, sid, courses).value)
  {
    if courses != [] {
      var rest := courses[1..];
      ListedCons(read, sid, courses);
      var tail := Listed(read, sid, rest).value;
      var r := Listed(read, sid, courses).value;
      DistinctTail(courses);
      ListedDistinct(read, sid, rest);
      ListedMembership(read, sid, rest, courses[0]);
      if r != tail {
        DistinctCons(courses[0], tail);
      }
    }
  }

  /** The step succeeds exactly when every course file can be read. */
  lemma ActiveCoursesOk(files: map<string, string>, sid: int, courses: seq<string>)
    ensures ActiveCourses(files, sid, courses).Ok? <==> forall c :: c in courses ==> ReadActive(files, c).Ok?
  {
    ListedOk(Reader(files), sid, courses);
  }

  /** A course is listed exactly when it is one of the courses and the
      active block of its file holds the student. */
  lemma ActiveCoursesMembership(files: map<string, string>, sid: int, courses: seq<string>, c: string)
    requires ActiveCourses(files, sid, courses).Ok?
    ensures c in courses ==> ReadActive(files, c).Ok?
    ensures c in ActiveCourses(files, sid, courses).value
        <==> c in courses && sid in ReadActive(files, c).value
  {
    ListedMembership(Reader(files), sid, courses, c);
  }

  /** Distinct courses are listed at most once each. */
  lemma ActiveCoursesDistinct(files: map<string, string>, sid: int, courses: seq<string>)
    requires Distinct(courses) && ActiveCourses(files, sid, courses).Ok?
    ensures Distinct(ActiveCourses(files, sid, courses).value)
  {
    ListedDistinct(Reader(files), sid, courses);
  }

  /** Only the reads of the listed courses matter. */
  lemma {:induction false} ListedSameReads(read1: string -> Result<seq<int>>, read2: string -> Result<seq<int>>,
                                           sid: int, courses: seq<string>)
    requires forall c :: c in courses ==> read1(c) == read2(c)
    ensures Listed(read1, sid, courses) == Listed(read2, sid, courses)
  {
    if courses != [] {
      assert courses[0] in courses;
      forall c | c in courses[1..] ensures read1(c) == read2(c) {
        assert c in courses;
      }
      ListedSameReads(read1, read2, sid, courses[1..]);
    }
  }

  /** Writing a file that is not one of the courses' files changes no
      student's courses. */
  lemma ActiveCoursesFrame(files: map<string, string>, name: string, text: string,
                           sid: int, courses: seq<string>)
    requires name !in FileNames(courses)
    ensures ActiveCourses(files[name := text], sid, courses) == ActiveCourses(files, sid, courses)
  {
    forall c | c in courses ensures Reader(files[name := text])(c) == Reader(files)(c) {
      assert CourseFileName(c) in FileNames(courses);
    }
    ListedSameReads(Reader(files[name := text]), Reader(files), sid, courses);
  }

  // ---------------------------------------------------------------------------
  // One summary line

  /** `f"{student_id},{','.join(sorted(courses_taken))}"`. */
  function SummaryLine(sid: int, taken: seq<string>): string
  {
    IntToString(sid) + "," + Join(',', Sort(taken, StrLe))
  }

  /** The course fields of a summary line: what follows the first comma,
      split at every comma. A line without a comma has none. */
  function SummaryCourses(line: string): seq<string>
  {
    match SplitOnce(line, ',')
    case None => []
    case Some((_, rest)) => Split(rest, ',')
  }

  /** The text before the first comma of a summary line is the student ID;
      the rest is the sorted courses joined by commas. */
  lemma SummaryLineSplit(sid: int, taken: seq<string>)
    ensures SplitOnce(SummaryLine(sid, taken), ',') == Some((IntToString(sid), Join(',', Sort(taken, StrLe))))
  {
    SplitOnceJoin(IntToString(sid), ',', Join(',', Sort(taken, StrLe)));
  }

  /** Reading the course fields back gives the sorted courses, as long as
      the student took a course and no course name has a comma. */
  lemma SummaryCoursesOfLine(sid: int, taken: seq<string>)
    requires taken != []
    requires forall c :: c in taken ==> ',' !in c
    ensures SummaryCourses(SummaryLine(sid, taken)) == Sort(taken, StrLe)
    ensures SortedBy(SummaryCourses(SummaryLine(sid, taken)), StrLe)
    ensures forall c :: c in SummaryCourses(SummaryLine(sid, taken)) <==> c in taken
  {
    var sorted := Sort(taken, StrLe);
    SummaryLineSplit(sid, taken);
    forall i | 0 <= i < |sorted| ensures ',' !in sorted[i] {
      assert sorted[i] in multiset(taken);
    }
    SplitJoin(',', sorted);
    StrLeTotal();
    SortIsSorted(taken, StrLe);
    forall c ensures c in sorted <==> c in taken {
      assert c in sorted <==> c in multiset(sorted);
      assert c in taken <==> c in multiset(taken);
    }
  }

  /** A student in no course still gets a line: the ID, a comma, and one
      empty course field. */
  lemma SummaryLineNoCourses(sid: int)
    ensures SummaryLine(sid, []) == IntToString(sid) + ","
    ensures SummaryCourses(SummaryLine(sid, [])) == [""]
  {
    SummaryLineSplit(sid, []);
  }

  // ---------------------------------------------------------------------------
  // The summary file

  /** The line of one student, or the error of reading the course files for it. */
  function StudentLine(files: map<string, string>, sid: int, courses: seq<string>): Result<string>
  {
    match ActiveCourses(files, sid, courses)
    case Err(e) => Err(e)
    case Ok(taken) => Ok(SummaryLine(sid, taken))
  }

  /** Each student's line or error, in student order. */
  function StudentLines(files: map<string, string>, ids: seq<int>, courses: seq<string>): (r: seq<Result<string>>)
    ensures |r| == |ids|
  {
    seq(|ids|, i requires 0 <= i < |ids| => StudentLine(files, ids[i], courses))
  }

  /** One line per student, in student order, or the first error. */
  function SummaryLines(files: map<string, string>, ids: seq<int>, courses: seq<string>): (r: Result<seq<string>>)
    ensures r.Ok? ==> |r.value| == |ids|
  {
    Collect(StudentLines(files, ids, courses))
  }

  /** The text of the summary file: the header line, then the students' lines. */
  function SummaryText(files: map<string, string>, ids: seq<int>, courses: seq<string>): Result<string>
  {
    match SummaryLines(files, ids, courses)
    case Err(e) => Err(e)
    case Ok(lines) => Ok(WriteLines([SummaryHeader] + lines))
  }

  /** What the loop over the students keeps: the lines written so far,
      followed by what the remaining students give, is the whole answer. */
  ghost predicate LinesSoFar(files: map<string, string>, ids: seq<int>, courses: seq<string>,
                             i: nat, lines: seq<string>)
    requires i <= |ids|
  {
    SummaryLines(files, ids, courses) == After(lines, Collect(StudentLines(files, ids, courses)[i..]))
  }

  /** Step 7: write `student_courses_summary.txt`, one line per student in
      the order of `ids`. The course files are read from `files`; the
      summary file is not one of them. */
  method WriteSummary(files: map<string, string>, ids: seq<int>, courses: seq<string>)
    returns (r: Result<map<string, string>>)
    requires SummaryFileName !in FileNames(courses)
    ensures SummaryText(files, ids, courses).Err? ==> r == Err(SummaryText(files, ids, courses).error)
    ensures SummaryText(files, ids, courses).Ok? ==>
      r == Ok(files[SummaryFileName := SummaryText(files, ids, courses).value])
  {
    var lines: seq<string> := [];
    var i := 0;
    LinesAtStart(files, ids, courses);
    while i < |ids|
      invariant 0 <= i <= |ids|
      invariant LinesSoFar(files, ids, courses, i, lines)
    {
      var taken := CoursesTaken(files, ids[i], courses);
      if taken.Err? {
        LinesStepErr(files, ids, courses, i, lines);
        return Err(taken.error);
      }
      LinesStepOk(files, ids, courses, i, lines);
      lines := lines + [SummaryLine(ids[i], taken.value)];
      i := i + 1;
    }
    LinesAtEnd(files, ids, courses, lines);
    r := Ok(files[SummaryFileName := WriteLines([SummaryHeader] + lines)]);
  }

  lemma LinesAtStart(files: map<string, string>, ids: seq<int>, courses: seq<string>)
    ensures LinesSoFar(files, ids, courses, 0, [])
  {
    var steps := StudentLines(files, ids, courses);
    assert steps[0..] == steps;
    AfterNothing(Collect(steps));
  }

  lemma LinesAtEnd(files: map<string, string>, ids: seq<int>, courses: seq<string>, lines: seq<string>)
    requires LinesSoFar(files, ids, courses, |ids|, lines)
    ensures SummaryText(files, ids, courses) == Ok(WriteLines([SummaryHeader] + lines))
  {
    CollectDone(StudentLines(files, ids, courses), lines);
  }

  /** A student whose courses cannot be read ends the step with that error. */
  lemma LinesStepErr(files: map<string, string>, ids: seq<int>, courses: seq<string>,
                     i: nat, lines: seq<string>)
    requires i < |ids| && ActiveCourses(files, ids[i], courses).Err?
    requires LinesSoFar(files, ids, courses, i, lines)
    ensures SummaryText(files, ids, courses) == Err(ActiveCourses(files, ids[i], courses).error)
  {
    var steps := StudentLines(files, ids, courses);
    assert steps[i] == StudentLine(files, ids[i], courses);
    CollectStep(steps, i, lines);
  }

  /** Otherwise the student's line is appended. */
  lemma LinesStepOk(files: map<string, string>, ids: seq<int>, courses: seq<string>,
                    i: nat, lines: seq<string>)
    requires i < |ids| && ActiveCourses(files, ids[i], courses).Ok?
    requires LinesSoFar(files, ids, courses, i, lines)
    ensures LinesSoFar(files, ids, courses, i + 1,
                       lines + [SummaryLine(ids[i], ActiveCourses(files, ids[i], courses).value)])
  {
    var steps := StudentLines(files, ids, courses);
    assert steps[i] == StudentLine(files, ids[i], courses);
    CollectStep(steps, i, lines);
  }

  /** With at least one student, the step succeeds exactly when every
      course file can be read. */
  lemma SummaryLinesOk(files: map<string, string>, ids: seq<int>, courses: seq<string>)
    requires ids != []
    ensures SummaryLines(files, ids, courses).Ok? <==> forall c :: c in courses ==> ReadActive(files, c).Ok?
  {
    var steps := StudentLines(files, ids, courses);
    CollectOk(steps);
    forall i | 0 <= i < |ids|
      ensures steps[i].Ok? <==> forall c :: c in courses ==> ReadActive(files, c).Ok?
    {
      ActiveCoursesOk(files, ids[i], courses);
    }
    assert steps[0].Ok? <==> forall c :: c in courses ==> ReadActive(files, c).Ok?;
  }

  /** There is one line per student, in student order, each built from the
      courses that student is active in. */
  lemma SummaryLinesAt(files: map<string, string>, ids: seq<int>, courses: seq<string>, i: nat)
    requires SummaryLines(files, ids, courses).Ok? && i < |ids|
    ensures |SummaryLines(files, ids, courses).value| == |ids|
    ensures ActiveCourses(files, ids[i], courses).Ok?
    ensures SummaryLines(files, ids, courses).value[i] == SummaryLine(ids[i], ActiveCourses(files, ids[i], courses).value)
  {
    var steps := StudentLines(files, ids, courses);
    CollectAt(steps, i);
    assert steps[i] == StudentLine(files, ids[i], courses);
  }

  /** Writing a file that is not one of the courses' files leaves the
      summary's text as it was. */
  lemma SummaryTextFrame(files: map<string, string>, name: string, text: string,
                         ids: seq<int>, courses: seq<string>)
    requires name !in FileNames(courses)
    ensures SummaryText(files[name := text], ids, courses) == SummaryText(files, ids, courses)
  {
    forall i | 0 <= i < |ids|
      ensures StudentLines(files[name := text], ids, courses)[i] == StudentLines(files, ids, courses)[i]
    {
      ActiveCoursesFrame(files, name, text, ids[i], courses);
    }
    assert StudentLines(files[name := text], ids, courses) == StudentLines(files, ids, courses);
  }

  /** No generated course file can be the summary file: a course name ends
      in a digit, and the summary file's stem does not. */
  lemma GeneratedNamesAvoidSummary(program: string, numbers: seq<int>)
    ensures SummaryFileName !in FileNames(CourseNames(program, numbers))
  {
    var names := CourseNames(program, numbers);
    forall c | c in names ensures CourseFileName(c) != SummaryFileName {
      var j :| 0 <= j < |names| && names[j] == c;
      CourseNameAvoidsSummary(program, numbers[j]);
    }
  }

  /** A course file name ends in a digit before `.txt`; the summary's does not. */
  lemma CourseNameAvoidsSummary(program: string, n: int)
    ensures CourseFileName(CourseName(program, n)) != SummaryFileName
  {
    var digits := IntToString(n);
    var c := CourseName(program, n);
    assert c == program + digits;
    IntToStringEndsInDigit(n);
    var f := CourseFileName(c);
    assert f[|f| - 5] == digits[|digits| - 1];
    assert SummaryFileName[|SummaryFileName| - 5] == 'y';
  }

  lemma IntToStringEndsInDigit(n: int)
    ensures IsDigit(IntToString(n)[|IntToString(n)| - 1])
  {
    var digits := IntToString(n);
    if n < 0 {
      assert digits[1..] == NatToString(-n);
      assert digits[|digits| - 1] == NatToString(-n)[|digits| - 2];
    }
  }

  // ---------------------------------------------------------------------------
  // The summary read against the files step 6 wrote

  /** The active block read back from a file step 6 wrote is the sorted
      remaining students. */
  lemma ReadActiveWritten(files: map<string, string>, course: string, enrolled: seq<int>, withdrawn: seq<int>)
    requires CourseFileName(course) in files
    requires files[CourseFileName(course)] == SplitFileText(enrolled, withdrawn)
    ensures ReadActive(files, course) == Ok(Sort(Remaining(enrolled, withdrawn), IntLe))
  {
    ActiveOfWritten(Remaining(enrolled, withdrawn), withdrawn);
  }

  /** Against the files step 6 wrote, the summary lists a course for a
      student exactly when the student was enrolled in it and not withdrawn. */
  lemma ActiveCoursesOfWritten(files: map<string, string>, enrolled: seq<seq<int>>,
                               courses: seq<string>, withdrawnSamples: seq<seq<int>>, sid: int)
    requires |enrolled| == |courses| && |withdrawnSamples| == |courses|
    requires forall k :: 0 <= k < |courses| ==>
      CourseFileName(courses[k]) in files &&
      files[CourseFileName(courses[k])] == SplitFileText(enrolled[k], withdrawnSamples[k])
    ensures ActiveCourses(files, sid, courses).Ok?
    ensures forall k :: 0 <= k < |courses| ==>
      (courses[k] in ActiveCourses(files, sid, courses).value <==>
         sid in enrolled[k] && sid !in withdrawnSamples[k])
  {
    forall c | c in courses ensures ReadActive(files, c).Ok? {
      var k :| 0 <= k < |courses| && courses[k] == c;
      ReadActiveWritten(files, c, enrolled[k], withdrawnSamples[k]);
    }
    ActiveCoursesOk(files, sid, courses);
    forall k | 0 <= k < |courses|
      ensures courses[k] in ActiveCourses(files, sid, courses).value <==>
              sid in enrolled[k] && sid !in withdrawnSamples[k]
    {
      var c := courses[k];
      ReadActiveWritten(files, c, enrolled[k], withdrawnSamples[k]);
      ActiveCoursesMembership(files, sid, courses, c);
      SortMembership(Remaining(enrolled[k], withdrawnSamples[k]), sid);
    }
  }

}
