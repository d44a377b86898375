// The whole of `generate_enrollment_data_v4`: the draws, the enrollment
// dictionary, the course files and the summary, with every random choice an
// input.

module Dataset {
  import opened Results
  import opened Collections
  import opened Sorting
  import opened CourseFile
  import opened Generator
  import opened Summary
  import opened Text
  import opened Matrix

  /** `random.sample(enrolled_students, n)` for the course at dictionary
      position `k`: any function that gives `n` entries of the population,
      taken from distinct positions. */
  ghost predicate IsSampler(sampler: (nat, seq<int>, int) -> seq<int>)
  {
    forall k: nat, population: seq<int>, n: int ::
      0 <= n <= |population| ==> IsSample(sampler(k, population, n), population, n)
  }

  /** The students withdrawn from course `j`: a sample, of the size the
      course's rate gives, of the course's roster. */
  function Withdrawn(sampler: (nat, seq<int>, int) -> seq<int>, ids: seq<int>, samples: seq<seq<nat>>,
                     rates: seq<real>, j: nat): seq<int>
    requires |samples| == |ids| && j < |rates|
  {
    var roster := Roster(ids, samples, j);
    sampler(j, roster, WithdrawalCount(|roster|, rates[j]))
  }

  /** The roster of every course, in dictionary order. */
  function Rosters(ids: seq<int>, samples: seq<seq<nat>>, n: nat): (r: seq<seq<int>>)
    requires |samples| == |ids|
    ensures |r| == n
    ensures forall j :: 0 <= j < n ==> r[j] == Roster(ids, samples, j)
  {
    seq(n, j requires 0 <= j < n => Roster(ids, samples, j))
  }

  /** The withdrawn students of every course, in dictionary order. */
  function WithdrawnSamples(sampler: (nat, seq<int>, int) -> seq<int>, ids: seq<int>, samples: seq<seq<nat>>,
                            rates: seq<real>): (r: seq<seq<int>>)
    requires |samples| == |ids|
    ensures |r| == |rates|
    ensures forall j :: 0 <= j < |rates| ==> r[j] == Withdrawn(sampler, ids, samples, rates, j)
  {
    seq(|rates|, j requires 0 <= j < |rates| => Withdrawn(sampler, ids, samples, rates, j))
  }

  /** Each course's file holds its count, its remaining students and its
      withdrawn students, as step 6 writes them. */
  ghost predicate CourseFilesHold(files: map<string, string>, program: string, numbers: seq<int>,
                                  ids: seq<int>, samples: seq<seq<nat>>, rates: seq<real>,
                                  sampler: (nat, seq<int>, int) -> seq<int>)
    requires |samples| == |ids| && |rates| == |numbers|
  {
    forall j :: 0 <= j < |numbers| ==>
      CourseFileName(CourseName(program, numbers[j])) in files &&
      files[CourseFileName(CourseName(program, numbers[j]))]
        == SplitFileText(Roster(ids, samples, j), Withdrawn(sampler, ids, samples, rates, j))
  }

  /** Reading the course files back, as step 7 does, succeeds for every
      student, and lists a course exactly when the course's roster holds the
      student and its withdrawal sample does not. */
  ghost predicate ActiveAsEnrolled(files: map<string, string>, program: string, numbers: seq<int>,
                                   ids: seq<int>, samples: seq<seq<nat>>, rates: seq<real>,
                                   sampler: (nat, seq<int>, int) -> seq<int>)
    requires |samples| == |ids| && |rates| == |numbers|
  {
    forall i, j :: 0 <= i < |ids| && 0 <= j < |numbers| ==>
      ActiveCourses(files, ids[i], CourseNames(program, numbers)).Ok? &&
      (CourseName(program, numbers[j]) in ActiveCourses(files, ids[i], CourseNames(program, numbers)).value <==>
         ids[i] in Roster(ids, samples, j) && ids[i] !in Withdrawn(sampler, ids, samples, rates, j))
  }

  /** `generate_enrollment_data_v4` on a directory holding `files`. The
      draws of `random.randint`, the choices of `random.shuffle`, the
      numbers of courses taken, the samples of course indices, the
      withdrawal rates and the withdrawal samples are inputs. The results
      are the student IDs in their shuffled order, the sorted course
      numbers and the directory's files afterwards. */
  method GenerateEnrollmentData(files: map<string, string>, program: string,
                                numCourses: nat, numStudents: nat,
                                idDraws: seq<int>, shuffleChoices: seq<nat>,
                                coursesTaken: seq<nat>, courseDraws: seq<int>,
                                samples: seq<seq<nat>>, rates: seq<real>,
                                sampler: (nat, seq<int>, int) -> seq<int>)
    returns (ids: seq<int>, idsUsed: nat, numbers: seq<int>, numbersUsed: nat, out: map<string, string>)
    requires forall k :: 0 <= k < |idDraws| ==> MinStudentId <= idDraws[k] <= MaxStudentId
    requires |Elems(idDraws)| >= numStudents
    requires |shuffleChoices| == if numStudents == 0 then 0 else numStudents - 1
    requires forall k :: 0 <= k < |shuffleChoices| ==> shuffleChoices[k] <= numStudents - 1 - k
    requires |coursesTaken| == numStudents && |samples| == numStudents
    requires forall k :: 0 <= k < |courseDraws| ==> MinCourseNumber <= courseDraws[k] <= MaxCourseNumber
    requires |Elems(courseDraws)| >= numCourses
    requires forall i :: 0 <= i < numStudents ==> IsIndexSample(samples[i], numCourses, coursesTaken[i])
    requires |rates| == numCourses && forall j :: 0 <= j < numCourses ==> 0.0 <= rates[j] <= 1.0
    requires IsSampler(sampler)
    ensures |ids| == numStudents && Distinct(ids)
    ensures forall x :: x in ids ==> MinStudentId <= x <= MaxStudentId
    ensures idsUsed <= |idDraws| && multiset(ids) == multiset(Accumulate(idDraws[..idsUsed]))
    ensures |numbers| == numCourses
    ensures forall i, j :: 0 <= i < j < |numbers| ==> numbers[i] < numbers[j]
    ensures forall x :: x in numbers ==> MinCourseNumber <= x <= MaxCourseNumber
    ensures numbersUsed <= |courseDraws| && multiset(numbers) == multiset(Accumulate(courseDraws[..numbersUsed]))
    ensures CourseFilesHold(out, program, numbers, ids, samples, rates, sampler)
    ensures ActiveAsEnrolled(out, program, numbers, ids, samples, rates, sampler)
    ensures SummaryFileName in out
    ensures SummaryText(out, ids, CourseNames(program, numbers)) == Ok(out[SummaryFileName])
    ensures out.Keys == files.Keys + FileNames(CourseNames(program, numbers)) + {SummaryFileName}
    ensures forall name ::
      name in files && name != SummaryFileName && name !in FileNames(CourseNames(program, numbers)) ==>
        out[name] == files[name]
  {
    ids, idsUsed := GenerateStudentIds(idDraws, shuffleChoices, numStudents);
    numbers, numbersUsed := GenerateCourseNumbers(courseDraws, numCourses);
    var written := WriteEnrollment(files, program, numbers, ids, coursesTaken, samples, rates, sampler);
    out := WriteGeneratedSummary(written, program, numbers, ids, samples, rates, sampler);
  }

  /** Steps 4 to 6: the empty dictionary over the course names, the
      students appended course by course, and one file per course with its
      withdrawals split off. */
  method WriteEnrollment(files: map<string, string>, program: string, numbers: seq<int>,
                         ids: seq<int>, coursesTaken: seq<nat>, samples: seq<seq<nat>>,
                         rates: seq<real>, sampler: (nat, seq<int>, int) -> seq<int>)
    returns (written: map<string, string>)
    requires Distinct(numbers) && |coursesTaken| == |ids| && |samples| == |ids|
    requires forall i :: 0 <= i < |ids| ==> IsIndexSample(samples[i], |numbers|, coursesTaken[i])
    requires |rates| == |numbers| && forall j :: 0 <= j < |numbers| ==> 0.0 <= rates[j] <= 1.0
    requires IsSampler(sampler)
    ensures CourseFilesHold(written, program, numbers, ids, samples, rates, sampler)
    ensures written.Keys == files.Keys + FileNames(CourseNames(program, numbers))
    ensures forall name :: name in files && name !in FileNames(CourseNames(program, numbers)) ==>
      written[name] == files[name]
  {
    var names := CourseNames(program, numbers);
    CourseNamesDistinct(program, numbers);
    AccumulateDistinct(names);
    var e := new Enrollments(names);
    AssignCourses(e, program, numbers, ids, coursesTaken, samples);
    ghost var rosters := e.rosters;
    assert e.courses == names;
    assert forall j :: 0 <= j < |numbers| ==> rosters[names[j]] == Roster(ids, samples, j);
    var withdrawnSamples := WithdrawnSamples(sampler, ids, samples, rates);
    SamplesFitEnrollment(rosters, program, numbers, ids, samples, rates, sampler);
    written := WriteCourseFiles(e, rates, withdrawnSamples, files);
    FilesOfEnrollment(written, rosters, program, numbers, ids, samples, rates, sampler);
  }

  /** The files step 6 writes, seen course number by course number. */
  lemma FilesOfEnrollment(written: map<string, string>, rosters: map<string, seq<int>>, program: string,
                          numbers: seq<int>, ids: seq<int>, samples: seq<seq<nat>>, rates: seq<real>,
                          sampler: (nat, seq<int>, int) -> seq<int>)
    requires |samples| == |ids| && |rates| == |numbers|
    requires forall j :: 0 <= j < |numbers| ==>
      CourseName(program, numbers[j]) in rosters && rosters[CourseName(program, numbers[j])] == Roster(ids, samples, j)
    requires forall k :: 0 <= k < |numbers| ==>
      CourseFileName(CourseNames(program, numbers)[k]) in written &&
      written[CourseFileName(CourseNames(program, numbers)[k])]
        == SplitFileText(rosters[CourseNames(program, numbers)[k]], WithdrawnSamples(sampler, ids, samples, rates)[k])
    ensures CourseFilesHold(written, program, numbers, ids, samples, rates, sampler)
  {
    var names := CourseNames(program, numbers);
    var ws := WithdrawnSamples(sampler, ids, samples, rates);
    forall j | 0 <= j < |numbers|
      ensures CourseFileName(CourseName(program, numbers[j])) in written
      ensures written[CourseFileName(CourseName(program, numbers[j]))]
           == SplitFileText(Roster(ids, samples, j), Withdrawn(sampler, ids, samples, rates, j))
    {
      assert names[j] == CourseName(program, numbers[j]);
      assert ws[j] == Withdrawn(sampler, ids, samples, rates, j);
    }
  }

  /** Step 7 on the files steps 4 to 6 wrote: every course file reads back,
      so the summary is written, and the course files stay as they were. */
  method WriteGeneratedSummary(written: map<string, string>, program: string, numbers: seq<int>,
                               ids: seq<int>, samples: seq<seq<nat>>, rates: seq<real>,
                               sampler: (nat, seq<int>, int) -> seq<int>)
    returns (out: map<string, string>)
    requires |samples| == |ids| && |rates| == |numbers|
    requires CourseFilesHold(written, program, numbers, ids, samples, rates, sampler)
    ensures CourseFilesHold(out, program, numbers, ids, samples, rates, sampler)
    ensures ActiveAsEnrolled(out, program, numbers, ids, samples, rates, sampler)
    ensures SummaryFileName in out
    ensures SummaryText(out, ids, CourseNames(program, numbers)) == Ok(out[SummaryFileName])
    ensures out.Keys == written.Keys + {SummaryFileName}
    ensures forall name :: name in written && name != SummaryFileName ==> out[name] == written[name]
  {
    var names := CourseNames(program, numbers);
    GeneratedAgree(written, program, numbers, ids, samples, rates, sampler);
    GeneratedNamesAvoidSummary(program, numbers);
    var r := WriteSummary(written, ids, names);
    out := r.value;
    SummaryWriteKeeps(written, out[SummaryFileName], program, numbers, ids, samples, rates, sampler);
  }

  /** Each course's withdrawn students are a sample of its roster of the
      size its rate gives. */
  lemma WithdrawnSamplesFit(sampler: (nat, seq<int>, int) -> seq<int>, ids: seq<int>, samples: seq<seq<nat>>,
                            rates: seq<real>)
    requires |samples| == |ids| && IsSampler(sampler)
    requires forall j :: 0 <= j < |rates| ==> 0.0 <= rates[j] <= 1.0
    ensures forall j :: 0 <= j < |rates| ==>
      IsSample(Withdrawn(sampler, ids, samples, rates, j), Roster(ids, samples, j),
               WithdrawalCount(|Roster(ids, samples, j)|, rates[j]))
  {
    forall j | 0 <= j < |rates|
      ensures IsSample(Withdrawn(sampler, ids, samples, rates, j), Roster(ids, samples, j),
                       WithdrawalCount(|Roster(ids, samples, j)|, rates[j]))
    {
      var roster := Roster(ids, samples, j);
      var n := WithdrawalCount(|roster|, rates[j]);
      assert 0 <= n <= |roster|;
      assert IsSample(sampler(j, roster, n), roster, n);
    }
  }

  /** The same, for the dictionary the withdrawals are drawn from. */
  lemma SamplesFitEnrollment(rosters: map<string, seq<int>>, program: string, numbers: seq<int>,
                             ids: seq<int>, samples: seq<seq<nat>>, rates: seq<real>,
                             sampler: (nat, seq<int>, int) -> seq<int>)
    requires |samples| == |ids| && |rates| == |numbers| && IsSampler(sampler)
    requires forall j :: 0 <= j < |numbers| ==> 0.0 <= rates[j] <= 1.0
    requires forall j :: 0 <= j < |numbers| ==>
      CourseNames(program, numbers)[j] in rosters && rosters[CourseNames(program, numbers)[j]] == Roster(ids, samples, j)
    ensures forall k :: 0 <= k < |numbers| ==>
      IsSample(WithdrawnSamples(sampler, ids, samples, rates)[k], rosters[CourseNames(program, numbers)[k]],
               WithdrawalCount(|rosters[CourseNames(program, numbers)[k]]|, rates[k]))
  {
    WithdrawnSamplesFit(sampler, ids, samples, rates);
  }

  /** Distinct course numbers give distinct course names. */
  lemma CourseNamesDistinct(program: string, numbers: seq<int>)
    requires Distinct(numbers)
    ensures Distinct(CourseNames(program, numbers))
  {
    var names := CourseNames(program, numbers);
    forall j, k | 0 <= j < k < |numbers| ensures names[j] != names[k] {
      if names[j] == names[k] {
        CourseNameInjective(program, numbers[j], numbers[k]);
      }
    }
  }

  /** What step 7 reads for one student from the course files step 6 wrote. */
  lemma StudentOfGenerated(files: map<string, string>, program: string, numbers: seq<int>,
                           ids: seq<int>, samples: seq<seq<nat>>, rates: seq<real>,
                           sampler: (nat, seq<int>, int) -> seq<int>, i: nat)
    requires |samples| == |ids| && |rates| == |numbers| && i < |ids|
    requires CourseFilesHold(files, program, numbers, ids, samples, rates, sampler)
    ensures ActiveCourses(files, ids[i], CourseNames(program, numbers)).Ok?
    ensures forall j :: 0 <= j < |numbers| ==>
      (CourseName(program, numbers[j]) in ActiveCourses(files, ids[i], CourseNames(program, numbers)).value <==>
         ids[i] in Roster(ids, samples, j) && ids[i] !in Withdrawn(sampler, ids, samples, rates, j))
  {
    ActiveCoursesOfWritten(files, Rosters(ids, samples, |numbers|), CourseNames(program, numbers),
                           WithdrawnSamples(sampler, ids, samples, rates), ids[i]);
  }

  /** The course files step 6 wrote read back as the enrollment, and the
      summary built from them has a line for every student. */
  lemma GeneratedAgree(files: map<string, string>, program: string, numbers: seq<int>,
                       ids: seq<int>, samples: seq<seq<nat>>, rates: seq<real>,
                       sampler: (nat, seq<int>, int) -> seq<int>)
    requires |samples| == |ids| && |rates| == |numbers|
    requires CourseFilesHold(files, program, numbers, ids, samples, rates, sampler)
    ensures ActiveAsEnrolled(files, program, numbers, ids, samples, rates, sampler)
    ensures SummaryText(files, ids, CourseNames(program, numbers)).Ok?
  {
    var names := CourseNames(program, numbers);
    forall i | 0 <= i < |ids|
      ensures ActiveCourses(files, ids[i], names).Ok?
      ensures forall j :: 0 <= j < |numbers| ==>
        (names[j] in ActiveCourses(files, ids[i], names).value <==>
           ids[i] in Roster(ids, samples, j) && ids[i] !in Withdrawn(sampler, ids, samples, rates, j))
    {
      StudentOfGenerated(files, program, numbers, ids, samples, rates, sampler, i);
    }
    forall i | 0 <= i < |ids| ensures StudentLines(files, ids, names)[i].Ok? {
    }
    CollectOk(StudentLines(files, ids, names));
  }

  /** Writing the summary file keeps the course files, what they read back
      as, and the summary's text. */
  lemma SummaryWriteKeeps(files: map<string, string>, text: string, program: string, numbers: seq<int>,
                          ids: seq<int>, samples: seq<seq<nat>>, rates: seq<real>,
                          sampler: (nat, seq<int>, int) -> seq<int>)
    requires |samples| == |ids| && |rates| == |numbers|
    requires CourseFilesHold(files, program, numbers, ids, samples, rates, sampler)
    requires ActiveAsEnrolled(files, program, numbers, ids, samples, rates, sampler)
    ensures CourseFilesHold(files[SummaryFileName := text], program, numbers, ids, samples, rates, sampler)
    ensures ActiveAsEnrolled(files[SummaryFileName := text], program, numbers, ids, samples, rates, sampler)
    ensures SummaryText(files[SummaryFileName := text], ids, CourseNames(program, numbers))
         == SummaryText(files, ids, CourseNames(program, numbers))
  {
    var names := CourseNames(program, numbers);
    GeneratedNamesAvoidSummary(program, numbers);
    forall j | 0 <= j < |numbers|
      ensures CourseFileName(CourseName(program, numbers[j])) != SummaryFileName
    {
      CourseNameAvoidsSummary(program, numbers[j]);
    }
    forall i | 0 <= i < |ids|
      ensures ActiveCourses(files[SummaryFileName := text], ids[i], names) == ActiveCourses(files, ids[i], names)
    {
      ActiveCoursesFrame(files, SummaryFileName, text, ids[i], names);
    }
    SummaryTextFrame(files, SummaryFileName, text, ids, names);
  }

  // ---------------------------------------------------------------------------
  // The matrix built from a generated directory

  /** A generated course file reads back as the course's remaining
      students, sorted. */
  lemma GeneratedCourseRead(files: map<string, string>, program: string, numbers: seq<int>,
                            ids: seq<int>, samples: seq<seq<nat>>, rates: seq<real>,
                            sampler: (nat, seq<int>, int) -> seq<int>, j: nat)
    requires |samples| == |ids| && |rates| == |numbers| && j < |numbers|
    requires CourseFilesHold(files, program, numbers, ids, samples, rates, sampler)
    ensures ReadActive(files, CourseName(program, numbers[j]))
         == Ok(Sort(Remaining(Roster(ids, samples, j), Withdrawn(sampler, ids, samples, rates, j)), IntLe))
  {
    ReadActiveWritten(files, CourseName(program, numbers[j]), Roster(ids, samples, j),
                      Withdrawn(sampler, ids, samples, rates, j));
  }

  /** Every cell of a student's row in a generated directory is read, and
      it is `1` exactly when the course's roster holds the student and its
      withdrawal sample does not. */
  lemma GeneratedRowCells(files: map<string, string>, program: string, numbers: seq<int>,
                          ids: seq<int>, samples: seq<seq<nat>>, rates: seq<real>,
                          sampler: (nat, seq<int>, int) -> seq<int>, sid: int)
    requires |samples| == |ids| && |rates| == |numbers|
    requires CourseFilesHold(files, program, numbers, ids, samples, rates, sampler)
    ensures RowCells(files, program, sid, numbers).Ok?
    ensures forall k :: 0 <= k < |numbers| ==>
      (RowCells(files, program, sid, numbers).value[k] == "1" <==>
         sid in Roster(ids, samples, k) && sid !in Withdrawn(sampler, ids, samples, rates, k))
  {
    forall n | n in numbers ensures ReadActive(files, CourseName(program, n)).Ok? {
      var j :| 0 <= j < |numbers| && numbers[j] == n;
      GeneratedCourseRead(files, program, numbers, ids, samples, rates, sampler, j);
    }
    RowCellsOk(files, program, sid, numbers);
    forall k | 0 <= k < |numbers|
      ensures RowCells(files, program, sid, numbers).value[k] == "1" <==>
              sid in Roster(ids, samples, k) && sid !in Withdrawn(sampler, ids, samples, rates, k)
    {
      RowCellsAt(files, program, sid, numbers, k);
      GeneratedCourseRead(files, program, numbers, ids, samples, rates, sampler, k);
      SortMembership(Remaining(Roster(ids, samples, k), Withdrawn(sampler, ids, samples, rates, k)), sid);
    }
  }

  /** The listing of a generated directory gives back its course numbers. */
  lemma NumbersOfGenerated(files: map<string, string>, program: string, numbers: seq<int>,
                           ids: seq<int>, samples: seq<seq<nat>>, rates: seq<real>,
                           sampler: (nat, seq<int>, int) -> seq<int>, listing: seq<string>)
    requires |samples| == |ids| && |rates| == |numbers|
    requires Distinct(numbers) && SortedBy(numbers, IntLe)
    requires CourseFilesHold(files, program, numbers, ids, samples, rates, sampler)
    requires Distinct(listing) && Elems(listing) == files.Keys
    requires forall f :: f in files && IsCourseFile(program, f) ==> f in FileNames(CourseNames(program, numbers))
    ensures CourseNumbers(program, listing) == Ok(numbers)
  {
    var names := CourseNames(program, numbers);
    forall f | f in FileNames(names) ensures f in Elems(listing) {
      var c :| c in names && f == CourseFileName(c);
      var j :| 0 <= j < |names| && names[j] == c;
    }
    CourseNumbersOfGenerated(program, numbers, listing);
  }

  /** A generated summary gives back its students, sorted. */
  lemma IdsOfGenerated(files: map<string, string>, program: string, numbers: seq<int>, ids: seq<int>)
    requires '\n' !in program && SummaryFileName in files
    requires SummaryText(files, ids, CourseNames(program, numbers)) == Ok(files[SummaryFileName])
    ensures StudentIds(files[SummaryFileName]) == Ok(Sort(ids, IntLe))
  {
    var names := CourseNames(program, numbers);
    forall c | c in names ensures '\n' !in c {
      var j :| 0 <= j < |names| && names[j] == c;
      NoNewlineInCourseName(program, numbers[j]);
    }
    StudentIdsOfSummary(files, ids, names);
  }

  /** Every row over a generated directory is built. */
  lemma RowsOfGenerated(files: map<string, string>, program: string, numbers: seq<int>,
                        ids: seq<int>, samples: seq<seq<nat>>, rates: seq<real>,
                        sampler: (nat, seq<int>, int) -> seq<int>, rowIds: seq<int>)
    requires |samples| == |ids| && |rates| == |numbers|
    requires CourseFilesHold(files, program, numbers, ids, samples, rates, sampler)
    ensures MatrixRows(files, program, rowIds, numbers).Ok?
  {
    var steps := seq(|rowIds|, i requires 0 <= i < |rowIds| => RowRead(files, program, numbers, rowIds[i]));
    forall i | 0 <= i < |rowIds| ensures steps[i].Ok? {
      GeneratedRowCells(files, program, numbers, ids, samples, rates, sampler, rowIds[i]);
    }
    CollectOk(steps);
  }

  /** `generate_student_course_matrix_v4` on a directory that
      `generate_enrollment_data_v4` wrote and that holds no other course
      file of the program, listed in any order: it finds the generated
      course numbers and the students of the summary in ascending order,
      and writes the matrix over them. */
  lemma MatrixOfGenerated(files: map<string, string>, program: string, numbers: seq<int>,
                          ids: seq<int>, samples: seq<seq<nat>>, rates: seq<real>,
                          sampler: (nat, seq<int>, int) -> seq<int>, listing: seq<string>)
    requires |samples| == |ids| && |rates| == |numbers|
    requires Distinct(numbers) && SortedBy(numbers, IntLe) && '\n' !in program
    requires CourseFilesHold(files, program, numbers, ids, samples, rates, sampler)
    requires SummaryFileName in files
    requires SummaryText(files, ids, CourseNames(program, numbers)) == Ok(files[SummaryFileName])
    requires Distinct(listing) && Elems(listing) == files.Keys
    requires forall f :: f in files && IsCourseFile(program, f) ==> f in FileNames(CourseNames(program, numbers))
    ensures CourseNumbers(program, listing) == Ok(numbers)
    ensures StudentIds(files[SummaryFileName]) == Ok(Sort(ids, IntLe))
    ensures MatrixRows(files, program, Sort(ids, IntLe), numbers).Ok?
    ensures BuildMatrixFiles(files, true, program, listing)
         == Ok(files[MatrixFileName := WriteLines([MatrixHeader(program, numbers)]
                                                  + MatrixRows(files, program, Sort(ids, IntLe), numbers).value)])
  {
    NumbersOfGenerated(files, program, numbers, ids, samples, rates, sampler, listing);
    IdsOfGenerated(files, program, numbers, ids);
    RowsOfGenerated(files, program, numbers, ids, samples, rates, sampler, Sort(ids, IntLe));
  }

  /** The two functions in sequence: a directory that held no course file
      of the program, once `generate_enrollment_data_v4` has written it as
      `GenerateEnrollmentData` promises, gives the matrix over the generated
      columns and the sorted students, in any listing order, and each cell
      is `1` exactly when the student was enrolled in the course and not
      withdrawn from it. */
  lemma MatrixAfterGeneration(files: map<string, string>, out: map<string, string>, program: string,
                              numbers: seq<int>, ids: seq<int>, samples: seq<seq<nat>>, rates: seq<real>,
                              sampler: (nat, seq<int>, int) -> seq<int>, listing: seq<string>)
    requires |samples| == |ids| && |rates| == |numbers| && '\n' !in program
    requires forall f :: f in files ==> !IsCourseFile(program, f)
    requires !IsCourseFile(program, SummaryFileName)
    requires forall i, j :: 0 <= i < j < |numbers| ==> numbers[i] < numbers[j]
    requires CourseFilesHold(out, program, numbers, ids, samples, rates, sampler)
    requires SummaryFileName in out
    requires SummaryText(out, ids, CourseNames(program, numbers)) == Ok(out[SummaryFileName])
    requires out.Keys == files.Keys + FileNames(CourseNames(program, numbers)) + {SummaryFileName}
    requires Distinct(listing) && Elems(listing) == out.Keys
    ensures MatrixRows(out, program, Sort(ids, IntLe), numbers).Ok?
    ensures BuildMatrixFiles(out, true, program, listing)
         == Ok(out[MatrixFileName := WriteLines([MatrixHeader(program, numbers)]
                                                + MatrixRows(out, program, Sort(ids, IntLe), numbers).value)])
    ensures forall i, k :: 0 <= i < |ids| && 0 <= k < |numbers| ==>
      RowCells(out, program, ids[i], numbers).Ok? &&
      (RowCells(out, program, ids[i], numbers).value[k] == "1" <==>
         ids[i] in Roster(ids, samples, k) && ids[i] !in Withdrawn(sampler, ids, samples, rates, k))
  {
    AscendingNumbers(numbers);
    NoOtherCourseFiles(files, out, program, numbers);
    MatrixOfGenerated(out, program, numbers, ids, samples, rates, sampler, listing);
    forall i | 0 <= i < |ids|
      ensures RowCells(out, program, ids[i], numbers).Ok?
      ensures forall k :: 0 <= k < |numbers| ==>
        (RowCells(out, program, ids[i], numbers).value[k] == "1" <==>
           ids[i] in Roster(ids, samples, k) && ids[i] !in Withdrawn(sampler, ids, samples, rates, k))
    {
      GeneratedRowCells(out, program, numbers, ids, samples, rates, sampler, ids[i]);
    }
  }

  /** A course name has a newline only where the program's name has one. */
  lemma NoNewlineInCourseName(program: string, n: int)
    requires '\n' !in program
    ensures '\n' !in CourseName(program, n)
  {
    assert CourseName(program, n) == program + IntToString(n);
  }

  /** Strictly ascending course numbers, as step 3 leaves them, are
      distinct and sorted. */
  lemma AscendingNumbers(numbers: seq<int>)
    requires forall i, j :: 0 <= i < j < |numbers| ==> numbers[i] < numbers[j]
    ensures Distinct(numbers) && SortedBy(numbers, IntLe)
  {
  }

  /** A directory that held no course file of the program, written by
      `generate_enrollment_data_v4`, holds no course file of the program
      but the generated ones, as long as the summary's name is not one. */
  lemma NoOtherCourseFiles(files: map<string, string>, out: map<string, string>, program: string, numbers: seq<int>)
    requires forall f :: f in files ==> !IsCourseFile(program, f)
    requires !IsCourseFile(program, SummaryFileName)
    requires out.Keys == files.Keys + FileNames(CourseNames(program, numbers)) + {SummaryFileName}
    ensures forall f :: f in out && IsCourseFile(program, f) ==> f in FileNames(CourseNames(program, numbers))
  {
  }
}
