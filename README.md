# Enrollment dataset generator, modelled in Dafny

This project models `dataset_generator.py` from the INFO 8000 lab-3
repository. The script does two things:

- `generate_enrollment_data_v4` invents students and courses, enrolls
  students in courses, and withdraws some of them. It writes one file per
  course (the withdrawal count, then the sorted active IDs, then the sorted
  withdrawn IDs) and a summary file. The summary gives, for each student, the
  sorted courses that student is still active in.
- `generate_student_course_matrix_v4` reads these files back. It writes a
  0/1 matrix with one row per student and one column per course.

Every random choice is an input of the model: the `randint` draws, the
`shuffle` swaps, the `sample` results and the `uniform` rates. The directory
is a `map<string, string>` from file name to file text. The directory
listing is an input sequence. The proofs cover:

- the rejection loops (distinct values, in range, the requested count) and
  the sort;
- the in-place filling of the enrollment dictionary (who ends where, how
  often, in what order);
- the withdrawal split (a disjoint partition of the sizes the rate gives);
- the course-file round trip (the reader's positional slice gives back
  exactly the sorted remaining students);
- the summary (a course is listed iff the student is in its active block);
- the matrix (sorted columns recovered from any listing order, sorted rows,
  cells that are `1` iff the student is active);
- end to end (`Dataset.MatrixAfterGeneration`): the directory the generator
  writes makes the matrix builder succeed, with each cell `1` iff the student
  was enrolled and not withdrawn.

Modules, in dependency order:

| file | module | what it holds |
|---|---|---|
| `results.dfy` | `Results` | `Option`, `Result`, the error kinds, and `Collect` (the first error of a list of steps, or all their values) |
| `collections.dfy` | `Collections` | `Elems`, `Distinct`, and `Accumulate` (the value of the rejection loop) |
| `sorting.dfy` | `Sorting` | `Sort`, the specification of `sorted()` / `list.sort()`, with sortedness, permutation and uniqueness lemmas; the orders on `int` and `str` |
| `text.dfy` | `Text` | `str.strip()`, `int()`, `str()`, `','.join`, `split(',', 1)`, and the lines of a text file |
| `coursefile.dfy` | `CourseFile` | the course file: its writer, its reader, the active slice, and the round trip |
| `generator.dfy` | `Generator` | steps 1 to 6 of the generator: the ID and number loops, the `Enrollments` class, the withdrawals, and the writing of the course files |
| `summary.dfy` | `Summary` | step 7: the per-student course loop, the summary line, and the summary file |
| `matrix.dfy` | `Matrix` | the matrix builder: course numbers from the listing, the IDs from the summary, the header, the rows, and the cells |
| `dataset.dfy` | `Dataset` | the whole generator as one method, and the matrix built from a generated directory |

## Model

| member | source | states |
|---|---|---|
| Collections.Accumulate | dataset_generator.py:22-25 | the kept values are duplicate-free, are exactly the drawn values, and are no more than the draws |
| Generator.DrawUnique | dataset_generator.py:21-25 | the loop keeps each draw not seen before and stops as soon as it holds `target` values; the result is distinct and in range, and reaches `target` iff the draws hold that many distinct values |
| Generator.GenerateStudentIds | dataset_generator.py:21-28 | `num_students` distinct IDs in [10000000, 99999999], a permutation of the accumulated draws |
| Generator.Shuffle | dataset_generator.py:28 | Fisher-Yates with the given swap choices preserves the multiset, and so distinctness |
| Generator.GenerateCourseNumbers | dataset_generator.py:34-39 | `num_courses` distinct numbers in [1000, 9999], strictly ascending after the sort, a permutation of the accumulated draws |
| Generator.SortDistinctInts | dataset_generator.py:39 | sorting distinct integers gives a strictly ascending list |
| Sorting.Sort | dataset_generator.py:39 | `sorted()` returns a permutation of its input |
| Sorting.SortIsSorted | dataset_generator.py:62-64 | under a total order, the result of `sorted()` is in order |
| Sorting.SortPermutationInvariant | dataset_generator.py:99 | two inputs with the same multiset sort to the same list, so the listing order does not matter |
| Sorting.SortedUnique | dataset_generator.py:39 | two sorted lists with the same multiset are equal |
| Generator.CourseNameInjective | dataset_generator.py:42 | distinct course numbers give distinct dictionary keys `f"{program_name}{n}"` |
| Generator.Enrollments.constructor | dataset_generator.py:42 | the dictionary's keys are the course names in insertion order, each mapped to an empty list |
| Generator.Enrollments.Append | dataset_generator.py:50 | `append` extends one list by the student and changes no other list |
| Generator.EnrollStudent | dataset_generator.py:47-50 | one student is appended once to each course whose index is in that student's sample, and nowhere else |
| Generator.AssignCourses | dataset_generator.py:45-50 | after the loop, each course's list is its old list followed by `Roster(ids, samples, j)`; lists of other keys are unchanged |
| Generator.RosterElems | dataset_generator.py:45-50 | a student is on course `j`'s list iff that student's sample contains `j` |
| Generator.RosterMembership | dataset_generator.py:45-50 | with distinct IDs, student `i` is on course `j`'s list iff `j` is in sample `i` |
| Generator.RosterDistinct | dataset_generator.py:45-50 | each course's list holds a student at most once |
| Generator.RosterOrder | dataset_generator.py:45-50 | each course's list keeps the order in which students were processed |
| Generator.StudentCourseCount | dataset_generator.py:31 | student `i` ends up in exactly `num_courses_taken[i]` course lists, the ones its sample names |
| Generator.Truncate | dataset_generator.py:56 | `int()` on a float truncates toward zero |
| Generator.ScaleIsProduct | dataset_generator.py:56 | the product `len * rate` computed by repeated addition equals the real product |
| Generator.WithdrawalCount | dataset_generator.py:55-56 | with a rate in [0, 1], the withdrawal count lies between 0 and the enrollment |
| Generator.Remaining | dataset_generator.py:58 | the comprehension keeps exactly the enrolled students who are not withdrawn |
| Generator.WithdrawalPartition | dataset_generator.py:57-58 | the remaining and withdrawn students are disjoint, and together they are the enrolled students |
| Generator.RemainingDistinct | dataset_generator.py:58 | the filter keeps a distinct list distinct |
| Generator.WithdrawalSizes | dataset_generator.py:57-58 | with distinct enrollment and an `n`-sample, exactly `len - n` students remain, and both parts are distinct |
| Generator.CourseFileFor | dataset_generator.py:55-65 | the file one course gets is its count, its sorted remaining IDs and its sorted withdrawn IDs |
| Generator.WriteCourseFiles | dataset_generator.py:53-65 | every course in dictionary order gets its file; the directory gains exactly those names, and no other file changes |
| CourseFile.CourseFileNameInjective | dataset_generator.py:54 | distinct courses get distinct file names |
| CourseFile.ParseIdLinesOfWritten | dataset_generator.py:63-65 | the ID lines as written parse back, through `int(line.strip())`, to the IDs |
| CourseFile.ParseIdLinesOk | dataset_generator.py:78 | the comprehension succeeds when every line parses |
| CourseFile.ParseIdLinesValues | dataset_generator.py:78 | each parsed value is the `int()` of its line |
| CourseFile.ReadCountAndIds | dataset_generator.py:60-65 | a count line followed by ID lines reads back as that count and those IDs |
| CourseFile.ReadWrittenCourseFile | dataset_generator.py:60-65 | a course file as written reads back as its count and the sorted remaining IDs followed by the sorted withdrawn IDs |
| CourseFile.SliceTo | dataset_generator.py:80 | Python's `[:stop]` with negative and out-of-range stops |
| CourseFile.ActiveSegment | dataset_generator.py:80 | the slice `ids[:len(ids) - n]` is a prefix; with `0 <= n <= len` it is the first `len - n` IDs |
| CourseFile.ReadActive | dataset_generator.py:75-80 | a missing course file is an error naming the file; the read succeeds iff the file exists and its count and ID lines parse, and then yields a prefix of the IDs after the count line (that a written file yields its sorted remaining students is CourseFile.ActiveOfWritten) |
| CourseFile.ActiveOfWritten | dataset_generator.py:60-80 | the round trip: the reader's active slice of a written course file is exactly `sorted(remaining)` |
| CourseFile.NoWithdrawals | dataset_generator.py:61-65 | with no withdrawals, the reader gets every ID and there is no withdrawn block |
| CourseFile.ActiveMembership | dataset_generator.py:60-80 | a student is in the read-back active slice iff the student remained |
| Text.ParseIntToString | dataset_generator.py:76 | `int(str(n))` is `n` |
| Text.StripIdempotent | dataset_generator.py:76 | `strip()` twice is `strip()` once |
| Text.IntToString | dataset_generator.py:61 | the decimal text of an integer is non-empty, stripped, and has no comma and no newline |
| Text.IntToStringInjective | dataset_generator.py:42 | distinct integers have distinct decimal texts |
| Text.LinesOfWritten | dataset_generator.py:75-78 | iterating a file of written lines gives back those lines, each with its newline |
| Text.SplitJoin | dataset_generator.py:114 | splitting `','.join(fields)` on commas gives back the fields when none contains a comma |
| Text.SplitOnceJoin | dataset_generator.py:107 | `split(',', 1)` on `a + ',' + b` with no comma in `a` gives `a` and `b` |
| Text.SplitOnceNoSeparator | dataset_generator.py:107 | a line with no comma has no split into two parts, so the unpacking fails (the `NoComma` error of Matrix.SummaryId) |
| Summary.CoursesTaken | dataset_generator.py:72-81 | the loop over the courses returns the courses, in dictionary order, whose active block holds the student, or the first read error |
| Summary.ActiveCoursesOk | dataset_generator.py:75-78 | the loop succeeds iff every course file can be read |
| Summary.ActiveCoursesMembership | dataset_generator.py:80-81 | a course is taken iff the student is in its active block |
| Summary.ActiveCoursesDistinct | dataset_generator.py:73-81 | with distinct courses, no course is taken twice |
| Summary.ActiveCoursesFrame | dataset_generator.py:69 | writing a file that is not a course file leaves every student's courses unchanged |
| Summary.SummaryLineSplit | dataset_generator.py:82 | the line splits at its first comma into the ID and the joined sorted courses |
| Summary.SummaryCoursesOfLine | dataset_generator.py:82 | the fields after the ID are the taken courses, sorted; a course is among them iff it was taken |
| Summary.SummaryLineNoCourses | dataset_generator.py:82 | a student with no courses gets the line `id,`, whose course field is one empty string |
| Summary.WriteSummary | dataset_generator.py:68-82 | the file is the header plus one line per student, in student order, or the first read error |
| Summary.SummaryLinesOk | dataset_generator.py:71-81 | with at least one student, the summary can be built iff every course file can be read |
| Summary.SummaryLinesAt | dataset_generator.py:82 | line `i` is student `i`'s line, built from that student's active courses |
| Summary.SummaryTextFrame | dataset_generator.py:69 | writing the summary file does not change what the summary reads |
| Summary.GeneratedNamesAvoidSummary | dataset_generator.py:54-68 | no course file name is the summary file's name |
| Summary.ReadActiveWritten | dataset_generator.py:60-80 | a course file step 6 wrote reads back as the sorted remaining students |
| Summary.ActiveCoursesOfWritten | dataset_generator.py:53-81 | against the files step 6 wrote, a course is listed for a student iff the student was enrolled in it and not withdrawn |
| Matrix.NumberTextOf | dataset_generator.py:97-98 | for `program + s + ".txt"`, the file passes the filter and the extracted text is `s` |
| Matrix.GeneratedFileNumber | dataset_generator.py:98-99 | the number extracted from a generated file name parses back to the course number |
| Matrix.ListedCourseFiles | dataset_generator.py:96-97 | the filter keeps exactly the listed names with the program prefix and the `.txt` suffix |
| Matrix.ListedCourseFilesDistinct | dataset_generator.py:96-97 | a listing without repeats yields no repeated course file |
| Matrix.CollectNumberTexts | dataset_generator.py:95-98 | the loop collects the extracted text of each course file, in listing order |
| Matrix.CourseNumbersSorted | dataset_generator.py:99 | the course numbers come out ascending |
| Matrix.CourseNumbersOfGenerated | dataset_generator.py:95-99 | for a directory holding just the generated course files, in any listing order, the recovered numbers are exactly the generated ones |
| Matrix.ReadStudentIds | dataset_generator.py:102-109 | the loop skips the header, parses the text before the first comma of each line, and sorts; or it returns the first error |
| Matrix.StudentIdsSorted | dataset_generator.py:109 | the student IDs come out ascending |
| Matrix.SummaryIdOfLine | dataset_generator.py:107-108 | the ID parsed from a summary line is the student's ID |
| Matrix.SummaryIdsOfLines | dataset_generator.py:106-108 | lines whose IDs parse give the list of those IDs |
| Matrix.StudentIdsOfSummary | dataset_generator.py:102-109 | reading a written summary gives its students, sorted |
| Matrix.MatrixHeaderFields | dataset_generator.py:114 | the header's fields are `StudentID`, then the course names in the given order; with no course the header is `StudentID,`, whose fields are `StudentID` and an empty one |
| Matrix.BuildRowCells | dataset_generator.py:118-125 | the inner loop gives one cell per course, or the first read error |
| Matrix.RowCellsOk | dataset_generator.py:119-124 | the cells can be built iff every course file can be read |
| Matrix.RowCellsAt | dataset_generator.py:122-125 | each cell is `1` or `0`, and it is `1` iff the student is in that course's active slice |
| Matrix.RowLineFields | dataset_generator.py:118-126 | a row has `1 + len(courses)` fields: the ID, then the cells |
| Matrix.CellAgreesWithSummary | dataset_generator.py:80-81 | the matrix cell and the summary agree on whether the student is active in the course |
| Matrix.BuildRows | dataset_generator.py:117-126 | the outer loop gives one row per student in ID order, or the first error |
| Matrix.MatrixRowsAt | dataset_generator.py:117-126 | row `i` is the ID of student `i` followed by that student's cells |
| Matrix.GenerateStudentCourseMatrix | dataset_generator.py:88-127 | a missing directory is an error; otherwise the result is the matrix file (header and rows) or the first error |
| Dataset.GenerateEnrollmentData | dataset_generator.py:4-82 | distinct in-range IDs and strictly ascending course numbers, each a permutation of the distinct values of a prefix of its draws, one file per course holding its split, a summary that reads itself back; reading the course files lists a course for a student iff the student was enrolled and not withdrawn; no unrelated file changes |
| Dataset.WriteEnrollment | dataset_generator.py:42-65 | steps 4 to 6 leave each course's file holding its roster split by its withdrawal sample |
| Dataset.WriteGeneratedSummary | dataset_generator.py:67-82 | step 7 on generated files succeeds, keeps the course files, and the summary matches the enrollment |
| Dataset.WithdrawnSamplesFit | dataset_generator.py:55-57 | each withdrawal sample has the size the rate gives and is drawn from its course's roster |
| Dataset.CourseNamesDistinct | dataset_generator.py:42 | the dictionary has one key per course number |
| Dataset.StudentOfGenerated | dataset_generator.py:71-81 | one student's courses, read from generated files, are exactly the ones enrolled in and not withdrawn from |
| Dataset.GeneratedAgree | dataset_generator.py:53-82 | every student's courses are read correctly, and the summary can be built |
| Dataset.SummaryWriteKeeps | dataset_generator.py:69-82 | writing the summary keeps the course files and what they read back as |
| Dataset.GeneratedCourseRead | dataset_generator.py:60-65 | a generated course file's active slice is the sorted remaining students |
| Dataset.GeneratedRowCells | dataset_generator.py:117-125 | over a generated directory, every cell is read, and it is `1` iff the student was enrolled and not withdrawn |
| Dataset.NumbersOfGenerated | dataset_generator.py:95-99 | column discovery over a generated directory gives the generated course numbers |
| Dataset.IdsOfGenerated | dataset_generator.py:102-109 | row discovery over a generated summary gives the students, sorted |
| Dataset.RowsOfGenerated | dataset_generator.py:117-126 | every row over a generated directory is built |
| Dataset.MatrixOfGenerated | dataset_generator.py:88-126 | on a generated directory, the matrix builder succeeds with the generated columns and the sorted students, and writes the header and those rows |
| Dataset.MatrixAfterGeneration | dataset_generator.py:4-126 | from the generator's promises about a directory with no earlier course file of the program: the matrix builder succeeds in any listing order, writes the header and the rows over the sorted students, and each cell is `1` iff the student was enrolled in the course and not withdrawn |

## Left out

- Randomness: `random.randint`, `random.shuffle`, `random.sample` and `random.uniform` (lines 23, 28, 31, 36, 47, 55, 57) are inputs. A draw sequence replaces `randint`. Fisher-Yates swap choices replace `shuffle`. Given index samples and a sampler function replace `sample`. A list of rates replaces `uniform`. The distribution of the draws is not modelled.
- Dataset.GenerateEnrollmentData: the `ValueError` that `random.sample` raises when a student is given more courses than exist is excluded by a precondition (each sample is `IsIndexSample`); the same holds for `courses_per_student_range`, which only enters through the given `num_courses_taken`.
- Generator.DrawUnique: models a finite draw budget. When the draws hold too few distinct values, the source loops forever, while the model stops with fewer values than requested. The callers require enough distinct draws.
- Dataset.GenerateEnrollmentData and Dataset.WriteEnrollment: require every withdrawal rate to lie in [0, 1]. The source runs with any rate whose truncated count fits the course (1.05 on 10 students gives 10, -0.05 gives 0), and raises `ValueError` at line 57 when the count is negative or exceeds the enrollment. Those rates and that error are not modelled here. The docstring calls the range a percentage, and both the default `(0, 0.20)` and the example call's `(0.05, 0.15)` lie in [0, 1].
- Generator.WriteCourseFiles and Generator.CourseFileFor: take each withdrawal sample as an input of the size the rate gives, so they accept every rate Python runs without error; the `ValueError` at line 57, where no such sample exists, is excluded by that precondition.
- Generator.WithdrawalCount: the rate is a Dafny `real`, so `len * rate` is exact. Python's float rounding of the product, which can move the truncated count by one, is not modelled.
- `os.path.exists` / `os.makedirs` (lines 17-18, 91-93): the directory is a map that always exists for the generator. For the matrix builder, a flag says whether the directory exists, and a missing one gives `DirectoryNotFound`.
- `os.path.join` and the directory path: files are named by their base name only.
- `print` (lines 84, 92, 127) writes console output only; it is not modelled. The module-level example call (line 132) is not modelled either.
- Failure part way through a write: the model returns the first error and no files. The source would leave the files written so far on disk.
- `int()`: the model accepts an optional sign, ASCII digits and surrounding whitespace. Python's underscores between digits and its non-ASCII digits are not modelled. Text files are read with `\n` line endings only, without universal-newline translation.
- Summary.WriteSummary: requires that the summary's name is not one of the course files' names. Summary.GeneratedNamesAvoidSummary proves this for every generated name.
- Matrix.GenerateStudentCourseMatrix: `num_courses` is unused by the source function and is not a parameter. The directory listing is an input sequence, because `os.listdir` order is unspecified.
- Matrix.CourseNumbersOfGenerated and Dataset.MatrixOfGenerated: independence from listing order, and recovery of the generated numbers, hold for a directory whose only course files of the program are the generated ones. A stale `INFO1234.txt` from an earlier run would also become a column. A program name that is a prefix of `student_courses_summary` would make the summary file look like a course file, and its `int()` would fail. The requires exclude these (Dataset.NoOtherCourseFiles).
- Matrix.StudentIdsOfSummary: requires that no course name contains a newline; otherwise a summary line would split into two lines.
- A student with no courses: the source writes `id,` (a trailing comma followed by an empty course field). The model follows the code here (Summary.SummaryLineNoCourses), not a description of that line as lacking the trailing comma.
- Column discovery: the source accepts any name with the program prefix and the `.txt` suffix and then calls `int()` on the middle, rather than matching digits only. The model follows the code, so a non-numeric middle is an `InvalidInt` error.
- Timsort is not modelled. `sorted()` and `list.sort()` are specified by their result: the sorted permutation, which is unique under a total order.
