/** The per-course file: the withdrawal count on the first line, then the
    active student IDs in ascending order, then the withdrawn ones in
    ascending order, one per line. Readers find the active block by position
    alone, as `ids[:len(ids) - n]`. */
module CourseFile {
  import opened Results
  import opened Text
  import opened Sorting

  /** What a reader takes from a course file: the count on its first line
      and every ID after it, in file order. */
  datatype CourseRecord = CourseRecord(withdrawals: int, ids: seq<int>)

  /** `f"{course_name}.txt"`. */
  function CourseFileName(course: string): string
  {
    course + ".txt"
  }

  lemma CourseFileNameInjective(a: string, b: string)
    requires CourseFileName(a) == CourseFileName(b)
    ensures a == b
  {
    assert a == CourseFileName(a)[..|a|];
    assert b == CourseFileName(b)[..|b|];
  }

  /** One `str(id)` line per ID. */
  function IdLines(ids: seq<int>): (r: seq<string>)
    ensures |r| == |ids|
    ensures forall i :: 0 <= i < |ids| ==> r[i] == IntToString(ids[i])
  {
    seq(|ids|, i requires 0 <= i < |ids| => IntToString(ids[i]))
  }

  /** The lines the generator writes for one course. */
  function CourseFileLines(withdrawals: nat, remaining: seq<int>, withdrawn: seq<int>): seq<string>
  {
    [IntToString(withdrawals)] + IdLines(Sort(remaining, IntLe)) + IdLines(Sort(withdrawn, IntLe))
  }

  /** The text of one course file. */
  function CourseFileText(withdrawals: nat, remaining: seq<int>, withdrawn: seq<int>): string
  {
    WriteLines(CourseFileLines(withdrawals, remaining, withdrawn))
  }

  /** `int(line.strip())` on one line: ValueError when it is not an integer. */
  function ParseIdLine(line: string): Result<int>
  {
    match ParseInt(Strip(line))
    case None => Err(InvalidInt(line))
    case Some(x) => Ok(x)
  }

  /** `[int(line.strip()) for line in file]`: the first line that is not an
      integer raises ValueError. */
  function ParseIdLines(lines: seq<string>): (r: Result<seq<int>>)
    ensures r.Ok? ==> |r.value| == |lines|
  {
    Collect(seq(|lines|, i requires 0 <= i < |lines| => ParseIdLine(lines[i])))
  }

  /** The comprehension succeeds when every line is an integer. */
  lemma ParseIdLinesOk(lines: seq<string>)
    requires forall i :: 0 <= i < |lines| ==> ParseInt(Strip(lines[i])).Some?
    ensures ParseIdLines(lines).Ok?
  {
    var rs := seq(|lines|, i requires 0 <= i < |lines| => ParseIdLine(lines[i]));
    CollectOk(rs);
  }

  /** A successful comprehension holds each line's value in its place. */
  lemma ParseIdLinesValues(lines: seq<string>)
    requires ParseIdLines(lines).Ok?
    ensures forall i :: 0 <= i < |lines| ==> ParseInt(Strip(lines[i])) == Some(ParseIdLines(lines).value[i])
  {
    var rs := seq(|lines|, i requires 0 <= i < |lines| => ParseIdLine(lines[i]));
    forall i | 0 <= i < |lines| ensures ParseInt(Strip(lines[i])) == Some(ParseIdLines(lines).value[i]) {
      CollectAt(rs, i);
    }
  }

  /** `int(f.readline().strip())`, then the remaining lines as IDs. An empty
      file reads its first line as "", which is not an integer. */
  function ReadCourseFile(text: string): Result<CourseRecord>
  {
    var lines := Lines(text);
    var first := if lines == [] then "" else lines[0];
    match ParseInt(Strip(first))
    case None => Err(InvalidInt(first))
    case Some(n) =>
      match ParseIdLines(if lines == [] then [] else lines[1..])
      case Err(e) => Err(e)
      case Ok(ids) => Ok(CourseRecord(n, ids))
  }

  /** Python's `s[:stop]`: a negative stop counts from the end. */
  function SliceTo<T>(s: seq<T>, stop: int): (r: seq<T>)
    ensures |r| <= |s| && r == s[..|r|]
    ensures 0 <= stop <= |s| ==> |r| == stop
    ensures stop >= |s| ==> r == s
    ensures -|s| <= stop < 0 ==> |r| == |s| + stop
    ensures stop < -|s| ==> r == []
  {
    if stop >= |s| then s
    else if stop >= 0 then s[..stop]
    else if |s| + stop >= 0 then s[..|s| + stop]
    else []
  }

  /** `ids[:len(ids) - n]`: the IDs of the students still enrolled. */
  function ActiveSegment(rec: CourseRecord): (active: seq<int>)
    ensures |active| <= |rec.ids| && active == rec.ids[..|active|]
    ensures 0 <= rec.withdrawals <= |rec.ids| ==> |active| == |rec.ids| - rec.withdrawals
    ensures rec.withdrawals <= 0 ==> active == rec.ids
  {
    SliceTo(rec.ids, |rec.ids| - rec.withdrawals)
  }

  /** Open `course.txt` among the directory's files and take its active block. */
  function ReadActive(files: map<string, string>, course: string): (r: Result<seq<int>>)
    ensures CourseFileName(course) !in files ==> r == Err(FileNotFound(CourseFileName(course)))
    ensures r.Ok? <==> CourseFileName(course) in files && ReadCourseFile(files[CourseFileName(course)]).Ok?
    ensures r.Ok? ==>
      var ids := ReadCourseFile(files[CourseFileName(course)]).value.ids;
      |r.value| <= |ids| && r.value == ids[..|r.value|]
  {
    var name := CourseFileName(course);
    if name !in files then Err(FileNotFound(name))
    else
      match ReadCourseFile(files[name])
      case Err(e) => Err(e)
      case Ok(rec) => Ok(ActiveSegment(rec))
  }

  /** One written line, newline included, reads back as its integer. */
  lemma ParseWrittenLine(i: int)
    ensures ParseInt(Strip(IntToString(i) + "\n")) == Some(i)
  {
    StripNewline(IntToString(i));
    ParseIntToString(i);
  }

  /** Written ID lines read back as the same IDs. */
  lemma ParseIdLinesOfWritten(ids: seq<int>)
    ensures ParseIdLines(Terminated(IdLines(ids))) == Ok(ids)
  {
    var lines := Terminated(IdLines(ids));
    var rs := seq(|lines|, i requires 0 <= i < |lines| => ParseIdLine(lines[i]));
    forall i | 0 <= i < |rs| ensures rs[i] == Ok(ids[i]) {
      assert lines[i] == IntToString(ids[i]) + "\n";
      ParseWrittenLine(ids[i]);
    }
    CollectAll(rs, ids);
  }

  /** A text whose first line is a count and whose other lines are IDs
      reads as that record. */
  lemma ReadCourseFileOf(text: string, n: int, ids: seq<int>)
    requires Lines(text) != [] && ParseInt(Strip(Lines(text)[0])) == Some(n)
    requires ParseIdLines(Lines(text)[1..]) == Ok(ids)
    ensures ReadCourseFile(text) == Ok(CourseRecord(n, ids))
  {
  }

  /** The written count line and ID lines are read back one by one, each
      with its newline. */
  lemma LinesOfCountAndIds(withdrawals: int, ids: seq<int>)
    ensures Lines(WriteLines([IntToString(withdrawals)] + IdLines(ids))) != []
    ensures Lines(WriteLines([IntToString(withdrawals)] + IdLines(ids)))[0] == IntToString(withdrawals) + "\n"
    ensures Lines(WriteLines([IntToString(withdrawals)] + IdLines(ids)))[1..] == Terminated(IdLines(ids))
  {
    var lines := [IntToString(withdrawals)] + IdLines(ids);
    forall i | 0 <= i < |lines| ensures '\n' !in lines[i] {
      if i > 0 {
        assert lines[i] == IdLines(ids)[i - 1];
      }
    }
    LinesOfWritten(lines);
    assert Terminated(lines)[1..] == Terminated(IdLines(ids));
  }

  /** The count line followed by ID lines reads back as that record. */
  lemma ReadCountAndIds(withdrawals: int, ids: seq<int>)
    ensures ReadCourseFile(WriteLines([IntToString(withdrawals)] + IdLines(ids)))
         == Ok(CourseRecord(withdrawals, ids))
  {
    LinesOfCountAndIds(withdrawals, ids);
    ParseWrittenLine(withdrawals);
    ParseIdLinesOfWritten(ids);
    ReadCourseFileOf(WriteLines([IntToString(withdrawals)] + IdLines(ids)), withdrawals, ids);
  }

  /** The round trip: reading a course file the generator wrote gives back
      its count and the two ID blocks, in file order. */
  lemma ReadWrittenCourseFile(withdrawals: nat, remaining: seq<int>, withdrawn: seq<int>)
    ensures ReadCourseFile(CourseFileText(withdrawals, remaining, withdrawn))
         == Ok(CourseRecord(withdrawals, Sort(remaining, IntLe) + Sort(withdrawn, IntLe)))
  {
    CourseFileLinesFlat(withdrawals, remaining, withdrawn);
    ReadCountAndIds(withdrawals, Sort(remaining, IntLe) + Sort(withdrawn, IntLe));
  }

  /** The two ID blocks of a course file are the ID lines of their concatenation. */
  lemma CourseFileLinesFlat(withdrawals: nat, remaining: seq<int>, withdrawn: seq<int>)
    ensures CourseFileLines(withdrawals, remaining, withdrawn)
         == [IntToString(withdrawals)] + IdLines(Sort(remaining, IntLe) + Sort(withdrawn, IntLe))
  {
    IdLinesAppend(Sort(remaining, IntLe), Sort(withdrawn, IntLe));
  }

  lemma IdLinesAppend(a: seq<int>, b: seq<int>)
    ensures IdLines(a) + IdLines(b) == IdLines(a + b)
  {
    forall i | 0 <= i < |a| + |b| ensures (IdLines(a) + IdLines(b))[i] == IdLines(a + b)[i] {
      if i < |a| {
        assert (a + b)[i] == a[i];
      } else {
        assert (a + b)[i] == b[i - |a|];
      }
    }
  }

  /** The active block of a record whose count is the length of its
      trailing block is the leading block. */
  lemma ActiveOfRecord(active: seq<int>, withdrawn: seq<int>)
    ensures ActiveSegment(CourseRecord(|withdrawn|, active + withdrawn)) == active
  {
    assert (active + withdrawn)[..|active|] == active;
  }

  /** Reading the active block of a written file gives exactly the sorted
      active students, provided the first line counts the withdrawn block. */
  lemma ActiveOfWritten(remaining: seq<int>, withdrawn: seq<int>)
    ensures ReadCourseFile(CourseFileText(|withdrawn|, remaining, withdrawn)).Ok?
    ensures ActiveSegment(ReadCourseFile(CourseFileText(|withdrawn|, remaining, withdrawn)).value)
         == Sort(remaining, IntLe)
  {
    ReadWrittenCourseFile(|withdrawn|, remaining, withdrawn);
    ActiveOfRecord(Sort(remaining, IntLe), Sort(withdrawn, IntLe));
  }

  /** With no withdrawals the count line reads 0, no withdrawn block
      follows, and every ID in the file is active. */
  lemma NoWithdrawals(remaining: seq<int>)
    ensures ReadCourseFile(CourseFileText(0, remaining, []))
         == Ok(CourseRecord(0, Sort(remaining, IntLe)))
    ensures ActiveSegment(CourseRecord(0, Sort(remaining, IntLe))) == Sort(remaining, IntLe)
  {
    var r := Sort(remaining, IntLe);
    assert Sort([], IntLe) == [] && r + [] == r;
    ReadWrittenCourseFile(0, remaining, []);
  }

  /** A student is in the active block read back from the file exactly when
      the student was among the active ones written. */
  lemma ActiveMembership(remaining: seq<int>, withdrawn: seq<int>, sid: int)
    ensures ReadCourseFile(CourseFileText(|withdrawn|, remaining, withdrawn)).Ok?
    ensures sid in ActiveSegment(ReadCourseFile(CourseFileText(|withdrawn|, remaining, withdrawn)).value)
        <==> sid in remaining
  {
    ActiveOfWritten(remaining, withdrawn);
    SortMembership(remaining, sid);
  }

  lemma SortMembership(s: seq<int>, x: int)
    ensures x in Sort(s, IntLe) <==> x in s
  {
    var r := Sort(s, IntLe);
    assert multiset(r) == multiset(s);
    assert x in r <==> x in multiset(r);
    assert x in s <==> x in multiset(s);
  }
}
