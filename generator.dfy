/** `generate_enrollment_data_v4`: unique student IDs and course numbers,
    random course assignment, withdrawals, one file per course, and the
    student summary. Every random choice is an input. */
module Generator {
  import opened Results
  import opened Collections
  import opened Sorting
  import opened Text
  import opened CourseFile

  const MinStudentId := 10000000
  const MaxStudentId := 99999999
  const MinCourseNumber := 1000
  const MaxCourseNumber := 9999

  // ---------------------------------------------------------------------------
  // Unique IDs by rejection

  /** `while len(ids) < target: x = randint(lo, hi); if x not in ids: ids.append(x)`,
      where `draws` are the successive `randint` results. The loop also stops
      when the draws are used up; `used` is how many were consumed. */
  method DrawUnique(draws: seq<int>, target: nat, lo: int, hi: int) returns (ids: seq<int>, used: nat)
    requires forall k :: 0 <= k < |draws| ==> lo <= draws[k] <= hi
    ensures used <= |draws| && ids == Accumulate(draws[..used])
    ensures forall k :: 0 <= k < used ==> |Accumulate(draws[..k])| < target
    ensures |ids| <= target
    ensures Distinct(ids)
    ensures forall x :: x in ids ==> lo <= x <= hi
    ensures |ids| == target <==> |Elems(draws)| >= target
  {
    ids, used := [], 0;
    while |ids| < target && used < |draws|
      invariant used <= |draws| && ids == Accumulate(draws[..used])
      invariant forall k :: 0 <= k < used ==> |Accumulate(draws[..k])| < target
      invariant |ids| <= target
    {
      var d := draws[used];
      assert draws[..used + 1][..used] == draws[..used];
      if d !in ids {
        ids := ids + [d];
      }
      used := used + 1;
    }
    assert Elems(ids) <= Elems(draws) by {
      forall x | x in Elems(ids) ensures x in Elems(draws) {
        assert x in Elems(draws[..used]);
        var k :| 0 <= k < used && draws[..used][k] == x;
        assert draws[k] == x;
      }
    }
    forall x | x in ids ensures lo <= x <= hi {
      assert x in Elems(ids);
      var k :| 0 <= k < |draws| && draws[k] == x;
    }
    AccumulateCard(draws[..used]);
    if used == |draws| {
      assert draws[..used] == draws;
    }
    SubsetCard(Elems(ids), Elems(draws));
  }

  lemma SubsetCard<T>(a: set<T>, b: set<T>)
    requires a <= b
    ensures |a| <= |b|
  {
    assert b == a + (b - a);
  }

  /** Steps 1 and 2: student IDs, then `random.shuffle(student_ids)` with
      the shuffle's draws `choices`. */
  method GenerateStudentIds(draws: seq<int>, choices: seq<nat>, numStudents: nat)
    returns (ids: seq<int>, used: nat)
    requires forall k :: 0 <= k < |draws| ==> MinStudentId <= draws[k] <= MaxStudentId
    requires |choices| == if numStudents == 0 then 0 else numStudents - 1
    requires forall k :: 0 <= k < |choices| ==> choices[k] <= numStudents - 1 - k
    requires |Elems(draws)| >= numStudents
    ensures |ids| == numStudents && Distinct(ids)
    ensures forall x :: x in ids ==> MinStudentId <= x <= MaxStudentId
    ensures used <= |draws| && multiset(ids) == multiset(Accumulate(draws[..used]))
  {
    var drawn;
    drawn, used := DrawUnique(draws, numStudents, MinStudentId, MaxStudentId);
    ids := Shuffle(drawn, choices);
    forall x | x in ids ensures MinStudentId <= x <= MaxStudentId {
      assert x in multiset(ids);
      assert x in multiset(drawn);
      assert x in drawn;
    }
  }

  /** `random.shuffle(s)`: for i from len(s) - 1 down to 1, swap s[i] with
      s[j] where j = choices[len(s) - 1 - i] is drawn from [0, i]. */
  method Shuffle(s: seq<int>, choices: seq<nat>) returns (r: seq<int>)
    requires |choices| == if |s| == 0 then 0 else |s| - 1
    requires forall k :: 0 <= k < |choices| ==> choices[k] <= |s| - 1 - k
    ensures multiset(r) == multiset(s)
    ensures Distinct(s) ==> Distinct(r)
  {
    r := s;
    var k := 0;
    while k < |choices|
      invariant 0 <= k <= |choices|
      invariant |r| == |s| && multiset(r) == multiset(s)
    {
      var i := |s| - 1 - k;
      var j := choices[k];
      r := r[i := r[j]][j := r[i]];
      k := k + 1;
    }
    if Distinct(s) {
      PermutationDistinct(r, s);
    }
  }

  /** Step 3: course numbers, then `course_numbers.sort()`. */
  method GenerateCourseNumbers(draws: seq<int>, numCourses: nat) returns (numbers: seq<int>, used: nat)
    requires forall k :: 0 <= k < |draws| ==> MinCourseNumber <= draws[k] <= MaxCourseNumber
    requires |Elems(draws)| >= numCourses
    ensures |numbers| == numCourses && Distinct(numbers)
    ensures forall i, j :: 0 <= i < j < |numbers| ==> numbers[i] < numbers[j]
    ensures forall x :: x in numbers ==> MinCourseNumber <= x <= MaxCourseNumber
    ensures used <= |draws| && multiset(numbers) == multiset(Accumulate(draws[..used]))
  {
    var drawn;
    drawn, used := DrawUnique(draws, numCourses, MinCourseNumber, MaxCourseNumber);
    numbers := Sort(drawn, IntLe);
    SortDistinctInts(drawn);
    forall x | x in numbers ensures MinCourseNumber <= x <= MaxCourseNumber {
      assert x in multiset(numbers);
      assert x in multiset(drawn);
      assert x in drawn;
    }
  }

  /** Sorting distinct integers puts them in strictly ascending order. */
  lemma SortDistinctInts(s: seq<int>)
    requires Distinct(s)
    ensures Distinct(Sort(s, IntLe))
    ensures forall i, j :: 0 <= i < j < |s| ==> Sort(s, IntLe)[i] < Sort(s, IntLe)[j]
  {
    var r := Sort(s, IntLe);
    IntLeTotal();
    SortIsSorted(s, IntLe);
    PermutationDistinct(r, s);
    forall i, j | 0 <= i < j < |s| ensures r[i] < r[j] {
      assert IntLe(r[i], r[j]);
    }
  }

  /** `f"{program_name}{course_num}"`. */
  function CourseName(program: string, number: int): string
  {
    program + IntToString(number)
  }

  lemma CourseNameInjective(program: string, a: int, b: int)
    requires CourseName(program, a) == CourseName(program, b)
    ensures a == b
  {
    assert IntToString(a) == CourseName(program, a)[|program|..];
    assert IntToString(b) == CourseName(program, b)[|program|..];
    IntToStringInjective(a, b);
  }

  // ---------------------------------------------------------------------------
  // Course enrollments

  /** `random.sample(range(n), k)`: k distinct course indices below n. */
  predicate IsIndexSample(sample: seq<nat>, n: nat, k: nat)
  {
    |sample| == k && Distinct(sample) && forall x :: x in sample ==> x < n
  }

  /** The students, in processing order, whose sample contains course index
      `j`: what `course_enrollments[name of course j]` holds after step 5. */
  function Roster(ids: seq<int>, samples: seq<seq<nat>>, j: nat): (r: seq<int>)
    requires |samples| == |ids|
    ensures |r| <= |ids|
  {
    if ids == [] then []
    else
      var n := |ids| - 1;
      Roster(ids[..n], samples[..n], j) + (if j in samples[n] then [ids[n]] else [])
  }

  /** A roster holds exactly the students whose sample names the course. */
  lemma {:induction false} RosterElems(ids: seq<int>, samples: seq<seq<nat>>, j: nat, x: int)
    requires |samples| == |ids|
    ensures x in Roster(ids, samples, j)
        <==> exists i :: 0 <= i < |ids| && ids[i] == x && j in samples[i]
  {
    if ids != [] {
      var n := |ids| - 1;
      RosterElems(ids[..n], samples[..n], j, x);
      if x in Roster(ids[..n], samples[..n], j) {
        var i :| 0 <= i < n && ids[..n][i] == x && j in samples[..n][i];
        assert ids[i] == x && j in samples[i];
      }
      if exists i :: 0 <= i < |ids| && ids[i] == x && j in samples[i] {
        var i :| 0 <= i < |ids| && ids[i] == x && j in samples[i];
        if i < n {
          assert ids[..n][i] == x && j in samples[..n][i];
        }
      }
    }
  }

  /** With distinct IDs, student `i` is on course `j`'s list exactly when
      course index `j` is in that student's sample. */
  lemma RosterMembership(ids: seq<int>, samples: seq<seq<nat>>, i: nat, j: nat)
    requires |samples| == |ids| && Distinct(ids) && i < |ids|
    ensures ids[i] in Roster(ids, samples, j) <==> j in samples[i]
  {
    RosterElems(ids, samples, j, ids[i]);
  }

  /** With distinct IDs no student is on one course's list twice. */
  lemma {:induction false} RosterDistinct(ids: seq<int>, samples: seq<seq<nat>>, j: nat)
    requires |samples| == |ids| && Distinct(ids)
    ensures Distinct(Roster(ids, samples, j))
  {
    if ids != [] {
      var n := |ids| - 1;
      var prefix := ids[..n];
      assert Distinct(prefix) by {
        forall p, q | 0 <= p < q < n ensures prefix[p] != prefix[q] {
          assert prefix[p] == ids[p] && prefix[q] == ids[q];
        }
      }
      RosterDistinct(prefix, samples[..n], j);
      var before := Roster(prefix, samples[..n], j);
      forall p | 0 <= p < |before| ensures before[p] != ids[n] {
        RosterElems(prefix, samples[..n], j, before[p]);
        assert before[p] in before;
        var i :| 0 <= i < n && prefix[i] == before[p] && j in samples[..n][i];
        assert ids[i] == before[p];
      }
    }
  }

  /** Of any two entries of `r`, the earlier one comes earlier in `ids`. */
  ghost predicate KeepsOrder(r: seq<int>, ids: seq<int>)
  {
    forall p, q :: 0 <= p < q < |r| ==>
      exists a, b :: 0 <= a < b < |ids| && ids[a] == r[p] && ids[b] == r[q]
  }

  lemma KeepsOrderAt(r: seq<int>, ids: seq<int>, p: nat, q: nat)
    requires KeepsOrder(r, ids) && p < q < |r|
    ensures exists a, b :: 0 <= a < b < |ids| && ids[a] == r[p] && ids[b] == r[q]
  {
    var x, y := r[p], r[q];
    assert x in r && y in r;
  }

  /** A course list keeps the students in processing order. */
  lemma {:induction false} RosterOrder(ids: seq<int>, samples: seq<seq<nat>>, j: nat)
    requires |samples| == |ids|
    ensures KeepsOrder(Roster(ids, samples, j), ids)
  {
    if ids != [] {
      var n := |ids| - 1;
      var prefix := ids[..n];
      RosterOrder(prefix, samples[..n], j);
      var before := Roster(prefix, samples[..n], j);
      var r := Roster(ids, samples, j);
      assert r == before + (if j in samples[n] then [ids[n]] else []);
      forall p, q | 0 <= p < q < |r|
        ensures exists a, b :: 0 <= a < b < |ids| && ids[a] == r[p] && ids[b] == r[q]
      {
        assert r[p] == before[p];
        if q < |before| {
          assert r[q] == before[q];
          KeepsOrderAt(before, prefix, p, q);
          var a, b :| 0 <= a < b < n && prefix[a] == before[p] && prefix[b] == before[q];
          assert ids[a] == r[p] && ids[b] == r[q];
        } else {
          assert r[q] == ids[n];
          RosterElems(prefix, samples[..n], j, before[p]);
          assert before[p] in before;
          var a :| 0 <= a < n && prefix[a] == before[p] && j in samples[..n][a];
          assert ids[a] == r[p];
        }
      }
      assert KeepsOrder(r, ids);
    }
  }

  /** Student `i` ends up on exactly as many course lists as the number of
      courses it drew, namely those at the indices of its sample. */
  lemma StudentCourseCount(ids: seq<int>, coursesTaken: seq<nat>, samples: seq<seq<nat>>,
                           numCourses: nat, i: nat)
    requires |samples| == |ids| && |coursesTaken| == |ids| && Distinct(ids) && i < |ids|
    requires IsIndexSample(samples[i], numCourses, coursesTaken[i])
    ensures (set j | 0 <= j < numCourses && ids[i] in Roster(ids, samples, j)) == Elems(samples[i])
    ensures |set j | 0 <= j < numCourses && ids[i] in Roster(ids, samples, j)| == coursesTaken[i]
  {
    forall j: nat ensures ids[i] in Roster(ids, samples, j) <==> j in samples[i] {
      RosterMembership(ids, samples, i, j);
    }
    DistinctCard(samples[i]);
  }

  /** The course-name-to-list dictionary of step 4, filled in place by step 5. */
  class Enrollments {
    /** The keys in insertion order, which is the order `items()` visits them. */
    var courses: seq<string>
    /** The list each key maps to. */
    var rosters: map<string, seq<int>>

    ghost predicate Valid()
      reads this
    {
      Distinct(courses) && rosters.Keys == Elems(courses)
    }

    /** `{name: [] for name in names}`: a repeated name keeps its first place. */
    constructor (names: seq<string>)
      ensures Valid()
      ensures courses == Accumulate(names)
      ensures rosters == map n | n in names :: []
    {
      courses := Accumulate(names);
      rosters := map n | n in names :: [];
    }

    /** `course_enrollments[name].append(sid)`. */
    method Append(name: string, sid: int)
      requires Valid() && name in rosters
      modifies this
      ensures Valid() && courses == old(courses)
      ensures rosters == old(rosters)[name := old(rosters)[name] + [sid]]
    {
      rosters := rosters[name := rosters[name] + [sid]];
    }
  }

  /** The names of the courses, in course-number order. */
  function CourseNames(program: string, numbers: seq<int>): (r: seq<string>)
    ensures |r| == |numbers|
    ensures forall j :: 0 <= j < |numbers| ==> r[j] == CourseName(program, numbers[j])
  {
    seq(|numbers|, j requires 0 <= j < |numbers| => CourseName(program, numbers[j]))
  }

  /** Extending the students by one extends each roster by at most that student. */
  lemma RosterStep(ids: seq<int>, samples: seq<seq<nat>>, i: nat, j: nat)
    requires |samples| == |ids| && i < |ids|
    ensures Roster(ids[..i + 1], samples[..i + 1], j)
         == Roster(ids[..i], samples[..i], j) + (if j in samples[i] then [ids[i]] else [])
  {
    assert ids[..i + 1][..i] == ids[..i];
    assert samples[..i + 1][..i] == samples[..i];
  }

  /** The inner loop of step 5 for one student: appended to the course at
      each index of the sample, once each, and nowhere else. */
  method EnrollStudent(e: Enrollments, names: seq<string>, sid: int, sample: seq<nat>)
    requires e.Valid() && Distinct(names) && Distinct(sample)
    requires forall j :: 0 <= j < |names| ==> names[j] in e.rosters
    requires forall x :: x in sample ==> x < |names|
    modifies e
    ensures e.Valid() && e.courses == old(e.courses) && e.rosters.Keys == old(e.rosters).Keys
    ensures forall j :: 0 <= j < |names| ==>
      e.rosters[names[j]] == old(e.rosters)[names[j]] + (if j in sample then [sid] else [])
    ensures forall c :: c in old(e.rosters) && c !in names ==> e.rosters[c] == old(e.rosters)[c]
  {
    var t := 0;
    while t < |sample|
      invariant 0 <= t <= |sample|
      invariant e.Valid() && e.courses == old(e.courses) && e.rosters.Keys == old(e.rosters).Keys
      invariant forall j :: 0 <= j < |names| ==>
        e.rosters[names[j]] == old(e.rosters)[names[j]] + (if j in sample[..t] then [sid] else [])
      invariant forall c :: c in old(e.rosters) && c !in names ==> e.rosters[c] == old(e.rosters)[c]
    {
      var index := sample[t];
      assert index in sample;
      assert index !in sample[..t];
      assert sample[..t + 1] == sample[..t] + [index];
      e.Append(names[index], sid);
      t := t + 1;
    }
    assert sample[..t] == sample;
  }

  /** Step 5: each student, in turn, is appended to the course at every
      index of that student's sample. */
  method AssignCourses(e: Enrollments, program: string, numbers: seq<int>,
                       ids: seq<int>, coursesTaken: seq<nat>, samples: seq<seq<nat>>)
    requires e.Valid() && Distinct(numbers)
    requires forall j :: 0 <= j < |numbers| ==> CourseName(program, numbers[j]) in e.rosters
    requires |coursesTaken| == |ids| && |samples| == |ids|
    requires forall i :: 0 <= i < |ids| ==> IsIndexSample(samples[i], |numbers|, coursesTaken[i])
    modifies e
    ensures e.Valid() && e.courses == old(e.courses) && e.rosters.Keys == old(e.rosters).Keys
    ensures forall j :: 0 <= j < |numbers| ==>
      e.rosters[CourseName(program, numbers[j])]
        == old(e.rosters)[CourseName(program, numbers[j])] + Roster(ids, samples, j)
    ensures forall c :: c in old(e.rosters) && c !in CourseNames(program, numbers) ==>
      e.rosters[c] == old(e.rosters)[c]
  {
    ghost var start := e.rosters;
    var names := CourseNames(program, numbers);
    assert Distinct(names) by {
      forall j, k | 0 <= j < k < |numbers| ensures names[j] != names[k] {
        if names[j] == names[k] {
          CourseNameInjective(program, numbers[j], numbers[k]);
        }
      }
    }
    var i := 0;
    while i < |ids|
      invariant 0 <= i <= |ids|
      invariant e.Valid() && e.courses == old(e.courses) && e.rosters.Keys == start.Keys
      invariant forall j :: 0 <= j < |numbers| ==>
        e.rosters[names[j]] == start[names[j]] + Roster(ids[..i], samples[..i], j)
      invariant forall c :: c in start && c !in names ==> e.rosters[c] == start[c]
    {
      EnrollStudent(e, names, ids[i], samples[i]);
      forall j | 0 <= j < |numbers| {
        RosterStep(ids, samples, i, j);
      }
      i := i + 1;
    }
    assert ids[..i] == ids && samples[..i] == samples;
  }

  // ---------------------------------------------------------------------------
  // Withdrawals and course files

  /** Python's `int(x)` on a float: truncation toward zero. */
  function Truncate(x: real): (n: int)
    ensures x >= 0.0 ==> n as real <= x < n as real + 1.0
    ensures x < 0.0 ==> n as real - 1.0 < x <= n as real
  {
    if x >= 0.0 then x.Floor else -((-x).Floor)
  }

  /** `n * rate`, accumulated one student at a time so that the solver
      only meets linear arithmetic. */
  function Scale(n: nat, rate: real): (x: real)
    ensures 0.0 <= rate <= 1.0 ==> 0.0 <= x <= n as real
  {
    if n == 0 then 0.0 else Scale(n - 1, rate) + rate
  }

  /** The accumulated sum is the product. */
  lemma {:induction false} ScaleIsProduct(n: nat, rate: real)
    ensures Scale(n, rate) == n as real * rate
  {
    if n > 0 {
      ScaleIsProduct(n - 1, rate);
      assert (n - 1) as real * rate + rate == n as real * rate;
    }
  }

  /** Truncating a value in [0, b] gives a whole number in [0, b]. */
  lemma TruncateBounds(x: real, b: nat)
    requires 0.0 <= x <= b as real
    ensures 0 <= Truncate(x) <= b
  {
  }

  /** `int(len(enrolled_students) * withdrawal_rate)`. */
  function WithdrawalCount(enrolled: nat, rate: real): (n: int)
    ensures 0.0 <= rate <= 1.0 ==> 0 <= n <= enrolled
  {
    var product := Scale(enrolled, rate);
    if 0.0 <= rate <= 1.0 then
      TruncateBounds(product, enrolled);
      Truncate(product)
    else Truncate(product)
  }

  /** `random.sample(population, n)`: `n` entries taken from distinct
      positions of the population. */
  predicate IsSample(w: seq<int>, population: seq<int>, n: int)
  {
    |w| == n && multiset(w) <= multiset(population)
  }

  /** `[sid for sid in enrolled if sid not in withdrawn]`. */
  function Remaining(enrolled: seq<int>, withdrawn: seq<int>): (r: seq<int>)
    ensures forall x :: x in r <==> x in enrolled && x !in withdrawn
    ensures |r| <= |enrolled|
  {
    if enrolled == [] then []
    else
      assert enrolled == [enrolled[0]] + enrolled[1..];
      (if enrolled[0] in withdrawn then [] else [enrolled[0]]) + Remaining(enrolled[1..], withdrawn)
  }

  /** The split of step 6 is a partition: no student is both withdrawn and
      remaining, and together they are the enrolled students. */
  lemma WithdrawalPartition(enrolled: seq<int>, withdrawn: seq<int>, n: int)
    requires IsSample(withdrawn, enrolled, n)
    ensures Elems(Remaining(enrolled, withdrawn)) * Elems(withdrawn) == {}
    ensures Elems(Remaining(enrolled, withdrawn)) + Elems(withdrawn) == Elems(enrolled)
  {
    forall x | x in withdrawn ensures x in enrolled {
      assert x in multiset(withdrawn);
    }
  }

  /** The filter keeps a distinct list distinct. */
  lemma {:induction false} RemainingDistinct(enrolled: seq<int>, withdrawn: seq<int>)
    requires Distinct(enrolled)
    ensures Distinct(Remaining(enrolled, withdrawn))
  {
    if enrolled != [] {
      var t := enrolled[1..];
      assert Distinct(t) by {
        forall i, j | 0 <= i < j < |t| ensures t[i] != t[j] {
          assert t[i] == enrolled[i + 1] && t[j] == enrolled[j + 1];
        }
      }
      RemainingDistinct(t, withdrawn);
      forall k | 0 <= k < |t| ensures t[k] != enrolled[0] {
        assert t[k] == enrolled[k + 1];
      }
    }
  }

  /** With distinct enrolled students, exactly `n` fewer remain. */
  lemma WithdrawalSizes(enrolled: seq<int>, withdrawn: seq<int>, n: int)
    requires Distinct(enrolled) && IsSample(withdrawn, enrolled, n)
    ensures Distinct(withdrawn) && Distinct(Remaining(enrolled, withdrawn))
    ensures |Remaining(enrolled, withdrawn)| == |enrolled| - n
  {
    var r := Remaining(enrolled, withdrawn);
    SubMultisetDistinct(withdrawn, enrolled);
    RemainingDistinct(enrolled, withdrawn);
    WithdrawalPartition(enrolled, withdrawn, n);
    DistinctCard(enrolled);
    DistinctCard(withdrawn);
    DistinctCard(r);
    assert Elems(r) == Elems(enrolled) - Elems(withdrawn);
    assert Elems(enrolled) == Elems(r) + Elems(withdrawn);
  }

  /** The file written for one course: the count, the sorted remaining
      students, the sorted withdrawn ones. */
  function SplitFileText(enrolled: seq<int>, withdrawn: seq<int>): string
  {
    CourseFileText(|withdrawn|, Remaining(enrolled, withdrawn), withdrawn)
  }

  /** The file names of a list of courses. */
  function FileNames(courses: seq<string>): set<string>
  {
    set c | c in courses :: CourseFileName(c)
  }

  /** The text of each course's file, in dictionary order. */
  function CourseTexts(rosters: map<string, seq<int>>, courses: seq<string>,
                       withdrawnSamples: seq<seq<int>>): (r: seq<string>)
    requires forall c :: c in courses ==> c in rosters
    requires |withdrawnSamples| == |courses|
    ensures |r| == |courses|
  {
    if courses == [] then []
    else [SplitFileText(rosters[courses[0]], withdrawnSamples[0])]
         + CourseTexts(rosters, courses[1..], withdrawnSamples[1..])
  }

  lemma {:induction false} CourseTextsAt(rosters: map<string, seq<int>>, courses: seq<string>,
                                         withdrawnSamples: seq<seq<int>>, m: nat)
    requires forall c :: c in courses ==> c in rosters
    requires |withdrawnSamples| == |courses| && m < |courses|
    ensures CourseTexts(rosters, courses, withdrawnSamples)[m]
         == SplitFileText(rosters[courses[m]], withdrawnSamples[m])
  {
    if m > 0 {
      CourseTextsAt(rosters, courses[1..], withdrawnSamples[1..], m - 1);
    }
  }

  /** Files holding the texts of `CourseTexts` hold each course's split. */
  lemma CourseTextsWritten(rosters: map<string, seq<int>>, courses: seq<string>,
                           withdrawnSamples: seq<seq<int>>, out: map<string, string>)
    requires forall c :: c in courses ==> c in rosters
    requires |withdrawnSamples| == |courses|
    requires forall m :: 0 <= m < |courses| ==>
      CourseFileName(courses[m]) in out &&
      out[CourseFileName(courses[m])] == CourseTexts(rosters, courses, withdrawnSamples)[m]
    ensures forall m :: 0 <= m < |courses| ==>
      CourseFileName(courses[m]) in out &&
      out[CourseFileName(courses[m])] == SplitFileText(rosters[courses[m]], withdrawnSamples[m])
  {
    forall m | 0 <= m < |courses|
      ensures out[CourseFileName(courses[m])] == SplitFileText(rosters[courses[m]], withdrawnSamples[m])
    {
      CourseTextsAt(rosters, courses, withdrawnSamples, m);
    }
  }

  /** A prefix of distinct courses grows its file names by the next
      course's name, which none of the earlier courses has. */
  lemma FileNamesStep(courses: seq<string>, k: nat)
    requires Distinct(courses) && k < |courses|
    ensures FileNames(courses[..k + 1]) == FileNames(courses[..k]) + {CourseFileName(courses[k])}
    ensures CourseFileName(courses[k]) in FileNames(courses)
    ensures forall m :: 0 <= m < k ==> CourseFileName(courses[m]) != CourseFileName(courses[k])
  {
    assert courses[..k + 1] == courses[..k] + [courses[k]];
    forall m | 0 <= m < k ensures CourseFileName(courses[m]) != CourseFileName(courses[k]) {
      if CourseFileName(courses[m]) == CourseFileName(courses[k]) {
        CourseFileNameInjective(courses[m], courses[k]);
      }
    }
  }

  /** What the loop of step 6 keeps: the first `k` courses have their
      texts written, nothing else but their names was added, and the files
      that are not course files are untouched. */
  ghost predicate WrittenUpTo(files: map<string, string>, courses: seq<string>, texts: seq<string>,
                              k: nat, out: map<string, string>)
    requires k <= |courses| && |texts| == |courses|
  {
    && (forall m :: 0 <= m < k ==>
         CourseFileName(courses[m]) in out && out[CourseFileName(courses[m])] == texts[m])
    && out.Keys == files.Keys + FileNames(courses[..k])
    && (forall name :: name in files && name !in FileNames(courses) ==> out[name] == files[name])
  }

  /** Writing course `k`'s text, whose name no earlier course has, keeps
      the loop's invariant for one more course. */
  lemma WrittenStep(files: map<string, string>, courses: seq<string>, texts: seq<string>,
                    k: nat, out: map<string, string>)
    requires Distinct(courses) && k < |courses| && |texts| == |courses|
    requires WrittenUpTo(files, courses, texts, k, out)
    ensures WrittenUpTo(files, courses, texts, k + 1, out[CourseFileName(courses[k]) := texts[k]])
  {
    FileNamesStep(courses, k);
  }

  /** The body of step 6 for one course: the withdrawal count from the
      drawn rate, the remaining students, and the file's text. */
  method CourseFileFor(enrolled: seq<int>, rate: real, withdrawn: seq<int>) returns (text: string)
    requires IsSample(withdrawn, enrolled, WithdrawalCount(|enrolled|, rate))
    ensures text == SplitFileText(enrolled, withdrawn)
  {
    var count := WithdrawalCount(|enrolled|, rate);
    var remaining := Remaining(enrolled, withdrawn);
    text := CourseFileText(count, remaining, withdrawn);
  }

  /** Step 6: for each course in dictionary order, draw the rate
      `rates[k]`, withdraw the sample `withdrawnSamples[k]` of the computed
      size, and write `course.txt`, replacing any file of that name. */
  method WriteCourseFiles(e: Enrollments, rates: seq<real>, withdrawnSamples: seq<seq<int>>,
                          files: map<string, string>) returns (out: map<string, string>)
    requires e.Valid()
    requires |rates| == |e.courses| && |withdrawnSamples| == |e.courses|
    requires forall k :: 0 <= k < |e.courses| ==>
      IsSample(withdrawnSamples[k], e.rosters[e.courses[k]],
               WithdrawalCount(|e.rosters[e.courses[k]]|, rates[k]))
    ensures forall k :: 0 <= k < |e.courses| ==>
      CourseFileName(e.courses[k]) in out &&
      out[CourseFileName(e.courses[k])] == SplitFileText(e.rosters[e.courses[k]], withdrawnSamples[k])
    ensures out.Keys == files.Keys + FileNames(e.courses)
    ensures forall name :: name in files && name !in FileNames(e.courses) ==> out[name] == files[name]
  {
    var courses, rosters := e.courses, e.rosters;
    ghost var texts := CourseTexts(rosters, courses, withdrawnSamples);
    out := files;
    var k := 0;
    assert courses[..0] == [];
    while k < |courses|
      invariant 0 <= k <= |courses|
      invariant WrittenUpTo(files, courses, texts, k, out)
    {
      var course := courses[k];
      var text := CourseFileFor(rosters[course], rates[k], withdrawnSamples[k]);
      CourseTextsAt(rosters, courses, withdrawnSamples, k);
      WrittenStep(files, courses, texts, k, out);
      out := out[CourseFileName(course) := text];
      k := k + 1;
    }
    assert courses[..k] == courses;
    CourseTextsWritten(rosters, courses, withdrawnSamples, out);
  }
}
