/** The second pass of `generate_schedule` (milestone2.py): for every tier,
    course and request, seat the student in the lowest-numbered section that
    has a block, has room and whose block the student does not already hold;
    otherwise the request stays unresolved. */
module StudentPlacement {
  import opened Collections
  import opened Records
  import opened Rules
  import opened Preprocess
  import opened Allocation

  /** `section_assignments[ref]`; a missing roster reads as empty. */
  function RosterOf(st: Schedule, ref: SectionRef): seq<string> {
    if ref in st.rosters then st.rosters[ref] else []
  }

  /** The section is bound to a (non-empty) block. */
  predicate HasBlock(st: Schedule, ref: SectionRef) {
    ref in st.sectionBlocks && st.sectionBlocks[ref] != ""
  }

  /** The section is bound and has fewer than `m` students. */
  predicate HasRoom(st: Schedule, ref: SectionRef, m: int) {
    HasBlock(st, ref) && |RosterOf(st, ref)| < m
  }

  /** The student can be seated in the section. */
  predicate Qualifies(st: Schedule, ref: SectionRef, sid: string, m: int) {
    HasRoom(st, ref, m) && st.sectionBlocks[ref] !in Held(st.students, sid)
  }

  /** The last section number the scan looks at: where it stopped, or the last one. */
  function LastTried(found: Option<int>, num: int): int {
    if found.Some? then found.value else num
  }

  /** Looking at section `ref` for student `sid`: a bound section's roster is
      read (and so created), and, when it has room, so is the student's
      timetable. What any later test sees is unchanged. */
  function Look(st: Schedule, ref: SectionRef, sid: string, m: int): (r: Schedule)
    ensures r.rosters.Keys == st.rosters.Keys + (if HasBlock(st, ref) then {ref} else {})
    ensures r.students.Keys == st.students.Keys + (if HasRoom(st, ref, m) then {sid} else {})
    ensures forall ref' :: RosterOf(r, ref') == RosterOf(st, ref')
    ensures forall who :: Held(r.students, who) == Held(st.students, who)
    ensures forall who :: who in st.students ==> r.students[who] == st.students[who]
    ensures r.sectionBlocks == st.sectionBlocks && r.teachers == st.teachers
    ensures r.resolved == st.resolved && r.unresolved == st.unresolved
  {
    if !HasBlock(st, ref) then st
    else
      var st1 := st.(rosters := Touch(st.rosters, ref, []));
      if |st1.rosters[ref]| >= m then st1
      else st1.(students := Touch(st1.students, sid, map[]))
  }

  /** Seats `sid` in the bound section `ref`. */
  function Seat(st: Schedule, ref: SectionRef, sid: string): (r: Schedule)
    requires ref in st.sectionBlocks
  {
    var b := st.sectionBlocks[ref];
    st.(students := st.students[sid := Held(st.students, sid)[b := ref]],
        rosters := st.rosters[ref := RosterOf(st, ref) + [sid]])
  }

  /** The scan's outcome over sections `n`..`num` of `c`: the section found
      qualifies, and no section before it (or none at all) does. */
  predicate FirstQualifying(st: Schedule, c: string, sid: string, n: int, num: int, m: int, found: Option<int>) {
    && (found.Some? ==> n <= found.value <= num && Qualifies(st, SectionRef(c, found.value), sid, m))
    && (forall i :: n <= i <= LastTried(found, num) && found != Some(i) ==> !Qualifies(st, SectionRef(c, i), sid, m))
  }

  /** The rosters after the scan: those of the bound sections looked at are
      created, and the student is appended to the section found. */
  ghost predicate RostersAfter(st: Schedule, r: Schedule, c: string, sid: string, n: int, last: int, found: Option<int>) {
    && (forall ref :: ref in r.rosters <==>
          ref in st.rosters || (ref.code == c && n <= ref.num <= last && HasBlock(st, ref)))
    && (forall ref :: ref in r.rosters ==>
          r.rosters[ref] == RosterOf(st, ref) + (if found == Some(ref.num) && ref.code == c then [sid] else []))
  }

  /** The timetables after the scan: the student's is created once a bound
      section with room is looked at, and gains the found section at its block;
      no other timetable changes. */
  ghost predicate StudentsAfter(st: Schedule, r: Schedule, c: string, sid: string, n: int, last: int, m: int, found: Option<int>)
    requires found.Some? ==> SectionRef(c, found.value) in st.sectionBlocks
  {
    && (forall who :: who in r.students <==>
          who in st.students || (who == sid && exists i :: n <= i <= last && HasRoom(st, SectionRef(c, i), m)))
    && (forall who :: who in r.students && who != sid ==> r.students[who] == st.students[who])
    && (sid in r.students ==>
          r.students[sid] == if found.Some? then Held(st.students, sid)[st.sectionBlocks[SectionRef(c, found.value)] := SectionRef(c, found.value)]
                             else Held(st.students, sid))
  }

  /** The scan over sections `n`..`num` of course `c` for student `sid`, with
      room for `m` students per section. Returns the section the student was
      seated in, if any. */
  function TrySections(st: Schedule, c: string, sid: string, n: int, num: int, m: int): (r: (Schedule, Option<int>))
    ensures FirstQualifying(st, c, sid, n, num, m, r.1)
    ensures RostersAfter(st, r.0, c, sid, n, LastTried(r.1, num), r.1)
    ensures StudentsAfter(st, r.0, c, sid, n, LastTried(r.1, num), m, r.1)
    ensures r.0.sectionBlocks == st.sectionBlocks && r.0.teachers == st.teachers
    ensures r.0.resolved == st.resolved && r.0.unresolved == st.unresolved
    decreases num + 1 - n
  {
    if n > num then (st, None)
    else
      var ref := SectionRef(c, n);
      var st1 := Look(st, ref, sid, m);
      if Qualifies(st, ref, sid, m) then
        SeatHere(st, c, sid, n, num, m);
        (Seat(st1, ref, sid), Some(n))
      else
        var r := TrySections(st1, c, sid, n + 1, num, m);
        LookFurther(st, c, sid, n, num, m, r);
        r
  }

  lemma SeatHere(st: Schedule, c: string, sid: string, n: int, num: int, m: int)
    requires n <= num && Qualifies(st, SectionRef(c, n), sid, m)
    ensures var r := Seat(Look(st, SectionRef(c, n), sid, m), SectionRef(c, n), sid);
      && FirstQualifying(st, c, sid, n, num, m, Some(n))
      && RostersAfter(st, r, c, sid, n, n, Some(n))
      && StudentsAfter(st, r, c, sid, n, n, m, Some(n))
  {
    var r := Seat(Look(st, SectionRef(c, n), sid, m), SectionRef(c, n), sid);
    assert forall ref: SectionRef :: ref.code == c && n <= ref.num <= n ==> ref == SectionRef(c, n);
    assert HasRoom(st, SectionRef(c, n), m);
  }

  lemma LookFurther(st: Schedule, c: string, sid: string, n: int, num: int, m: int, r: (Schedule, Option<int>))
    requires n <= num && !Qualifies(st, SectionRef(c, n), sid, m)
    requires var st1 := Look(st, SectionRef(c, n), sid, m);
      && FirstQualifying(st1, c, sid, n + 1, num, m, r.1)
      && RostersAfter(st1, r.0, c, sid, n + 1, LastTried(r.1, num), r.1)
      && StudentsAfter(st1, r.0, c, sid, n + 1, LastTried(r.1, num), m, r.1)
      && r.0.sectionBlocks == st1.sectionBlocks && r.0.teachers == st1.teachers
      && r.0.resolved == st1.resolved && r.0.unresolved == st1.unresolved
    ensures FirstQualifying(st, c, sid, n, num, m, r.1)
    ensures RostersAfter(st, r.0, c, sid, n, LastTried(r.1, num), r.1)
    ensures StudentsAfter(st, r.0, c, sid, n, LastTried(r.1, num), m, r.1)
    ensures r.0.sectionBlocks == st.sectionBlocks && r.0.teachers == st.teachers
    ensures r.0.resolved == st.resolved && r.0.unresolved == st.unresolved
  {
    var st1 := Look(st, SectionRef(c, n), sid, m);
    LookKeeps(st, st1, SectionRef(c, n), sid, m);
    FurtherFirst(st, st1, c, sid, n, num, m, r.1);
    FurtherRosters(st, st1, r.0, c, sid, n, LastTried(r.1, num), m, r.1);
    FurtherStudents(st, st1, r.0, c, sid, n, LastTried(r.1, num), m, r.1);
  }

  /** Looking at a section changes none of the tests. */
  lemma LookKeeps(st: Schedule, st1: Schedule, ref0: SectionRef, sid: string, m: int)
    requires st1 == Look(st, ref0, sid, m)
    ensures forall ref :: HasBlock(st1, ref) == HasBlock(st, ref)
    ensures forall ref :: HasRoom(st1, ref, m) == HasRoom(st, ref, m)
    ensures forall ref :: Qualifies(st1, ref, sid, m) == Qualifies(st, ref, sid, m)
  {
    assert forall ref :: RosterOf(st1, ref) == RosterOf(st, ref);
  }

  lemma FurtherFirst(st: Schedule, st1: Schedule, c: string, sid: string, n: int, num: int, m: int, found: Option<int>)
    requires n <= num && !Qualifies(st, SectionRef(c, n), sid, m)
    requires forall ref :: Qualifies(st1, ref, sid, m) == Qualifies(st, ref, sid, m)
    requires FirstQualifying(st1, c, sid, n + 1, num, m, found)
    ensures FirstQualifying(st, c, sid, n, num, m, found)
  {
  }

  lemma FurtherRosters(st: Schedule, st1: Schedule, r: Schedule, c: string, sid: string, n: int, last: int, m: int,
                       found: Option<int>)
    requires n <= last && (found.Some? ==> n < found.value)
    requires st1 == Look(st, SectionRef(c, n), sid, m)
    requires forall ref :: HasBlock(st1, ref) == HasBlock(st, ref)
    requires RostersAfter(st1, r, c, sid, n + 1, last, found)
    ensures RostersAfter(st, r, c, sid, n, last, found)
  {
    forall ref
      ensures ref in r.rosters <==> ref in st.rosters || (ref.code == c && n <= ref.num <= last && HasBlock(st, ref))
    {
    }
  }

  lemma FurtherStudents(st: Schedule, st1: Schedule, r: Schedule, c: string, sid: string, n: int, last: int, m: int,
                        found: Option<int>)
    requires n <= last && (found.Some? ==> n < found.value)
    requires found.Some? ==> SectionRef(c, found.value) in st.sectionBlocks
    requires st1 == Look(st, SectionRef(c, n), sid, m)
    requires forall ref :: HasRoom(st1, ref, m) == HasRoom(st, ref, m)
    requires StudentsAfter(st1, r, c, sid, n + 1, last, m, found)
    ensures StudentsAfter(st, r, c, sid, n, last, m, found)
  {
    forall who
      ensures who in r.students <==>
          who in st.students || (who == sid && exists i :: n <= i <= last && HasRoom(st, SectionRef(c, i), m))
    {
      if who == sid && who !in st.students && who in r.students && who !in st1.students {
        var i :| n + 1 <= i <= last && HasRoom(st1, SectionRef(c, i), m);
        assert HasRoom(st, SectionRef(c, i), m);
      }
      if who == sid && exists i :: n <= i <= last && HasRoom(st, SectionRef(c, i), m) {
        var i :| n <= i <= last && HasRoom(st, SectionRef(c, i), m);
        if i > n {
          assert HasRoom(st1, SectionRef(c, i), m);
        }
      }
    }
  }

  // ------------------------------------------------------------------ one request

  /** Pass 2 for one request of course `c`: a request without a student id is
      unresolved at once; otherwise the student is seated by the scan over
      the course's sections 1..`num_sections`, and the request is resolved
      exactly when the scan found a section. */
  function PlaceRequest(st: Schedule, p: Prepared, rules: RuleSet, c: string, req: Request): (r: Schedule)
    ensures var d := Detail(p, rules, c);
      var seated := req.studentId != "" &&
        exists i :: 1 <= i <= d.numSections && Qualifies(st, SectionRef(c, i), req.studentId, d.maxSize);
      && (seated ==> r.resolved == st.resolved + [req] && r.unresolved == st.unresolved)
      && (!seated ==> r.resolved == st.resolved && r.unresolved == st.unresolved + [req])
    ensures r.sectionBlocks == st.sectionBlocks && r.teachers == st.teachers
  {
    var d := Detail(p, rules, c);
    if req.studentId == "" then st.(unresolved := st.unresolved + [req])
    else
      var (st1, found) := TrySections(st, c, req.studentId, 1, d.numSections, d.maxSize);
      if found.Some? then st1.(resolved := st1.resolved + [req])
      else st1.(unresolved := st1.unresolved + [req])
  }

  // ------------------------------------------------------------------ invariant

  /** The number of students on a roster. */
  function Size(): seq<string> -> nat {
    (ros: seq<string>) => |ros|
  }

  /** Rosters exist only for bound sections, and none exceeds its course's `max_size`. */
  predicate WithinCapacity(p: Prepared, rules: RuleSet, blocks: map<SectionRef, Block>, rosters: map<SectionRef, seq<string>>) {
    forall ref :: ref in rosters ==>
      ref in blocks && blocks[ref] != "" && (rosters[ref] == [] || |rosters[ref]| <= Detail(p, rules, ref.code).maxSize)
  }

  /** Student `sid` holds section `ref` at the section's block `b`. */
  predicate SeatedAt(students: map<string, map<Block, SectionRef>>, sid: string, ref: SectionRef, b: Block) {
    sid in students && b in students[sid] && students[sid][b] == ref
  }

  /** Rosters and personal timetables describe the same seats: each student
      on a roster holds that section at its block, once, and each timetable
      entry is a section at its block whose roster lists the student. */
  predicate SeatsAgree(students: map<string, map<Block, SectionRef>>, blocks: map<SectionRef, Block>,
                       rosters: map<SectionRef, seq<string>>) {
    && (forall ref :: ref in rosters ==> ref in blocks && Distinct(rosters[ref]))
    && (forall ref, i :: ref in rosters && ref in blocks && 0 <= i < |rosters[ref]| ==>
          SeatedAt(students, rosters[ref][i], ref, blocks[ref]))
    && (forall sid, b :: sid in students && b in students[sid] ==>
          var ref := students[sid][b];
          ref in rosters && sid in rosters[ref] && ref in blocks && blocks[ref] == b)
  }

  /** The invariant of Pass 2. */
  ghost predicate Enrolled(p: Prepared, rules: RuleSet, st: Schedule) {
    && WithinCapacity(p, rules, st.sectionBlocks, st.rosters)
    && SeatsAgree(st.students, st.sectionBlocks, st.rosters)
    && SumOver(st.rosters, Size()) == |st.resolved|
    && SumOver(st.students, Entries()) == |st.resolved|
  }

  /** No student holds two sections at the same block. */
  lemma NoStudentDoubleBooking(st: Schedule, sid: string, r1: SectionRef, r2: SectionRef)
    requires SeatsAgree(st.students, st.sectionBlocks, st.rosters)
    requires r1 in st.rosters && r2 in st.rosters && r1 != r2
    requires sid in st.rosters[r1] && sid in st.rosters[r2]
    ensures st.sectionBlocks[r1] != st.sectionBlocks[r2]
  {
    var i :| 0 <= i < |st.rosters[r1]| && st.rosters[r1][i] == sid;
    var j :| 0 <= j < |st.rosters[r2]| && st.rosters[r2][j] == sid;
    assert SeatedAt(st.students, sid, r1, st.sectionBlocks[r1]) && SeatedAt(st.students, sid, r2, st.sectionBlocks[r2]);
  }

  /** Placing one request keeps the invariant and replaces no timetable entry. */
  lemma PlaceRequestEnrolled(st: Schedule, p: Prepared, rules: RuleSet, c: string, req: Request)
    requires Enrolled(p, rules, st)
    ensures Enrolled(p, rules, PlaceRequest(st, p, rules, c, req))
    ensures Extends(st.students, PlaceRequest(st, p, rules, c, req).students)
  {
    var d := Detail(p, rules, c);
    if req.studentId != "" {
      var sid := req.studentId;
      var r := TrySections(st, c, sid, 1, d.numSections, d.maxSize);
      var last := LastTried(r.1, d.numSections);
      ScanCapacity(st, r.0, p, rules, c, sid, last, r.1);
      ScanSeats(st, r.0, c, sid, last, d.maxSize, r.1);
      ScanTally(st, r.0, c, sid, last, r.1);
      ScanEntries(st, r.0, c, sid, last, d.maxSize, r.1);
      RecordOutcome(st, r.0, p, rules, req, r.1.Some?);
      assert PlaceRequest(st, p, rules, c, req) ==
        if r.1.Some? then r.0.(resolved := r.0.resolved + [req]) else r.0.(unresolved := r.0.unresolved + [req]);
    }
  }

  lemma RecordOutcome(st: Schedule, r: Schedule, p: Prepared, rules: RuleSet, req: Request, seated: bool)
    requires WithinCapacity(p, rules, r.sectionBlocks, r.rosters) && SeatsAgree(r.students, r.sectionBlocks, r.rosters)
    requires r.resolved == st.resolved
    requires SumOver(st.rosters, Size()) == |st.resolved|
    requires SumOver(r.rosters, Size()) == SumOver(st.rosters, Size()) + (if seated then 1 else 0)
    requires SumOver(st.students, Entries()) == |st.resolved|
    requires SumOver(r.students, Entries()) == SumOver(st.students, Entries()) + (if seated then 1 else 0)
    ensures seated ==> Enrolled(p, rules, r.(resolved := r.resolved + [req]))
    ensures !seated ==> Enrolled(p, rules, r.(unresolved := r.unresolved + [req]))
  {
  }

  lemma ScanCapacity(st: Schedule, r: Schedule, p: Prepared, rules: RuleSet, c: string, sid: string, last: int,
                     found: Option<int>)
    requires WithinCapacity(p, rules, st.sectionBlocks, st.rosters)
    requires RostersAfter(st, r, c, sid, 1, last, found) && r.sectionBlocks == st.sectionBlocks
    requires found.Some? ==> HasRoom(st, SectionRef(c, found.value), Detail(p, rules, c).maxSize)
    ensures WithinCapacity(p, rules, r.sectionBlocks, r.rosters)
  {
    forall ref | ref in r.rosters
      ensures ref in r.sectionBlocks && r.sectionBlocks[ref] != "" &&
              (r.rosters[ref] == [] || |r.rosters[ref]| <= Detail(p, rules, ref.code).maxSize)
    {
      if found == Some(ref.num) && ref.code == c {
        assert HasRoom(st, ref, Detail(p, rules, c).maxSize);
      }
    }
  }

  lemma ScanSeats(st: Schedule, r: Schedule, c: string, sid: string, last: int, m: int, found: Option<int>)
    requires SeatsAgree(st.students, st.sectionBlocks, st.rosters)
    requires r.sectionBlocks == st.sectionBlocks
    requires found.Some? ==> 1 <= found.value <= last && Qualifies(st, SectionRef(c, found.value), sid, m)
    requires RostersAfter(st, r, c, sid, 1, last, found)
    requires StudentsAfter(st, r, c, sid, 1, last, m, found)
    ensures SeatsAgree(r.students, r.sectionBlocks, r.rosters)
    ensures Extends(st.students, r.students)
  {
    if found.Some? {
      var ref := SectionRef(c, found.value);
      var b := st.sectionBlocks[ref];
      assert sid !in RosterOf(st, ref);
      assert sid in r.students by {
        assert HasRoom(st, ref, m);
      }
      SeatedAfter(st, r, sid, ref, b);
    } else {
      NoSeatAfter(st, r, sid);
    }
  }

  lemma NoSeatAfter(st: Schedule, r: Schedule, sid: string)
    requires SeatsAgree(st.students, st.sectionBlocks, st.rosters)
    requires r.sectionBlocks == st.sectionBlocks
    requires forall ref' :: ref' in r.rosters ==> ref' in st.rosters || ref' in st.sectionBlocks
    requires forall ref' :: ref' in r.rosters ==> r.rosters[ref'] == RosterOf(st, ref')
    requires forall ref' :: ref' in st.rosters ==> ref' in r.rosters
    requires forall who :: who in st.students ==> who in r.students
    requires forall who :: who in r.students && who != sid ==> who in st.students && r.students[who] == st.students[who]
    requires sid in r.students ==> r.students[sid] == Held(st.students, sid)
    ensures SeatsAgree(r.students, r.sectionBlocks, r.rosters)
    ensures Extends(st.students, r.students)
  {
    forall ref', i | ref' in r.rosters && ref' in r.sectionBlocks && 0 <= i < |r.rosters[ref']|
      ensures SeatedAt(r.students, r.rosters[ref'][i], ref', r.sectionBlocks[ref'])
    {
      assert SeatedAt(st.students, st.rosters[ref'][i], ref', st.sectionBlocks[ref']);
    }
    forall who, b' | who in r.students && b' in r.students[who]
      ensures var ref' := r.students[who][b'];
        ref' in r.rosters && who in r.rosters[ref'] && ref' in r.sectionBlocks && r.sectionBlocks[ref'] == b'
    {
      var ref' := st.students[who][b'];
      assert who in st.rosters[ref'];
    }
  }

  lemma SeatedAfter(st: Schedule, r: Schedule, sid: string, ref: SectionRef, b: Block)
    requires SeatsAgree(st.students, st.sectionBlocks, st.rosters)
    requires ref in st.sectionBlocks && b == st.sectionBlocks[ref] && b !in Held(st.students, sid)
    requires sid !in RosterOf(st, ref)
    requires r.sectionBlocks == st.sectionBlocks
    requires forall ref' :: ref' in st.rosters ==> ref' in r.rosters
    requires forall ref' :: ref' in r.rosters ==> ref' in st.rosters || ref' in st.sectionBlocks
    requires forall ref' :: ref' in r.rosters ==> r.rosters[ref'] == RosterOf(st, ref') + (if ref' == ref then [sid] else [])
    requires ref in r.rosters
    requires forall who :: who in r.students <==> who in st.students || who == sid
    requires forall who :: who in r.students && who != sid ==> r.students[who] == st.students[who]
    requires sid in r.students && r.students[sid] == Held(st.students, sid)[b := ref]
    ensures SeatsAgree(r.students, r.sectionBlocks, r.rosters)
    ensures Extends(st.students, r.students)
  {
    SeatedAfterRosters(st, r, sid, ref, b);
    SeatedAfterStudents(st, r, sid, ref, b);
  }

  lemma SeatedAfterRosters(st: Schedule, r: Schedule, sid: string, ref: SectionRef, b: Block)
    requires SeatsAgree(st.students, st.sectionBlocks, st.rosters)
    requires ref in st.sectionBlocks && b == st.sectionBlocks[ref] && b !in Held(st.students, sid)
    requires sid !in RosterOf(st, ref)
    requires r.sectionBlocks == st.sectionBlocks
    requires forall ref' :: ref' in r.rosters ==> ref' in st.rosters || ref' in st.sectionBlocks
    requires forall ref' :: ref' in r.rosters ==> r.rosters[ref'] == RosterOf(st, ref') + (if ref' == ref then [sid] else [])
    requires forall who :: who in r.students <==> who in st.students || who == sid
    requires forall who :: who in r.students && who != sid ==> r.students[who] == st.students[who]
    requires sid in r.students && r.students[sid] == Held(st.students, sid)[b := ref]
    ensures forall ref' :: ref' in r.rosters ==> ref' in r.sectionBlocks && Distinct(r.rosters[ref'])
    ensures forall ref', i :: ref' in r.rosters && ref' in r.sectionBlocks && 0 <= i < |r.rosters[ref']| ==>
              SeatedAt(r.students, r.rosters[ref'][i], ref', r.sectionBlocks[ref'])
  {
    forall ref', i | ref' in r.rosters && ref' in r.sectionBlocks && 0 <= i < |r.rosters[ref']|
      ensures SeatedAt(r.students, r.rosters[ref'][i], ref', r.sectionBlocks[ref'])
    {
      if !(ref' == ref && i == |RosterOf(st, ref')|) {
        assert r.rosters[ref'][i] == st.rosters[ref'][i];
        assert SeatedAt(st.students, st.rosters[ref'][i], ref', st.sectionBlocks[ref']);
      }
    }
  }

  lemma SeatedAfterStudents(st: Schedule, r: Schedule, sid: string, ref: SectionRef, b: Block)
    requires SeatsAgree(st.students, st.sectionBlocks, st.rosters)
    requires ref in st.sectionBlocks && b == st.sectionBlocks[ref] && b !in Held(st.students, sid)
    requires r.sectionBlocks == st.sectionBlocks
    requires forall ref' :: ref' in st.rosters ==> ref' in r.rosters
    requires forall ref' :: ref' in r.rosters ==> r.rosters[ref'] == RosterOf(st, ref') + (if ref' == ref then [sid] else [])
    requires ref in r.rosters
    requires forall who :: who in r.students <==> who in st.students || who == sid
    requires forall who :: who in r.students && who != sid ==> r.students[who] == st.students[who]
    requires sid in r.students && r.students[sid] == Held(st.students, sid)[b := ref]
    ensures forall who, b' :: who in r.students && b' in r.students[who] ==>
              var ref' := r.students[who][b'];
              ref' in r.rosters && who in r.rosters[ref'] && ref' in r.sectionBlocks && r.sectionBlocks[ref'] == b'
    ensures Extends(st.students, r.students)
  {
    forall who, b' | who in r.students && b' in r.students[who]
      ensures var ref' := r.students[who][b'];
        ref' in r.rosters && who in r.rosters[ref'] && ref' in r.sectionBlocks && r.sectionBlocks[ref'] == b'
    {
      if !(who == sid && b' == b) {
        var ref' := st.students[who][b'];
        assert who in st.rosters[ref'];
      }
    }
  }

  lemma ScanTally(st: Schedule, r: Schedule, c: string, sid: string, last: int, found: Option<int>)
    requires RostersAfter(st, r, c, sid, 1, last, found)
    requires found.Some? ==> 1 <= found.value <= last && HasBlock(st, SectionRef(c, found.value))
    ensures SumOver(r.rosters, Size()) == SumOver(st.rosters, Size()) + (if found.Some? then 1 else 0)
  {
    if found.Some? {
      var ref := SectionRef(c, found.value);
      var touched := r.rosters[ref := RosterOf(st, ref)];
      SumOverGrow(st.rosters, touched, Size());
      SumOverUpdate(touched, ref, RosterOf(st, ref) + [sid], Size());
      assert touched[ref := RosterOf(st, ref) + [sid]] == r.rosters;
    } else {
      SumOverGrow(st.rosters, r.rosters, Size());
    }
  }

  // ------------------------------------------------------------------ the pass

  /** Every request Pass 2 handles, in the order it handles them: tier by
      tier, course by course in `cs`, the course's requests of that tier. */
  function TierAgenda(p: Prepared, t: string, cs: seq<string>): seq<Request>
    decreases |cs|
  {
    if cs == [] then [] else TierRequests(p, cs[0], t) + TierAgenda(p, t, cs[1..])
  }

  function Agenda(p: Prepared, tiers: seq<string>): seq<Request>
    decreases |tiers|
  {
    if tiers == [] then [] else TierAgenda(p, tiers[0], p.order) + Agenda(p, tiers[1..])
  }

  /** The outcome lists grew by exactly the requests `reqs`, each landing in one of them. */
  predicate Recorded(st: Schedule, r: Schedule, reqs: seq<Request>) {
    && |st.resolved| <= |r.resolved| && r.resolved[..|st.resolved|] == st.resolved
    && |st.unresolved| <= |r.unresolved| && r.unresolved[..|st.unresolved|] == st.unresolved
    && multiset(r.resolved) + multiset(r.unresolved) == multiset(st.resolved) + multiset(st.unresolved) + multiset(reqs)
  }

  lemma RecordedTrans(a: Schedule, b: Schedule, c: Schedule, x: seq<Request>, y: seq<Request>)
    requires Recorded(a, b, x) && Recorded(b, c, y)
    ensures Recorded(a, c, x + y)
  {
    assert c.resolved[..|a.resolved|] == c.resolved[..|b.resolved|][..|a.resolved|];
    assert c.unresolved[..|a.unresolved|] == c.unresolved[..|b.unresolved|][..|a.unresolved|];
  }

  /** One request lands in exactly one of the two outcome lists. */
  lemma PlaceRequestRecorded(st: Schedule, p: Prepared, rules: RuleSet, c: string, req: Request)
    ensures Recorded(st, PlaceRequest(st, p, rules, c, req), [req])
  {
    var r := PlaceRequest(st, p, rules, c, req);
    RecordedOne(st.resolved, st.unresolved, r.resolved, r.unresolved, req);
  }

  lemma RecordedOne(res: seq<Request>, unres: seq<Request>, res': seq<Request>, unres': seq<Request>, req: Request)
    requires || (res' == res + [req] && unres' == unres)
             || (res' == res && unres' == unres + [req])
    ensures && |res| <= |res'| && res'[..|res|] == res
            && |unres| <= |unres'| && unres'[..|unres|] == unres
            && multiset(res') + multiset(unres') == multiset(res) + multiset(unres) + multiset([req])
  {
    if res' == res + [req] {
      assert res'[..|res|] == res;
    } else {
      assert unres'[..|unres|] == unres;
    }
  }

  /** The requests `reqs` of course `c`, in order. */
  function PlaceRequests(st: Schedule, p: Prepared, rules: RuleSet, c: string, reqs: seq<Request>): (r: Schedule)
    requires Enrolled(p, rules, st)
    ensures Enrolled(p, rules, r)
    ensures Extends(st.students, r.students)
    ensures Recorded(st, r, reqs)
    ensures r.sectionBlocks == st.sectionBlocks && r.teachers == st.teachers
    decreases |reqs|
  {
    if reqs == [] then st
    else
      var st1 := PlaceRequest(st, p, rules, c, reqs[0]);
      PlaceRequestEnrolled(st, p, rules, c, reqs[0]);
      var r := PlaceRequests(st1, p, rules, c, reqs[1..]);
      PlaceRequestRecorded(st, p, rules, c, reqs[0]);
      RecordedTrans(st, st1, r, [reqs[0]], reqs[1..]);
      assert [reqs[0]] + reqs[1..] == reqs;
      r
  }

  /** Pass 2 for one tier, over the courses `cs` in order. */
  function TierStep(st: Schedule, p: Prepared, rules: RuleSet, t: string, cs: seq<string>): (r: Schedule)
    requires Enrolled(p, rules, st)
    ensures Enrolled(p, rules, r)
    ensures Extends(st.students, r.students)
    ensures Recorded(st, r, TierAgenda(p, t, cs))
    ensures r.sectionBlocks == st.sectionBlocks && r.teachers == st.teachers
    decreases |cs|
  {
    if cs == [] then
      assert Recorded(st, st, []);
      st
    else
      var st1 := PlaceRequests(st, p, rules, cs[0], TierRequests(p, cs[0], t));
      var r := TierStep(st1, p, rules, t, cs[1..]);
      RecordedTrans(st, st1, r, TierRequests(p, cs[0], t), TierAgenda(p, t, cs[1..]));
      r
  }

  /** Pass 2: every tier in turn, each over the courses in first-request order. */
  function Pass(st: Schedule, p: Prepared, rules: RuleSet, tiers: seq<string>): (r: Schedule)
    requires Enrolled(p, rules, st)
    ensures Enrolled(p, rules, r)
    ensures Extends(st.students, r.students)
    ensures Recorded(st, r, Agenda(p, tiers))
    ensures r.sectionBlocks == st.sectionBlocks && r.teachers == st.teachers
    decreases |tiers|
  {
    if tiers == [] then
      assert Recorded(st, st, []);
      st
    else
      var st1 := TierStep(st, p, rules, tiers[0], p.order);
      var r := Pass(st1, p, rules, tiers[1..]);
      RecordedTrans(st, st1, r, TierAgenda(p, tiers[0], p.order), Agenda(p, tiers[1..]));
      r
  }

  lemma ScanEntries(st: Schedule, r: Schedule, c: string, sid: string, last: int, m: int, found: Option<int>)
    requires found.Some? ==> 1 <= found.value <= last && Qualifies(st, SectionRef(c, found.value), sid, m)
    requires StudentsAfter(st, r, c, sid, 1, last, m, found)
    ensures SumOver(r.students, Entries()) == SumOver(st.students, Entries()) + (if found.Some? then 1 else 0)
  {
    if found.Some? {
      var ref := SectionRef(c, found.value);
      assert HasRoom(st, ref, m);
      EntriesSeated(st.students, r.students, sid, ref, st.sectionBlocks[ref]);
    } else {
      SumOverGrow(st.students, r.students, Entries());
    }
  }

  /** Seating one student adds one timetable entry in total. */
  lemma EntriesSeated(before: map<string, map<Block, SectionRef>>, after: map<string, map<Block, SectionRef>>,
                      sid: string, ref: SectionRef, b: Block)
    requires b !in Held(before, sid)
    requires forall who :: who in after <==> who in before || who == sid
    requires forall who :: who in after && who != sid ==> after[who] == before[who]
    requires after[sid] == Held(before, sid)[b := ref]
    ensures SumOver(after, Entries()) == SumOver(before, Entries()) + 1
  {
    var held := Held(before, sid);
    var touched := after[sid := held];
    SumOverGrow(before, touched, Entries());
    SumOverUpdate(touched, sid, held[b := ref], Entries());
    assert touched[sid := held[b := ref]] == after;
  }
}
