/** A worked example of the allocator of milestone2.py on a small input: one
    course BIB9 with a single section of two places, two available blocks and
    three Required requests from three first-year students. Each step of both
    passes is stated as its own lemma, and `Generated` puts them together. */
module Example {
  import opened Collections
  import opened Records
  import opened Rules
  import opened Preprocess
  import opened Allocation
  import opened Text
  import opened StableSort
  import SectionPlacement
  import StudentPlacement
  import Scheduler
  import Analysis

  /** The requests, the course details, the prepared data and the rules of the example. */
  const Q1 := Request("s1", "1st Year", "BIB9", Some("Required"))
  const Q2 := Request("s2", "1st Year", "BIB9", Some("Required"))
  const Q3 := Request("s3", "1st Year", "BIB9", Some("Required"))
  const D := CourseDetail("", 4, 0, ["1A", "1B"], [], 5, 20, 2, 1)
  const P := Prepared(map[], map["BIB9" := D], ["BIB9"], map["BIB9" := [Q1, Q2, Q3]])
  const R := RuleSet(["1A", "1B"], RequiredCourses, PriorityOrder)
  const S1 := SectionRef("BIB9", 1)
  /** The state after Pass 1: section 1 of BIB9 held by its placeholder lecturer in block 1A. */
  const Bound := Start.(teachers := map["unknown_BIB9" := map["1A" := S1]], sectionBlocks := map[S1 := "1A"])

  /** The three requests are all of the Required tier. */
  lemma RequiredRequests()
    ensures TierRequests(P, "BIB9", "Required") == [Q1, Q2, Q3]
  {
    FilterAll([Q1, Q2, Q3], OfTier("Required"));
  }

  /** No request belongs to another tier. */
  lemma OtherRequests(t: string)
    requires t != "Required"
    ensures TierRequests(P, "BIB9", t) == []
  {
    FilterNone([Q1, Q2, Q3], OfTier(t));
  }

  lemma Tiers()
    ensures TierRequests(P, "BIB9", "Required") == [Q1, Q2, Q3]
    ensures TierRequests(P, "BIB9", "Requested") == []
    ensures TierRequests(P, "BIB9", "Recommended") == []
  {
    RequiredRequests();
    OtherRequests("Requested");
    OtherRequests("Recommended");
  }

  // ------------------------------------------------------------ the raw tables

  /** The one course record: BIB9, offered in blocks 1A and 1B, at most two
      students a section, every other field left to its default. */
  const C := CourseRecord("BIB9", None, None, None, Some(["1A", "1B"]), None, None, None, Some(2), None)

  /** Courses that declare a strictly ascending list of blocks yield that list as `all_blocks`. */
  lemma RulesOf(courses: seq<CourseRecord>, listing: seq<Block>)
    requires DeclaredBlocks(courses) == listing && listing != [] && StrictlySorted(listing)
    ensures ExtractRules(courses) == RuleSet(listing, RequiredCourses, PriorityOrder)
  {
    AllBlocksCharacterised(courses, listing);
  }

  /** The course table declares blocks 1A and 1B. */
  lemma Declared()
    ensures DeclaredBlocks([C]) == ["1A", "1B"]
  {
    assert [C][..0] == [];
  }

  /** 1A comes before 1B. */
  lemma Ascending()
    ensures StrictlySorted(["1A", "1B"])
  {
    assert Less("1A", "1B");
  }

  /** The rules extracted from the course table are `R`. */
  lemma ExtractedRules()
    ensures ExtractRules([C]) == R
  {
    Declared();
    Ascending();
    RulesOf([C], ["1A", "1B"]);
  }

  /** With no listing, no section has a lecturer. */
  lemma NoLecturers()
    ensures LecturerMap([]) == map[]
  {
  }

  /** BIB9's details are its record with the defaults filled in. */
  lemma Details()
    ensures CourseDetails([C], ["1A", "1B"]) == map["BIB9" := D]
  {
    assert [C][0].code == "BIB9";
  }

  /** Requests that all name course `c` are grouped under `c` alone. */
  lemma OneCourse(reqs: seq<Request>, c: string)
    requires c != "" && reqs != []
    requires forall i :: 0 <= i < |reqs| ==> reqs[i].code == c
    ensures GroupRequests(reqs).0 == [c] && GroupRequests(reqs).1.Keys == {c}
  {
    var codes := Codes(reqs);
    forall i | 0 <= i < |codes|
      ensures codes[i] == c
    {
      CodesMembers(reqs, codes[i]);
    }
    CodesMembers(reqs, c);
    assert reqs[0].code == c;
    DedupCopies(codes, c);
    assert GroupedAs(reqs, GroupRequests(reqs).0, GroupRequests(reqs).1);
  }

  /** Requests of course `c` that share one rank keep their input order. */
  lemma OneRank(courses: seq<CourseRecord>, listings: seq<Listing>, reqs: seq<Request>, rules: RuleSet, c: string, k: int)
    requires c in Prepare(courses, listings, reqs, rules).requests
    requires forall i :: 0 <= i < |reqs| ==> reqs[i].code == c && Rank(reqs[i].kind) == k
    ensures Prepare(courses, listings, reqs, rules).requests[c] == reqs
  {
    var g := Prepare(courses, listings, reqs, rules).requests[c];
    PrepareRequests(courses, listings, reqs, rules);
    FilterAll(reqs, ForCourse(c));
    FilterAll(reqs, KeyIs(RankKey(), k));
    forall i | 0 <= i < |g|
      ensures KeyIs(RankKey(), k)(g[i])
    {
      assert g[i] in multiset(g);
    }
    FilterAll(g, KeyIs(RankKey(), k));
  }

  /** Requests that all name course `c` and share one rank are the only
      course's list, unchanged. */
  lemma OneCourseRequests(courses: seq<CourseRecord>, listings: seq<Listing>, reqs: seq<Request>, rules: RuleSet, c: string, k: int)
    requires c != "" && reqs != []
    requires forall i :: 0 <= i < |reqs| ==> reqs[i].code == c && Rank(reqs[i].kind) == k
    ensures Prepare(courses, listings, reqs, rules).order == [c]
    ensures Prepare(courses, listings, reqs, rules).requests == map[c := reqs]
  {
    var p := Prepare(courses, listings, reqs, rules);
    var g := GroupRequests(reqs);
    OneCourse(reqs, c);
    assert p.order == g.0;
    assert p.requests.Keys == g.1.Keys;
    OneRank(courses, listings, reqs, rules, c, k);
    SingletonMap(p.requests, c, reqs);
  }

  /** The lookups built from the raw tables are `P`: no lecturer listing, the
      details of BIB9 with its defaults filled in, and the three requests
      grouped under BIB9 in input order. */
  lemma PreparedTables(courses: seq<CourseRecord>, listings: seq<Listing>, reqs: seq<Request>)
    requires courses == [C] && listings == [] && reqs == [Q1, Q2, Q3]
    ensures Prepare(courses, listings, reqs, R) == P
  {
    NoLecturers();
    Details();
    OneCourseRequests(courses, listings, reqs, R, "BIB9", 0);
  }

  /** The whole pipeline, from the raw tables, yields the schedule `Final`. */
  lemma RunFinal()
    ensures Scheduler.Divisible(Prepare([C], [], [Q1, Q2, Q3], ExtractRules([C])), ExtractRules([C]))
    ensures Scheduler.Run([C], [], [Q1, Q2, Q3]) == Final
  {
    ExtractedRules();
    PreparedTables([C], [], [Q1, Q2, Q3]);
    Generated();
  }

  // ------------------------------------------------------------------ Pass 1

  /** The first open block, 1A, is taken for section 1. */
  lemma BindFirst()
    ensures SectionPlacement.Bind(Start, D, S1, "unknown_BIB9", {}) == (Bound, Some("1A"))
  {
    var r := SectionPlacement.Bind(Start, D, S1, "unknown_BIB9", {});
    assert SectionPlacement.FirstFitting(D, {}, map[], 0);
    assert r.1 == Some("1A");
    assert SectionPlacement.AnyOpen(D, {}) by {
      assert SectionPlacement.Open(D, {}, D.available[0]);
    }
    assert r.0.teachers == Bound.teachers;
    assert r.0.sectionBlocks == Bound.sectionBlocks;
  }

  /** The empty state keeps the Pass 1 invariant, and the one course has a positive size. */
  lemma StartBooked()
    ensures SectionPlacement.Booked(P, R, Start)
    ensures forall t :: t in PriorityOrder ==> SectionPlacement.Divisible(P, R, t, P.order)
  {
  }

  /** Placing the one section of BIB9 binds it to 1A. */
  lemma PlacedFirst()
    requires SectionPlacement.Booked(P, R, Start)
    ensures SectionPlacement.PlaceSections(Start, P, R, "BIB9", 1, 1, {}) == (Bound, map[1 := "1A"])
  {
    BindFirst();
    assert Detail(P, R, "BIB9") == D;
    assert LecturerOf(P, S1) == "unknown_BIB9";
    assert SectionPlacement.PlaceSection(Start, P, R, "BIB9", 1, {}) == (Bound, Some("1A"));
  }

  /** Three Required requests for places of two need one section. */
  lemma RequiredTier()
    requires SectionPlacement.Booked(P, R, Start) && SectionPlacement.Divisible(P, R, "Required", ["BIB9"])
    ensures SectionPlacement.TierStep(Start, P, R, "Required", ["BIB9"]) == Bound
  {
    Tiers();
    PlacedFirst();
    assert SectionPlacement.Needed(3, 2, 1) == 1;
    assert SectionPlacement.CourseStep(Start, P, R, "Required", "BIB9").0 == Bound;
  }

  /** The state after Pass 1 keeps the Pass 1 invariant. */
  lemma BoundBooked()
    ensures SectionPlacement.Booked(P, R, Bound)
  {
    assert Detail(P, R, "BIB9") == D;
    assert LecturerOf(P, S1) == "unknown_BIB9";
  }

  /** A tier with no requests leaves Pass 1 where it was. */
  lemma QuietTier(t: string)
    requires TierRequests(P, "BIB9", t) == []
    requires SectionPlacement.Booked(P, R, Bound)
    ensures SectionPlacement.TierStep(Bound, P, R, t, ["BIB9"]) == Bound
  {
    assert SectionPlacement.CourseStep(Bound, P, R, t, "BIB9").0 == Bound;
  }

  /** The last tiers of Pass 1 change nothing. */
  lemma PassLast()
    requires SectionPlacement.Booked(P, R, Bound)
    ensures SectionPlacement.Pass(Bound, P, R, ["Recommended"]) == Bound
  {
    Tiers();
    QuietTier("Recommended");
  }

  lemma PassLastTwo()
    requires SectionPlacement.Booked(P, R, Bound)
    ensures SectionPlacement.Pass(Bound, P, R, ["Requested", "Recommended"]) == Bound
  {
    Tiers();
    QuietTier("Requested");
    PassLast();
    assert ["Requested", "Recommended"][1..] == ["Recommended"];
  }

  /** Pass 1 over all tiers ends in `Bound`. */
  lemma Pass1()
    ensures SectionPlacement.Booked(P, R, Start)
    ensures forall t :: t in PriorityOrder ==> SectionPlacement.Divisible(P, R, t, P.order)
    ensures SectionPlacement.Pass(Start, P, R, PriorityOrder) == Bound
  {
    StartBooked();
    RequiredTier();
    BoundBooked();
    PassLastTwo();
    assert PriorityOrder[1..] == ["Requested", "Recommended"];
  }

  /** The states after the first, the second and the third request of Pass 2. */
  const Seated1 := Bound.(students := map["s1" := map["1A" := S1]], rosters := map[S1 := ["s1"]], resolved := [Q1])
  const Seated2 := Bound.(students := map["s1" := map["1A" := S1], "s2" := map["1A" := S1]],
                          rosters := map[S1 := ["s1", "s2"]], resolved := [Q1, Q2])
  const Final := Seated2.(unresolved := [Q3])

  /** The state after Pass 1 keeps the Pass 2 invariant. */
  lemma BoundEnrolled()
    ensures StudentPlacement.Enrolled(P, R, Bound)
  {
    assert SumOver(Bound.rosters, StudentPlacement.Size()) == 0;
    assert SumOver(Bound.students, Entries()) == 0;
  }

  /** The first student is seated in section 1 at 1A. */
  lemma SeatFirst()
    ensures StudentPlacement.PlaceRequest(Bound, P, R, "BIB9", Q1) == Seated1
  {
    assert Detail(P, R, "BIB9") == D;
    assert StudentPlacement.Qualifies(Bound, S1, "s1", 2);
    var st1 := StudentPlacement.Look(Bound, S1, "s1", 2);
    assert st1 == Bound.(rosters := map[S1 := []], students := map["s1" := map[]]);
    assert StudentPlacement.TrySections(Bound, "BIB9", "s1", 1, 1, 2) == (StudentPlacement.Seat(st1, S1, "s1"), Some(1));
    assert StudentPlacement.Seat(st1, S1, "s1").students == Seated1.students;
    assert StudentPlacement.RosterOf(st1, S1) + ["s1"] == ["s1"];
  }

  /** The state after the second student's empty timetable is read. */
  const Looked2 := Seated1.(students := map["s1" := map["1A" := S1], "s2" := map[]])

  /** Section 1 still has room and 1A is free for the second student. */
  lemma LookSecond()
    ensures StudentPlacement.Qualifies(Seated1, S1, "s2", 2)
    ensures StudentPlacement.Look(Seated1, S1, "s2", 2) == Looked2
  {
    assert "s2" !in Seated1.students;
    assert Touch(Seated1.students, "s2", map[]) == Looked2.students;
  }

  /** The second student is seated in section 1. */
  lemma TrySecond()
    ensures StudentPlacement.TrySections(Seated1, "BIB9", "s2", 1, 1, 2) == (Seated2.(resolved := [Q1]), Some(1))
  {
    LookSecond();
    var seated := StudentPlacement.Seat(Looked2, S1, "s2");
    assert StudentPlacement.TrySections(Seated1, "BIB9", "s2", 1, 1, 2) == (seated, Some(1));
    assert seated.students == Seated2.students;
    assert StudentPlacement.RosterOf(Looked2, S1) + ["s2"] == ["s1", "s2"];
    assert seated.rosters == Seated2.rosters;
  }

  lemma SeatSecond()
    ensures StudentPlacement.PlaceRequest(Seated1, P, R, "BIB9", Q2) == Seated2
  {
    assert Detail(P, R, "BIB9") == D;
    TrySecond();
  }

  /** The section is full, so the third request is unresolved. */
  lemma TurnAwayThird()
    ensures StudentPlacement.PlaceRequest(Seated2, P, R, "BIB9", Q3) == Final
  {
    assert Detail(P, R, "BIB9") == D;
    assert !StudentPlacement.Qualifies(Seated2, S1, "s3", 2);
    assert StudentPlacement.Look(Seated2, S1, "s3", 2) == Seated2;
    assert StudentPlacement.TrySections(Seated2, "BIB9", "s3", 1, 1, 2) == (Seated2, None);
  }

  /** The intermediate states of Pass 2 keep its invariant. */
  lemma SeatedEnrolled()
    ensures StudentPlacement.Enrolled(P, R, Seated1)
    ensures StudentPlacement.Enrolled(P, R, Seated2)
  {
    BoundEnrolled();
    SeatFirst();
    StudentPlacement.PlaceRequestEnrolled(Bound, P, R, "BIB9", Q1);
    SeatSecond();
    StudentPlacement.PlaceRequestEnrolled(Seated1, P, R, "BIB9", Q2);
  }

  /** Placing a non-empty list places its head first. */
  lemma PlaceHead(st: Schedule, c: string, reqs: seq<Request>)
    requires StudentPlacement.Enrolled(P, R, st) && reqs != []
    ensures StudentPlacement.Enrolled(P, R, StudentPlacement.PlaceRequest(st, P, R, c, reqs[0]))
    ensures StudentPlacement.PlaceRequests(st, P, R, c, reqs) ==
              StudentPlacement.PlaceRequests(StudentPlacement.PlaceRequest(st, P, R, c, reqs[0]), P, R, c, reqs[1..])
  {
    StudentPlacement.PlaceRequestEnrolled(st, P, R, c, reqs[0]);
  }

  /** Placing no requests changes nothing. */
  lemma PlaceNone(st: Schedule, c: string)
    requires StudentPlacement.Enrolled(P, R, st)
    ensures StudentPlacement.PlaceRequests(st, P, R, c, []) == st
  {
  }

  /** The state after the last request keeps the Pass 2 invariant. */
  lemma FinalEnrolled()
    requires StudentPlacement.Enrolled(P, R, Seated2)
    ensures StudentPlacement.Enrolled(P, R, Final)
  {
    TurnAwayThird();
    StudentPlacement.PlaceRequestEnrolled(Seated2, P, R, "BIB9", Q3);
  }

  /** Placing a single request is placing it on its own. */
  lemma PlaceOne(st: Schedule, c: string, req: Request)
    requires StudentPlacement.Enrolled(P, R, st)
    ensures StudentPlacement.PlaceRequests(st, P, R, c, [req]) == StudentPlacement.PlaceRequest(st, P, R, c, req)
  {
    PlaceHead(st, c, [req]);
    PlaceNone(StudentPlacement.PlaceRequest(st, P, R, c, req), c);
    assert [req][1..] == [];
  }

  /** The three requests placed in order, from the last backwards. */
  lemma PlaceLast()
    requires StudentPlacement.Enrolled(P, R, Seated2)
    ensures StudentPlacement.Enrolled(P, R, Final)
    ensures StudentPlacement.PlaceRequests(Seated2, P, R, "BIB9", [Q3]) == Final
  {
    FinalEnrolled();
    TurnAwayThird();
    PlaceOne(Seated2, "BIB9", Q3);
  }

  lemma PlaceLastTwo()
    requires StudentPlacement.Enrolled(P, R, Seated1) && StudentPlacement.Enrolled(P, R, Seated2)
    ensures StudentPlacement.PlaceRequests(Seated1, P, R, "BIB9", [Q2, Q3]) == Final
  {
    SeatSecond();
    PlaceHead(Seated1, "BIB9", [Q2, Q3]);
    PlaceLast();
    assert [Q2, Q3][1..] == [Q3];
  }

  lemma PlaceAll()
    ensures StudentPlacement.Enrolled(P, R, Bound) && StudentPlacement.Enrolled(P, R, Final)
    ensures StudentPlacement.PlaceRequests(Bound, P, R, "BIB9", [Q1, Q2, Q3]) == Final
  {
    BoundEnrolled();
    SeatedEnrolled();
    PlaceLast();
    SeatFirst();
    PlaceHead(Bound, "BIB9", [Q1, Q2, Q3]);
    PlaceLastTwo();
    assert [Q1, Q2, Q3][1..] == [Q2, Q3];
  }

  /** A tier over a single course places that course's requests of the tier. */
  lemma TierOfOne(st: Schedule, t: string, c: string)
    requires StudentPlacement.Enrolled(P, R, st)
    ensures StudentPlacement.TierStep(st, P, R, t, [c]) ==
              StudentPlacement.PlaceRequests(st, P, R, c, TierRequests(P, c, t))
  {
    var st1 := StudentPlacement.PlaceRequests(st, P, R, c, TierRequests(P, c, t));
    assert [c][1..] == [];
    assert StudentPlacement.TierStep(st1, P, R, t, []) == st1;
  }

  /** The Required tier of Pass 2 places all three requests. */
  lemma RequiredSeats()
    requires StudentPlacement.Enrolled(P, R, Bound)
    ensures StudentPlacement.TierStep(Bound, P, R, "Required", ["BIB9"]) == Final
  {
    PlaceAll();
    Tiers();
    TierOfOne(Bound, "Required", "BIB9");
  }

  /** A tier with no requests leaves Pass 2 where it was. */
  lemma QuietSeats(t: string)
    requires TierRequests(P, "BIB9", t) == []
    requires StudentPlacement.Enrolled(P, R, Final)
    ensures StudentPlacement.TierStep(Final, P, R, t, ["BIB9"]) == Final
  {
    TierOfOne(Final, t, "BIB9");
  }

  /** The last tiers of Pass 2 change nothing. */
  lemma SeatLast()
    requires StudentPlacement.Enrolled(P, R, Final)
    ensures StudentPlacement.Pass(Final, P, R, ["Recommended"]) == Final
  {
    Tiers();
    QuietSeats("Recommended");
  }

  lemma SeatLastTwo()
    requires StudentPlacement.Enrolled(P, R, Final)
    ensures StudentPlacement.Pass(Final, P, R, ["Requested", "Recommended"]) == Final
  {
    Tiers();
    QuietSeats("Requested");
    SeatLast();
    assert ["Requested", "Recommended"][1..] == ["Recommended"];
  }

  /** Pass 2 over all tiers ends in `Final`. */
  lemma Pass2()
    ensures StudentPlacement.Enrolled(P, R, Bound)
    ensures StudentPlacement.Pass(Bound, P, R, PriorityOrder) == Final
  {
    PlaceAll();
    RequiredSeats();
    SeatLastTwo();
    assert PriorityOrder[1..] == ["Requested", "Recommended"];
  }

  /** The whole allocator on this data: the single section is bound to the
      first block, the first two students are seated in it and the third is
      turned away because the section is full. */
  lemma Generated()
    ensures Scheduler.Divisible(P, R)
    ensures Scheduler.GenerateSchedule(P, R) == Final
    ensures Scheduler.GenerateSchedule(P, R).sectionBlocks == map[S1 := "1A"]
    ensures Scheduler.GenerateSchedule(P, R).resolved == [Q1, Q2]
    ensures Scheduler.GenerateSchedule(P, R).unresolved == [Q3]
  {
    Pass1();
    Pass2();
  }

  /** The metrics of the example: two of three requests resolved, and section 1
      filled to capacity. */
  lemma Analysed()
    ensures Analysis.Satisfaction(|Final.resolved|, |Final.unresolved|) * 3.0 == 200.0
    ensures Analysis.FillRates(Final.rosters, P.details)[S1] == Analysis.Fill(2, 2, 100.0)
  {
    assert |Final.resolved| == 2 && |Final.unresolved| == 1;
    assert |Final.rosters[S1]| == 2;
  }
}
