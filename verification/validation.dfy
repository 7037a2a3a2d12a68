/** The counting checks of milestone1.py (`validate_data`): the tally of
    request Types, the required-course coverage of each college year, the
    declared courses nobody requested, and demand against capacity. The
    source reads these fields with `[...]`, so a missing one is an error
    there; the checks below require them. */
module Validation {
  import opened Collections
  import opened Text
  import opened Records

  // ------------------------------------------------------------------ request types

  /** Every request carries a Type, as `req['Type']` demands. */
  predicate Typed(reqs: seq<Request>) {
    forall i :: 0 <= i < |reqs| ==> reqs[i].kind.Some?
  }

  /** `request_types`: how many requests carry each Type. */
  function TypeTally(reqs: seq<Request>): map<Option<string>, nat>
    requires Typed(reqs)
  {
    Tally(reqs, (r: Request) => r.kind)
  }

  /** A Type is tallied exactly when some request carries it, its count is the
      number of requests of that tier, and the counts add up to the number of
      requests. */
  lemma TypeTallyCounts(reqs: seq<Request>, t: string)
    requires Typed(reqs)
    ensures Some(t) in TypeTally(reqs) <==> exists i :: 0 <= i < |reqs| && reqs[i].kind == Some(t)
    ensures Some(t) in TypeTally(reqs) ==> TypeTally(reqs)[Some(t)] == Count(reqs, OfTier(t))
    ensures None !in TypeTally(reqs)
    ensures SumOver(TypeTally(reqs), Identity()) == |reqs|
  {
    var key := (r: Request) => r.kind;
    TallyCounts(reqs, key, Some(t));
    TallyCounts(reqs, key, None);
    FilterCongruent(reqs, HasKey(key, Some(t)), OfTier(t));
    TallyTotal(reqs, key);
  }

  // ------------------------------------------------------------------ demand

  /** `demand_by_course`: the number of requests for each course code. */
  function DemandByCourse(reqs: seq<Request>): map<string, nat> {
    Tally(reqs, (r: Request) => r.code)
  }

  /** `demand_by_course.get(code, 0)`. */
  function Demand(reqs: seq<Request>, c: string): nat {
    var m := DemandByCourse(reqs);
    if c in m then m[c] else 0
  }

  /** The demand of a course is the number of requests for it. */
  lemma DemandCounts(reqs: seq<Request>, c: string)
    ensures Demand(reqs, c) == Count(reqs, ForCourse(c))
    ensures c in DemandByCourse(reqs) <==> exists i :: 0 <= i < |reqs| && reqs[i].code == c
  {
    var key := (r: Request) => r.code;
    TallyCounts(reqs, key, c);
    FilterCongruent(reqs, HasKey(key, c), ForCourse(c));
  }

  /** The outcome of the demand-versus-capacity check of one course. */
  datatype Verdict = OverSubscribed | UnderSubscribed | NoDemand | Balanced

  /** The check for a course with `demand` requests, `sections` sections and
      room for `maxSize` each; "under" means below half the capacity. */
  function Classify(demand: nat, sections: int, maxSize: int): (v: Verdict)
    ensures var capacity := sections * maxSize;
      && (v == OverSubscribed <==> demand > capacity)
      && (v == UnderSubscribed <==> demand <= capacity && 0 < demand && 2 * demand < capacity)
      && (v == NoDemand <==> demand == 0 && capacity >= 0 && sections > 0)
  {
    var capacity := sections * maxSize;
    if demand > capacity then OverSubscribed
    else if 2 * demand < capacity && demand > 0 then UnderSubscribed
    else if demand == 0 && sections > 0 then NoDemand
    else Balanced
  }

  /** Both size fields are present, as `course[...]` demands. */
  predicate Sized(courses: seq<CourseRecord>) {
    forall i :: 0 <= i < |courses| ==> courses[i].numSections.Some? && courses[i].maxSize.Some?
  }

  /** The verdict for every course, in table order. */
  function DemandReport(courses: seq<CourseRecord>, reqs: seq<Request>): (r: seq<(string, Verdict)>)
    requires Sized(courses)
    ensures |r| == |courses|
    ensures forall i :: 0 <= i < |r| ==>
              && r[i].0 == courses[i].code
              && r[i].1 == Classify(Demand(reqs, courses[i].code), courses[i].numSections.value, courses[i].maxSize.value)
    decreases |courses|
  {
    if courses == [] then []
    else
      var c := courses[0];
      [(c.code, Classify(Demand(reqs, c.code), c.numSections.value, c.maxSize.value))] + DemandReport(courses[1..], reqs)
  }

  // ------------------------------------------------------------------ required courses

  /** The required course of each college year, in the order they are checked. */
  const RequiredByYear: seq<(string, string)> :=
    [("1st Year", "BIB9"), ("2nd Year", "BIB10"), ("3rd Year", "BIB11"), ("4th Year", "BIB12")]

  /** The distinct student ids of a college year. */
  function StudentsOf(reqs: seq<Request>, year: string): set<string> {
    set i | 0 <= i < |reqs| && reqs[i].year == year :: reqs[i].studentId
  }

  /** Required requests of a year for its course. */
  function RequiredFor(year: string, c: string): Request -> bool {
    (r: Request) => r.year == year && r.code == c && r.kind == Some("Required")
  }

  /** A shortfall of the required course of a year: fewer Required requests
      than students. */
  datatype Shortfall = Shortfall(year: string, code: string, requested: nat, students: nat)

  function Shortfalls(reqs: seq<Request>, years: seq<(string, string)>): (r: seq<Shortfall>)
    ensures forall s :: s in r <==>
              exists k :: 0 <= k < |years| && s.year == years[k].0 && s.code == years[k].1 &&
                s.requested == Count(reqs, RequiredFor(years[k].0, years[k].1)) &&
                s.students == |StudentsOf(reqs, years[k].0)| && s.requested < s.students
    decreases |years|
  {
    if years == [] then []
    else
      var (year, c) := years[0];
      var n := Count(reqs, RequiredFor(year, c));
      var total := |StudentsOf(reqs, year)|;
      var rest := Shortfalls(reqs, years[1..]);
      assert forall k :: 1 <= k < |years| ==> years[k] == years[1..][k - 1];
      if n < total then [Shortfall(year, c, n, total)] + rest else rest
  }

  /** Every year whose required course has fewer Required requests than the
      year has students is reported, and only such years. */
  lemma ShortfallReported(reqs: seq<Request>, k: nat)
    requires k < |RequiredByYear|
    ensures var (year, c) := RequiredByYear[k];
      (exists s :: s in Shortfalls(reqs, RequiredByYear) && s.year == year) <==>
        Count(reqs, RequiredFor(year, c)) < |StudentsOf(reqs, year)|
  {
    var (year, c) := RequiredByYear[k];
    var r := Shortfalls(reqs, RequiredByYear);
    if Count(reqs, RequiredFor(year, c)) < |StudentsOf(reqs, year)| {
      assert Shortfall(year, c, Count(reqs, RequiredFor(year, c)), |StudentsOf(reqs, year)|) in r;
    }
    if exists s :: s in r && s.year == year {
      var s :| s in r && s.year == year;
      var k' :| 0 <= k' < |RequiredByYear| && s.year == RequiredByYear[k'].0 && s.code == RequiredByYear[k'].1 &&
        s.requested == Count(reqs, RequiredFor(RequiredByYear[k'].0, RequiredByYear[k'].1)) &&
        s.students == |StudentsOf(reqs, RequiredByYear[k'].0)| && s.requested < s.students;
      YearsDistinct(k, k');
    }
  }

  /** Each college year appears once in the table of required courses. */
  lemma YearsDistinct(i: nat, j: nat)
    requires i < |RequiredByYear| && j < |RequiredByYear|
    requires RequiredByYear[i].0 == RequiredByYear[j].0
    ensures i == j
  {
    assert RequiredByYear[i].0[0] == RequiredByYear[j].0[0];
  }

  // ------------------------------------------------------------------ unrequested courses

  /** The declared course codes nobody requested, sorted. */
  function NoRequestCourses(courses: seq<CourseRecord>, reqs: seq<Request>): (r: seq<string>)
    ensures StrictlySorted(r)
    ensures Elems(r) == (set i | 0 <= i < |courses| :: courses[i].code) - (set i | 0 <= i < |reqs| :: reqs[i].code)
  {
    var requested := set i | 0 <= i < |reqs| :: reqs[i].code;
    var declared := seq(|courses|, i requires 0 <= i < |courses| => courses[i].code);
    var unrequested := Filter(declared, (c: string) => c !in requested);
    forall c
      ensures c in unrequested <==> c in declared && c !in requested
    {
      FilterMembers(declared, (c: string) => c !in requested, c);
    }
    assert Elems(declared) == set i | 0 <= i < |courses| :: courses[i].code by {
      forall c | c in Elems(declared)
        ensures c in set i | 0 <= i < |courses| :: courses[i].code
      {
        var i :| 0 <= i < |declared| && declared[i] == c;
      }
      forall c | c in set i | 0 <= i < |courses| :: courses[i].code
        ensures c in Elems(declared)
      {
        var i :| 0 <= i < |courses| && courses[i].code == c;
        assert declared[i] == c;
      }
    }
    SortedSet(unrequested)
  }
}
