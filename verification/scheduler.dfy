/** `generate_schedule` (milestone2.py) end to end: Pass 1 binds sections to
    blocks and books lecturers, Pass 2 seats students; and the guarantees the
    two passes give together. */
module Scheduler {
  import opened Collections
  import opened Records
  import opened Rules
  import opened Preprocess
  import opened Allocation
  import SectionPlacement
  import StudentPlacement

  /** Pass 1 divides by the `max_size` of every course that has a request of some tier. */
  predicate Divisible(p: Prepared, rules: RuleSet) {
    forall t :: t in rules.priorityOrder ==> SectionPlacement.Divisible(p, rules, t, p.order)
  }

  lemma StartInvariants(p: Prepared, rules: RuleSet)
    ensures SectionPlacement.Booked(p, rules, Start)
    ensures StudentPlacement.Enrolled(p, rules, Start)
  {
  }

  /** Lecturer bookings are a property of the teacher timetables and the
      section blocks alone. */
  lemma BookedFields(p: Prepared, rules: RuleSet, a: Schedule, b: Schedule)
    requires SectionPlacement.Booked(p, rules, a)
    requires b.teachers == a.teachers && b.sectionBlocks == a.sectionBlocks
    ensures SectionPlacement.Booked(p, rules, b)
  {
  }

  /** Both passes, over the tiers of the rule set, from an empty state. The
      result has every lecturer booked where their sections are, every student
      seated consistently within capacity, and every request of the agenda in
      exactly one of the two outcome lists. */
  function GenerateSchedule(p: Prepared, rules: RuleSet): (r: Schedule)
    requires Divisible(p, rules)
    ensures SectionPlacement.Booked(p, rules, r)
    ensures StudentPlacement.Enrolled(p, rules, r)
    ensures multiset(r.resolved) + multiset(r.unresolved) == multiset(StudentPlacement.Agenda(p, rules.priorityOrder))
  {
    StartInvariants(p, rules);
    var st1 := SectionPlacement.Pass(Start, p, rules, rules.priorityOrder);
    assert st1.rosters == map[] && st1.students == map[] && st1.resolved == [];
    assert StudentPlacement.Enrolled(p, rules, st1) by {
      assert SumOver(st1.rosters, StudentPlacement.Size()) == 0;
    }
    var r := StudentPlacement.Pass(st1, p, rules, rules.priorityOrder);
    BookedFields(p, rules, st1, r);
    r
  }

  /** No lecturer and no student is in two places at once in the generated schedule. */
  lemma NoDoubleBooking(p: Prepared, rules: RuleSet, r1: SectionRef, r2: SectionRef)
    requires Divisible(p, rules)
    requires var r := GenerateSchedule(p, rules); r1 in r.sectionBlocks && r2 in r.sectionBlocks && r1 != r2
    ensures var r := GenerateSchedule(p, rules);
      && (LecturerOf(p, r1) == LecturerOf(p, r2) ==> r.sectionBlocks[r1] != r.sectionBlocks[r2])
      && (forall sid :: r1 in r.rosters && r2 in r.rosters && sid in r.rosters[r1] && sid in r.rosters[r2] ==>
            r.sectionBlocks[r1] != r.sectionBlocks[r2])
  {
    var r := GenerateSchedule(p, rules);
    if LecturerOf(p, r1) == LecturerOf(p, r2) {
      SectionPlacement.NoLecturerDoubleBooking(p, rules, r, r1, r2);
    }
    forall sid | r1 in r.rosters && r2 in r.rosters && sid in r.rosters[r1] && sid in r.rosters[r2]
      ensures r.sectionBlocks[r1] != r.sectionBlocks[r2]
    {
      StudentPlacement.NoStudentDoubleBooking(r, sid, r1, r2);
    }
  }

  // ------------------------------------------------------------------ the agenda

  /** A request Pass 2 handles: it has a course code and a Type among the tiers. */
  function Schedulable(tiers: seq<string>): Request -> bool {
    (r: Request) => r.code != "" && r.kind.Some? && r.kind.value in tiers
  }

  /** The per-course lists are permutations of the input requests of that course. */
  predicate Grouped(p: Prepared, reqs: seq<Request>, cs: seq<string>) {
    forall c :: c in cs ==> c in p.requests && multiset(p.requests[c]) == multiset(Filter(reqs, ForCourse(c)))
  }

  lemma {:induction false} TierAgendaCount(p: Prepared, reqs: seq<Request>, t: string, cs: seq<string>, x: Request)
    requires Distinct(cs) && Grouped(p, reqs, cs)
    ensures multiset(StudentPlacement.TierAgenda(p, t, cs))[x] ==
              if x.kind == Some(t) && x.code in cs then multiset(reqs)[x] else 0
    decreases |cs|
  {
    if cs != [] {
      var c := cs[0];
      assert Distinct(cs[1..]) && Grouped(p, reqs, cs[1..]);
      TierAgendaCount(p, reqs, t, cs[1..], x);
      FilterMultiset(p.requests[c], OfTier(t), x);
      FilterMultiset(reqs, ForCourse(c), x);
      assert x.code == c ==> x.code !in cs[1..];
      assert x.code in cs <==> x.code == c || x.code in cs[1..];
    }
  }

  lemma {:induction false} AgendaCount(p: Prepared, reqs: seq<Request>, tiers: seq<string>, x: Request)
    requires Distinct(tiers) && Distinct(p.order) && Grouped(p, reqs, p.order)
    ensures multiset(StudentPlacement.Agenda(p, tiers))[x] ==
              if x.kind.Some? && x.kind.value in tiers && x.code in p.order then multiset(reqs)[x] else 0
    decreases |tiers|
  {
    if tiers != [] {
      assert Distinct(tiers[1..]);
      AgendaCount(p, reqs, tiers[1..], x);
      TierAgendaCount(p, reqs, tiers[0], p.order, x);
      assert x.kind == Some(tiers[0]) ==> x.kind.value !in tiers[1..];
      assert x.kind.Some? && x.kind.value in tiers <==> x.kind == Some(tiers[0]) || (x.kind.Some? && x.kind.value in tiers[1..]);
    }
  }

  /** The requests Pass 2 handles are, up to order, exactly the input requests
      with a course code and a Type among the three tiers. */
  lemma PreparedAgenda(courses: seq<CourseRecord>, listings: seq<Listing>, reqs: seq<Request>, rules: RuleSet)
    requires rules.priorityOrder == PriorityOrder
    ensures multiset(StudentPlacement.Agenda(Prepare(courses, listings, reqs, rules), rules.priorityOrder)) ==
              multiset(Filter(reqs, Schedulable(PriorityOrder)))
  {
    var p := Prepare(courses, listings, reqs, rules);
    PrepareRequests(courses, listings, reqs, rules);
    PreparedGrouped(p, reqs);
    forall x
      ensures multiset(StudentPlacement.Agenda(p, PriorityOrder))[x] == multiset(Filter(reqs, Schedulable(PriorityOrder)))[x]
    {
      AgendaPoint(p, reqs, x);
    }
  }

  lemma PreparedGrouped(p: Prepared, reqs: seq<Request>)
    requires Elems(p.order) == p.requests.Keys
    requires forall c :: c in p.requests ==> multiset(p.requests[c]) == multiset(Filter(reqs, ForCourse(c)))
    ensures Grouped(p, reqs, p.order)
  {
    forall c | c in p.order
      ensures c in p.requests && multiset(p.requests[c]) == multiset(Filter(reqs, ForCourse(c)))
    {
      assert c in Elems(p.order);
    }
  }

  /** How often one request occurs in the agenda of prepared data. */
  lemma AgendaPoint(p: Prepared, reqs: seq<Request>, x: Request)
    requires Distinct(p.order) && Elems(p.order) == p.requests.Keys && Grouped(p, reqs, p.order)
    requires forall c :: c in p.requests <==> c != "" && exists i :: 0 <= i < |reqs| && reqs[i].code == c
    ensures multiset(StudentPlacement.Agenda(p, PriorityOrder))[x] == multiset(Filter(reqs, Schedulable(PriorityOrder)))[x]
  {
    AgendaCount(p, reqs, PriorityOrder, x);
    FilterMultiset(reqs, Schedulable(PriorityOrder), x);
    if x.code != "" && x in reqs {
      var i :| 0 <= i < |reqs| && reqs[i] == x;
      assert x.code in p.requests;
      assert x.code in Elems(p.order);
    } else if x.code in p.order {
      assert x.code in Elems(p.order);
    }
  }

  /** The data loader's tables passed through every stage of milestone2.py. */
  function Run(courses: seq<CourseRecord>, listings: seq<Listing>, reqs: seq<Request>): (r: Schedule)
    requires Divisible(Prepare(courses, listings, reqs, ExtractRules(courses)), ExtractRules(courses))
    ensures multiset(r.resolved) + multiset(r.unresolved) == multiset(Filter(reqs, Schedulable(PriorityOrder)))
    ensures |r.resolved| + |r.unresolved| == Count(reqs, Schedulable(PriorityOrder))
  {
    var rules := ExtractRules(courses);
    var r := GenerateSchedule(Prepare(courses, listings, reqs, rules), rules);
    PreparedAgenda(courses, listings, reqs, rules);
    assert |multiset(r.resolved) + multiset(r.unresolved)| == |r.resolved| + |r.unresolved|;
    r
  }
}
