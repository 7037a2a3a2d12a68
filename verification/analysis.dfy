/** The quality metrics of milestone2.py (`analyze_schedule`), with the
    ratios as exact reals: satisfaction, per-Type counts of resolved requests,
    section fill rates and the average timetable sizes. */
module Analysis {
  import opened Collections
  import opened Records
  import opened Rules
  import opened Preprocess
  import opened Allocation
  import StudentPlacement

  // ------------------------------------------------------------------ satisfaction

  /** Percentage of requests resolved; 100 when there were none. */
  function Satisfaction(resolved: nat, unresolved: nat): (r: real)
    ensures resolved + unresolved == 0 ==> r == 100.0
    ensures resolved + unresolved > 0 ==> r * (resolved + unresolved) as real == 100.0 * resolved as real
    ensures 0.0 <= r <= 100.0
  {
    var total := resolved + unresolved;
    if total > 0 then resolved as real / total as real * 100.0 else 100.0
  }

  // ------------------------------------------------------------------ request types

  /** `req.get('Type', 'Unknown')`. */
  function TypeName(): Request -> string {
    (r: Request) => r.kind.GetOr("Unknown")
  }

  /** The Type names of some requests. */
  function TypesOf(reqs: seq<Request>): set<string> {
    set r | r in reqs :: TypeName()(r)
  }

  /** `request_types[t] = request_types.get(t, 0)` for each request in turn. */
  function TouchTypes(m: map<string, nat>, reqs: seq<Request>): (r: map<string, nat>)
    ensures r.Keys == m.Keys + TypesOf(reqs)
    ensures forall t :: t in m ==> r[t] == m[t]
    ensures forall t :: t in r && t !in m ==> r[t] == 0
    decreases |reqs|
  {
    if reqs == [] then m
    else
      var r := TouchTypes(Touch(m, TypeName()(reqs[0]), 0), reqs[1..]);
      assert reqs == [reqs[0]] + reqs[1..];
      assert TypesOf(reqs) == {TypeName()(reqs[0])} + TypesOf(reqs[1..]);
      r
  }

  /** `request_types`: resolved requests counted per Type, then the Types of
      unresolved requests added with what they already have. */
  function RequestTypes(resolved: seq<Request>, unresolved: seq<Request>): map<string, nat> {
    TouchTypes(Tally(resolved, TypeName()), unresolved)
  }

  /** A Type is a key exactly when some request of either list carries it,
      and its count is the number of resolved requests that carry it. */
  lemma RequestTypesCounts(resolved: seq<Request>, unresolved: seq<Request>, t: string)
    ensures t in RequestTypes(resolved, unresolved) <==>
              (exists i :: 0 <= i < |resolved| && TypeName()(resolved[i]) == t) ||
              (exists i :: 0 <= i < |unresolved| && TypeName()(unresolved[i]) == t)
    ensures t in RequestTypes(resolved, unresolved) ==>
              RequestTypes(resolved, unresolved)[t] == Count(resolved, HasKey(TypeName(), t))
  {
    TallyCounts(resolved, TypeName(), t);
    var m := Tally(resolved, TypeName());
    var r := RequestTypes(resolved, unresolved);
    if exists i :: 0 <= i < |unresolved| && TypeName()(unresolved[i]) == t {
      var i :| 0 <= i < |unresolved| && TypeName()(unresolved[i]) == t;
      assert unresolved[i] in unresolved;
    }
    if t in TypesOf(unresolved) {
      var x :| x in unresolved && TypeName()(x) == t;
      var i :| 0 <= i < |unresolved| && unresolved[i] == x;
    }
  }

  // ------------------------------------------------------------------ fill rates

  /** One entry of `section_fill_rates`. */
  datatype Fill = Fill(students: nat, capacity: int, rate: real)

  /** Percentage of a section's places taken; 0 when the capacity is not positive. */
  function FillRate(students: nat, capacity: int): (r: real)
    ensures capacity > 0 ==> r * capacity as real == 100.0 * students as real
    ensures capacity <= 0 ==> r == 0.0
  {
    if capacity > 0 then students as real / capacity as real * 100.0 else 0.0
  }

  /** `section_fill_rates`: one entry per roster of a course with details. */
  function FillRates(rosters: map<SectionRef, seq<string>>, details: map<string, CourseDetail>): (r: map<SectionRef, Fill>)
    ensures forall ref :: ref in r <==> ref in rosters && ref.code in details
    ensures forall ref :: ref in r ==>
              r[ref].students == |rosters[ref]| && r[ref].capacity == details[ref.code].maxSize
    ensures forall ref :: ref in r ==> r[ref].rate == FillRate(r[ref].students, r[ref].capacity)
  {
    map ref | ref in rosters && ref.code in details ::
      Fill(|rosters[ref]|, details[ref.code].maxSize, FillRate(|rosters[ref]|, details[ref.code].maxSize))
  }

  /** In a schedule that keeps the Pass 2 invariant, no section is filled past 100%. */
  lemma FillRatesBounded(p: Prepared, rules: RuleSet, st: Schedule, ref: SectionRef)
    requires StudentPlacement.Enrolled(p, rules, st)
    requires ref in FillRates(st.rosters, p.details)
    ensures 0.0 <= FillRates(st.rosters, p.details)[ref].rate <= 100.0
  {
    var f := FillRates(st.rosters, p.details)[ref];
    assert Detail(p, rules, ref.code) == p.details[ref.code];
    if f.capacity > 0 {
      assert f.students <= f.capacity;
      assert f.rate * f.capacity as real <= 100.0 * f.capacity as real;
    }
  }

  // ------------------------------------------------------------------ averages

  /** `avg` is the mean number of entries per timetable of `m`, 0 when there are none. */
  ghost predicate MeanEntries(m: map<string, map<Block, SectionRef>>, avg: real) {
    && (|m| == 0 ==> avg == 0.0)
    && (|m| > 0 ==> avg * |m| as real == SumOver(m, Entries()) as real)
  }

  method AverageEntries(m: map<string, map<Block, SectionRef>>) returns (avg: real)
    ensures MeanEntries(m, avg)
  {
    var total: nat := 0;
    var left := m.Keys;
    while left != {}
      invariant left <= m.Keys
      invariant total + SumKeys(m, left, Entries()) == SumOver(m, Entries())
      decreases left
    {
      var who :| who in left;
      SumKeysRemove(m, left, who, Entries());
      total := total + |m[who]|;
      left := left - {who};
    }
    if |m| > 0 {
      avg := total as real / |m| as real;
    } else {
      avg := 0.0;
    }
  }

  /** The metrics of one schedule. */
  datatype Report = Report(
    satisfaction: real,
    requestTypes: map<string, nat>,
    fillRates: map<SectionRef, Fill>,
    perStudent: real,
    perTeacher: real)

  /** `analyze_schedule`: the report's fields are the metrics above, computed
      on the finished schedule. What they amount to under the Pass 2 invariant
      is stated by `FillRatesBounded` and `PerStudentIsResolved`. */
  method AnalyzeSchedule(st: Schedule, p: Prepared, rules: RuleSet) returns (r: Report)
    ensures r.satisfaction == Satisfaction(|st.resolved|, |st.unresolved|)
    ensures r.requestTypes == RequestTypes(st.resolved, st.unresolved)
    ensures r.fillRates == FillRates(st.rosters, p.details)
    ensures MeanEntries(st.students, r.perStudent)
    ensures MeanEntries(st.teachers, r.perTeacher)
  {
    var perStudent := AverageEntries(st.students);
    var perTeacher := AverageEntries(st.teachers);
    r := Report(Satisfaction(|st.resolved|, |st.unresolved|), RequestTypes(st.resolved, st.unresolved),
                FillRates(st.rosters, p.details), perStudent, perTeacher);
  }

  /** In a schedule that keeps the Pass 2 invariant, the average number of
      courses per student times the number of students is the number of
      resolved requests. */
  lemma PerStudentIsResolved(p: Prepared, rules: RuleSet, st: Schedule, r: Report)
    requires StudentPlacement.Enrolled(p, rules, st)
    requires MeanEntries(st.students, r.perStudent)
    ensures r.perStudent * |st.students| as real == |st.resolved| as real
  {
    if |st.students| == 0 {
      SumKeysZero(st.students, st.students.Keys, Entries());
    }
  }
}
