/** The demand/supply preprocessor (milestone2.py, `preprocess_data`): the
    section-to-lecturer lookup, the course details with their defaults, and the
    requests of each course stably sorted by tier rank. */
module Preprocess {
  import opened Collections
  import opened Records
  import opened Rules
  import opened StableSort

  /** The three lookups, plus the order in which the course lookup was filled
      (the source iterates its `course_requests` dict in insertion order). */
  datatype Prepared = Prepared(
    lecturers: map<SectionRef, string>,
    details: map<string, CourseDetail>,
    order: seq<string>,
    requests: map<string, seq<Request>>)

  // ---------------------------------------------------------------- lecturers

  /** A listing names a section's lecturer when both its course code and its lecturer id are set. */
  function NamesLecturer(): Listing -> bool {
    (l: Listing) => l.code != "" && l.lecturerId != ""
  }

  /** The section a listing is about; a missing section number means section 1. */
  function ListedSection(): Listing -> SectionRef {
    (l: Listing) => SectionRef(l.code, l.section.GetOr(1))
  }

  /** `course_to_lecturer`: a section has a lecturer exactly when some complete
      listing names it, and then it is the lecturer of the last such listing. */
  function LecturerMap(listings: seq<Listing>): (m: map<SectionRef, string>)
    ensures forall ref :: ref in m <==>
              exists i :: 0 <= i < |listings| && NamesLecturer()(listings[i]) && ListedSection()(listings[i]) == ref
    ensures forall ref :: ref in m ==>
              exists i :: 0 <= i < |listings| && NamesLecturer()(listings[i]) && ListedSection()(listings[i]) == ref &&
                m[ref] == listings[i].lecturerId &&
                forall j :: i < j < |listings| ==> !(NamesLecturer()(listings[j]) && ListedSection()(listings[j]) == ref)
    ensures forall ref :: ref in m ==> ref.code != "" && m[ref] != ""
  {
    var m := LastWins(listings, NamesLecturer(), ListedSection(), (l: Listing) => l.lecturerId);
    forall ref | ref in m
      ensures ref.code != "" && m[ref] != ""
    {
      var i :| 0 <= i < |listings| && NamesLecturer()(listings[i]) && ListedSection()(listings[i]) == ref &&
        m[ref] == listings[i].lecturerId;
    }
    m
  }

  // ------------------------------------------------------------------ courses

  /** A course record with the source's defaults for absent fields; a course
      without 'Available blocks' may use every valid block. */
  function DetailOf(rec: CourseRecord, allBlocks: seq<Block>): CourseDetail {
    CourseDetail(
      rec.title.GetOr(""),
      rec.length.GetOr(4),
      rec.priority.GetOr(0),
      rec.availableBlocks.GetOr(allBlocks),
      rec.unavailableBlocks.GetOr([]),
      rec.minSize.GetOr(5),
      rec.targetSize.GetOr(20),
      rec.maxSize.GetOr(25),
      rec.numSections.GetOr(1))
  }

  /** `course_details`: a code has details exactly when some record with that
      (non-empty) code exists, and they come from the last such record. */
  function CourseDetails(courses: seq<CourseRecord>, allBlocks: seq<Block>): (m: map<string, CourseDetail>)
    ensures forall c :: c in m <==> c != "" && exists i :: 0 <= i < |courses| && courses[i].code == c
    ensures forall c :: c in m ==>
              exists i :: 0 <= i < |courses| && courses[i].code == c && m[c] == DetailOf(courses[i], allBlocks) &&
                forall j :: i < j < |courses| ==> courses[j].code != c
  {
    LastWins(courses, (rec: CourseRecord) => rec.code != "", (rec: CourseRecord) => rec.code,
             (rec: CourseRecord) => DetailOf(rec, allBlocks))
  }

  // ----------------------------------------------------------------- requests

  /** The sort key: the position of the Type in the tier order, "Recommended"
      when the Type is absent, and 999 for any other Type. */
  function Rank(kind: Option<string>): int {
    var t := kind.GetOr("Recommended");
    if t == PriorityOrder[0] then 0
    else if t == PriorityOrder[1] then 1
    else if t == PriorityOrder[2] then 2
    else 999
  }

  /** The key the requests of a course are sorted by. */
  function RankKey(): Request -> int {
    (r: Request) => Rank(r.kind)
  }

  /** The non-empty course codes of the requests, in input order. */
  function Codes(reqs: seq<Request>): seq<string>
    decreases |reqs|
  {
    if reqs == [] then []
    else
      var c := reqs[|reqs| - 1].code;
      Codes(reqs[..|reqs| - 1]) + (if c != "" then [c] else [])
  }

  /** `order` lists the course codes of `reqs` once each, in order of first
      request, and `groups` holds, for each of them, its requests in input order. */
  predicate GroupedAs(reqs: seq<Request>, order: seq<string>, groups: map<string, seq<Request>>) {
    && order == Dedup(Codes(reqs))
    && Elems(order) == groups.Keys
    && "" !in groups
    && forall c :: c in groups ==> groups[c] == Filter(reqs, ForCourse(c))
  }

  /** Lines 87-90 for one request: drop it without a code, else append it to its course's list. */
  function AddRequest(order: seq<string>, groups: map<string, seq<Request>>, r: Request): (seq<string>, map<string, seq<Request>>) {
    if r.code == "" then (order, groups)
    else if r.code in groups then (order, groups[r.code := groups[r.code] + [r]])
    else (order + [r.code], groups[r.code := [r]])
  }

  /** `course_requests` before sorting, with the insertion order of its keys:
      requests without a course code are dropped, the others are appended to
      their course's list. */
  function GroupRequests(reqs: seq<Request>): (g: (seq<string>, map<string, seq<Request>>))
    ensures GroupedAs(reqs, g.0, g.1)
    decreases |reqs|
  {
    if reqs == [] then ([], map[])
    else
      var prefix := reqs[..|reqs| - 1];
      var r := reqs[|reqs| - 1];
      var g := GroupRequests(prefix);
      GroupStep(prefix, r, g.0, g.1);
      GroupedSame(prefix + [r], reqs, AddRequest(g.0, g.1, r));
      AddRequest(g.0, g.1, r)
  }

  lemma GroupedSame(a: seq<Request>, b: seq<Request>, g: (seq<string>, map<string, seq<Request>>))
    requires GroupedAs(a, g.0, g.1) && a == b
    ensures GroupedAs(b, g.0, g.1)
  {
  }

  /** Adding one more request keeps the grouping exact. */
  lemma GroupStep(prefix: seq<Request>, r: Request, order: seq<string>, groups: map<string, seq<Request>>)
    requires GroupedAs(prefix, order, groups)
    ensures var g := AddRequest(order, groups, r); GroupedAs(prefix + [r], g.0, g.1)
  {
    var g := AddRequest(order, groups, r);
    GroupOrder(prefix, r, order, groups);
    forall c | c in g.1
      ensures g.1[c] == Filter(prefix + [r], ForCourse(c))
    {
      GroupList(prefix, r, order, groups, c);
    }
  }

  lemma GroupList(prefix: seq<Request>, r: Request, order: seq<string>, groups: map<string, seq<Request>>, c: string)
    requires GroupedAs(prefix, order, groups)
    requires c in AddRequest(order, groups, r).1
    ensures AddRequest(order, groups, r).1[c] == Filter(prefix + [r], ForCourse(c))
  {
    var g := AddRequest(order, groups, r);
    FilterSnoc(prefix, r, ForCourse(c));
    if c != r.code {
      assert g.1[c] == groups[c];
    } else if c in groups {
      assert ForCourse(c)(r);
      assert g.1[c] == groups[c] + [r];
      assert groups[c] == Filter(prefix, ForCourse(c));
    } else {
      assert c !in Elems(order);
      NoEarlierRequest(prefix, c);
    }
  }

  lemma GroupOrder(prefix: seq<Request>, r: Request, order: seq<string>, groups: map<string, seq<Request>>)
    requires order == Dedup(Codes(prefix)) && Elems(order) == groups.Keys && "" !in groups
    ensures var g := AddRequest(order, groups, r);
      g.0 == Dedup(Codes(prefix + [r])) && Elems(g.0) == g.1.Keys && "" !in g.1
  {
    CodesSnoc(prefix, r);
    if r.code == "" {
      assert Codes(prefix + [r]) == Codes(prefix);
    } else if r.code in groups {
      OrderKnown(prefix, r.code, order);
    } else {
      OrderNew(prefix, r.code, order);
    }
  }

  lemma OrderKnown(prefix: seq<Request>, c: string, order: seq<string>)
    requires order == Dedup(Codes(prefix)) && c in Elems(order)
    ensures order == Dedup(Codes(prefix) + [c])
  {
    DedupSnoc(Codes(prefix), c);
  }

  lemma OrderNew(prefix: seq<Request>, c: string, order: seq<string>)
    requires order == Dedup(Codes(prefix)) && c !in Elems(order)
    ensures order + [c] == Dedup(Codes(prefix) + [c])
    ensures Elems(order + [c]) == Elems(order) + {c}
  {
    DedupSnoc(Codes(prefix), c);
  }

  lemma CodesSnoc(prefix: seq<Request>, r: Request)
    ensures Codes(prefix + [r]) == Codes(prefix) + (if r.code != "" then [r.code] else [])
  {
    var reqs := prefix + [r];
    assert reqs[..|reqs| - 1] == prefix;
  }

  /** A course code absent from the grouped codes has no request. */
  lemma NoEarlierRequest(prefix: seq<Request>, c: string)
    requires c != "" && c !in Dedup(Codes(prefix))
    ensures Filter(prefix, ForCourse(c)) == []
  {
    CodesMembers(prefix, c);
    FilterNone(prefix, ForCourse(c));
  }

  lemma {:induction false} CodesMembers(reqs: seq<Request>, c: string)
    ensures c in Codes(reqs) <==> c != "" && exists i :: 0 <= i < |reqs| && reqs[i].code == c
    decreases |reqs|
  {
    if reqs != [] {
      CodesMembers(reqs[..|reqs| - 1], c);
      if c != "" && reqs[|reqs| - 1].code != c && exists i :: 0 <= i < |reqs| && reqs[i].code == c {
        var i :| 0 <= i < |reqs| && reqs[i].code == c;
        assert reqs[..|reqs| - 1][i].code == c;
      }
    }
  }

  /** Each course's requests, stably sorted by rank. */
  function SortGroups(groups: map<string, seq<Request>>): (m: map<string, seq<Request>>)
    ensures m.Keys == groups.Keys
    ensures forall c :: c in m ==>
              && SortedBy(m[c], RankKey())
              && multiset(m[c]) == multiset(groups[c])
  {
    map c | c in groups :: Sort(groups[c], RankKey())
  }

  /** All three lookups. */
  function Prepare(courses: seq<CourseRecord>, listings: seq<Listing>, reqs: seq<Request>, rules: RuleSet): Prepared {
    var g := GroupRequests(reqs);
    Prepared(
      LecturerMap(listings),
      CourseDetails(courses, rules.allBlocks),
      g.0,
      SortGroups(g.1))
  }

  /** The requests of each course are a permutation of the input requests with
      that course code, in non-decreasing rank, equal ranks in input order; the
      courses come in order of their first request, each once, and every
      non-empty course code that is requested is among them. */
  lemma PrepareRequests(courses: seq<CourseRecord>, listings: seq<Listing>, reqs: seq<Request>, rules: RuleSet)
    ensures var p := Prepare(courses, listings, reqs, rules);
      && Distinct(p.order)
      && Elems(p.order) == p.requests.Keys
      && (forall c :: c in p.requests <==> c != "" && exists i :: 0 <= i < |reqs| && reqs[i].code == c)
      && (forall c :: c in p.requests ==>
            && SortedBy(p.requests[c], RankKey())
            && multiset(p.requests[c]) == multiset(Filter(reqs, ForCourse(c)))
            && forall k :: Filter(p.requests[c], KeyIs(RankKey(), k)) == Filter(Filter(reqs, ForCourse(c)), KeyIs(RankKey(), k)))
  {
    var g := GroupRequests(reqs);
    GroupedCourses(reqs);
    SortedGroupsStable(reqs, g.1);
  }

  lemma GroupedCourses(reqs: seq<Request>)
    ensures var g := GroupRequests(reqs);
      && Distinct(g.0)
      && (forall c :: c in g.1 <==> c != "" && exists i :: 0 <= i < |reqs| && reqs[i].code == c)
  {
    DedupSpec(Codes(reqs));
    forall c
      ensures c in GroupRequests(reqs).1 <==> c != "" && exists i :: 0 <= i < |reqs| && reqs[i].code == c
    {
      CodesMembers(reqs, c);
    }
  }

  lemma SortedGroupsStable(reqs: seq<Request>, groups: map<string, seq<Request>>)
    requires forall c :: c in groups ==> groups[c] == Filter(reqs, ForCourse(c))
    ensures forall c, k :: c in groups ==>
              Filter(SortGroups(groups)[c], KeyIs(RankKey(), k)) == Filter(Filter(reqs, ForCourse(c)), KeyIs(RankKey(), k))
  {
    forall c, k | c in groups
      ensures Filter(SortGroups(groups)[c], KeyIs(RankKey(), k)) == Filter(Filter(reqs, ForCourse(c)), KeyIs(RankKey(), k))
    {
      SortStable(groups[c], RankKey(), k);
    }
  }
}
