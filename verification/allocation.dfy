/** The state the two-pass allocator of milestone2.py (`generate_schedule`)
    threads through its loops, and the lookups both passes make. */
module Allocation {
  import opened Collections
  import opened Records
  import opened Rules
  import opened Preprocess

  /** The allocator's state. A personal timetable maps a block to the section
      held there (the source stores the "<code> (Section <n>)" text of that
      section). Keys read through a defaultdict are present with an empty value. */
  datatype Schedule = Schedule(
    students: map<string, map<Block, SectionRef>>,   // student_schedule
    teachers: map<string, map<Block, SectionRef>>,   // teacher_schedule
    rosters: map<SectionRef, seq<string>>,           // section_assignments
    sectionBlocks: map<SectionRef, Block>,           // section_blocks
    resolved: seq<Request>,
    unresolved: seq<Request>)

  const Start := Schedule(map[], map[], map[], map[], [], [])

  /** `course_details.get(code, {})` read with the defaults of the allocator,
      which are those of the preprocessor. */
  function Detail(p: Prepared, rules: RuleSet, c: string): CourseDetail {
    if c in p.details then p.details[c]
    else DetailOf(CourseRecord(c, None, None, None, None, None, None, None, None, None), rules.allBlocks)
  }

  /** `course_to_lecturer.get(key, f"unknown_{code}")`: the placeholder is an
      ordinary lecturer id, so it coincides with a real id of the same text. */
  function LecturerOf(p: Prepared, ref: SectionRef): string {
    if ref in p.lecturers then p.lecturers[ref] else "unknown_" + ref.code
  }

  /** The requests of course `c` whose Type is exactly the tier `t`, in sorted order. */
  function TierRequests(p: Prepared, c: string, t: string): seq<Request> {
    Filter(if c in p.requests then p.requests[c] else [], OfTier(t))
  }

  /** The timetable of a student or lecturer; a missing key reads as empty. */
  function Held(m: map<string, map<Block, SectionRef>>, who: string): map<Block, SectionRef> {
    if who in m then m[who] else map[]
  }

  /** The number of entries of a timetable. */
  function Entries(): map<Block, SectionRef> -> nat {
    (t: map<Block, SectionRef>) => |t|
  }

  /** No existing entry of a timetable is removed or replaced. */
  predicate Extends(before: map<string, map<Block, SectionRef>>, after: map<string, map<Block, SectionRef>>) {
    forall who, b :: who in before && b in before[who] ==>
      who in after && b in after[who] && after[who][b] == before[who][b]
  }

  lemma ExtendsTransitive(a: map<string, map<Block, SectionRef>>, b: map<string, map<Block, SectionRef>>,
                          c: map<string, map<Block, SectionRef>>)
    requires Extends(a, b) && Extends(b, c)
    ensures Extends(a, c)
  {
  }
}
