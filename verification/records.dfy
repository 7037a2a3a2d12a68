/** The records the scheduler consumes, as delivered by the data loader, and the
    structured section key that replaces the source's `f"{code}_{section}"`
    strings. Text fields use "" for a key that is missing or holds a falsy
    value. The allocator reads them with a default and tests them for
    truthiness, so nothing is lost there; the validation checks index some of
    them directly, and their KeyError on a missing key is not modelled. */
module Records {
  import opened Collections

  /** A time-table slot label such as "2A". */
  type Block = string

  /** One row of the student-requests table. */
  datatype Request = Request(
    studentId: string,     // 'student ID'
    year: string,          // 'College Year'
    code: string,          // 'Course code'
    kind: Option<string>)  // 'Type': None when the key is absent

  /** One row of the course-characteristics table; every field but the code may be absent. */
  datatype CourseRecord = CourseRecord(
    code: string,
    title: Option<string>,
    length: Option<int>,
    priority: Option<int>,
    availableBlocks: Option<seq<Block>>,
    unavailableBlocks: Option<seq<Block>>,
    minSize: Option<int>,
    targetSize: Option<int>,
    maxSize: Option<int>,
    numSections: Option<int>)

  /** One row of the lecturer table: who teaches which section of which course. */
  datatype Listing = Listing(lecturerId: string, code: string, section: Option<int>)

  /** A course record with every default filled in. */
  datatype CourseDetail = CourseDetail(
    title: string,
    length: int,
    priority: int,
    available: seq<Block>,
    unavailable: seq<Block>,
    minSize: int,
    targetSize: int,
    maxSize: int,
    numSections: int)

  /** A section of a course: the key of the section maps, and the
      "<code> (Section <n>)" descriptor stored in personal schedules. */
  datatype SectionRef = SectionRef(code: string, num: int)

  /** Requests whose Type is exactly `t` (a missing Type matches no tier). */
  function OfTier(t: string): Request -> bool {
    (r: Request) => r.kind == Some(t)
  }

  /** Requests for course `c`. */
  function ForCourse(c: string): Request -> bool {
    (r: Request) => r.code == c
  }
}
