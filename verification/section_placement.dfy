/** The first pass of `generate_schedule` (milestone2.py): for every tier and
    every requested course, open as many sections as the tier's demand needs
    and bind each to the first usable block, booking the section's lecturer
    there. */
module SectionPlacement {
  import opened Collections
  import opened Records
  import opened Rules
  import opened Preprocess
  import opened Allocation

  /** Python's `a // b`, which rounds toward minus infinity. */
  function FloorDiv(a: int, b: int): (q: int)
    requires b != 0
    ensures b > 0 ==> q * b <= a < q * b + b
    ensures b < 0 ==> q * b >= a > q * b + b
  {
    if b > 0 then a / b else (-a) / (-b)
  }

  /** `needed_sections` for `k` requests, sections of at most `m` students and
      at most `num` sections: the fewest sections that hold everyone, capped. */
  function Needed(k: int, m: int, num: int): (r: int)
    requires m != 0
    ensures m > 0 && k > 0 ==> r <= num && (r - 1) * m < k && (r < num ==> k <= r * m)
  {
    var q := FloorDiv(k + m - 1, m);
    if num <= q then num else q
  }

  // ------------------------------------------------------------------ one section

  /** A block the scan does not skip before looking at the lecturer: allowed
      for the course and not yet given to a section of it in this tier. */
  predicate Open(d: CourseDetail, used: set<Block>, b: Block) {
    b !in d.unavailable && b !in used
  }

  /** A block the section can take: open, and not held by its lecturer. */
  predicate Fits(d: CourseDetail, used: set<Block>, held: map<Block, SectionRef>, b: Block) {
    Open(d, used, b) && b !in held
  }

  /** The scan reaches the lecturer's timetable (and so creates it) exactly
      when some listed block is open. */
  predicate AnyOpen(d: CourseDetail, used: set<Block>) {
    exists i :: 0 <= i < |d.available| && Open(d, used, d.available[i])
  }

  /** `i` is the position of the first fitting block in the course's list. */
  predicate FirstFitting(d: CourseDetail, used: set<Block>, held: map<Block, SectionRef>, i: int) {
    && 0 <= i < |d.available|
    && Fits(d, used, held, d.available[i])
    && forall j :: 0 <= j < i ==> !Fits(d, used, held, d.available[j])
  }

  /** The scan over `avail` for the first fitting block. */
  function FirstFit(avail: seq<Block>, d: CourseDetail, used: set<Block>, held: map<Block, SectionRef>): (r: Option<nat>)
    ensures r.Some? ==> r.value < |avail| && Fits(d, used, held, avail[r.value])
    ensures r.Some? ==> forall j :: 0 <= j < r.value ==> !Fits(d, used, held, avail[j])
    ensures r.None? ==> forall j :: 0 <= j < |avail| ==> !Fits(d, used, held, avail[j])
  {
    if avail == [] then None
    else if Fits(d, used, held, avail[0]) then Some(0)
    else match FirstFit(avail[1..], d, used, held)
      case None => None
      case Some(i) => Some(i + 1)
  }

  lemma FirstFitIsFirstFitting(d: CourseDetail, used: set<Block>, held: map<Block, SectionRef>, i: int)
    ensures FirstFit(d.available, d, used, held) == Some(i) <==> FirstFitting(d, used, held, i)
  {
  }

  /** Binds section `ref` with lecturer `lec` and course record `d`: the first
      block of the course's list that is not unavailable, not used by this
      course in this tier and not held by the lecturer; an empty block name
      counts as no block. Returns the block written, if any. */
  function Bind(st: Schedule, d: CourseDetail, ref: SectionRef, lec: string, used: set<Block>)
    : (r: (Schedule, Option<Block>))
    ensures forall b :: r.1 == Some(b) <==>
              b != "" && exists i :: FirstFitting(d, used, Held(st.teachers, lec), i) && d.available[i] == b
    ensures r.1.Some? ==> Allowed(d, r.1.value) && r.1.value !in used && r.1.value !in Held(st.teachers, lec)
    ensures r.1.Some? ==> r.0.sectionBlocks == st.sectionBlocks[ref := r.1.value]
    ensures r.1.None? ==> r.0.sectionBlocks == st.sectionBlocks
    ensures r.0.teachers.Keys == st.teachers.Keys + (if AnyOpen(d, used) then {lec} else {})
    ensures forall who :: who in st.teachers && who != lec ==> r.0.teachers[who] == st.teachers[who]
    ensures lec in r.0.teachers ==>
              r.0.teachers[lec] == (if r.1.Some? then Held(st.teachers, lec)[r.1.value := ref] else Held(st.teachers, lec))
    ensures r.0.students == st.students && r.0.rosters == st.rosters
    ensures r.0.resolved == st.resolved && r.0.unresolved == st.unresolved
  {
    var held := Held(st.teachers, lec);
    var teachers := if AnyOpen(d, used) then Touch(st.teachers, lec, map[]) else st.teachers;
    var found := FirstFit(d.available, d, used, held);
    forall i | 0 <= i < |d.available| {
      FirstFitIsFirstFitting(d, used, held, i);
    }
    if found.Some? && d.available[found.value] != "" then
      var b := d.available[found.value];
      assert AnyOpen(d, used) by {
        assert Open(d, used, d.available[found.value]);
      }
      (st.(teachers := teachers[lec := held[b := ref]], sectionBlocks := st.sectionBlocks[ref := b]), Some(b))
    else
      (st.(teachers := teachers), None)
  }

  /** Section `n` of course `c`, with the course's record and the section's lecturer. */
  function PlaceSection(st: Schedule, p: Prepared, rules: RuleSet, c: string, n: int, used: set<Block>)
    : (r: (Schedule, Option<Block>))
  {
    Bind(st, Detail(p, rules, c), SectionRef(c, n), LecturerOf(p, SectionRef(c, n)), used)
  }

  // ------------------------------------------------------------------ invariant

  /** A block a section of a course with record `d` may be bound to. */
  predicate Allowed(d: CourseDetail, b: Block) {
    b != "" && b in d.available && b !in d.unavailable
  }

  /** Every bound section is booked in its lecturer's timetable at its block. */
  predicate LecturersHold(p: Prepared, st: Schedule) {
    forall ref :: ref in st.sectionBlocks ==>
      var lec := LecturerOf(p, ref);
      lec in st.teachers && st.sectionBlocks[ref] in st.teachers[lec] &&
      st.teachers[lec][st.sectionBlocks[ref]] == ref
  }

  /** Every entry of a lecturer's timetable is a section of that lecturer, at a
      block allowed for its course. */
  predicate EntriesOwned(p: Prepared, rules: RuleSet, st: Schedule) {
    forall lec, b :: lec in st.teachers && b in st.teachers[lec] ==>
      LecturerOf(p, st.teachers[lec][b]) == lec && Allowed(Detail(p, rules, st.teachers[lec][b].code), b)
  }

  /** Every section is bound to a block allowed for its course. */
  predicate BlocksAllowed(p: Prepared, rules: RuleSet, st: Schedule) {
    forall ref :: ref in st.sectionBlocks ==> Allowed(Detail(p, rules, ref.code), st.sectionBlocks[ref])
  }

  predicate Booked(p: Prepared, rules: RuleSet, st: Schedule) {
    LecturersHold(p, st) && EntriesOwned(p, rules, st) && BlocksAllowed(p, rules, st)
  }

  /** No lecturer teaches two bound sections in the same block. */
  lemma NoLecturerDoubleBooking(p: Prepared, rules: RuleSet, st: Schedule, r1: SectionRef, r2: SectionRef)
    requires Booked(p, rules, st)
    requires r1 in st.sectionBlocks && r2 in st.sectionBlocks && r1 != r2
    requires LecturerOf(p, r1) == LecturerOf(p, r2)
    ensures st.sectionBlocks[r1] != st.sectionBlocks[r2]
  {
  }

  /** Binding one section keeps the bookings consistent and replaces no
      lecturer entry. */
  lemma PlaceSectionBooked(st: Schedule, p: Prepared, rules: RuleSet, c: string, n: int, used: set<Block>)
    requires Booked(p, rules, st)
    ensures Booked(p, rules, PlaceSection(st, p, rules, c, n, used).0)
    ensures Extends(st.teachers, PlaceSection(st, p, rules, c, n, used).0.teachers)
  {
    var ref := SectionRef(c, n);
    var lec := LecturerOf(p, ref);
    var d := Detail(p, rules, c);
    var r := Bind(st, d, ref, lec, used);
    if r.1.Some? {
      BindHolds(st, p, ref, lec, d, used, r.1.value);
      BindOwned(st, p, rules, ref, lec, d, used, r.1.value);
      BindAllowed(st, p, rules, ref, d, used, r.1.value);
    }
  }

  lemma BindHolds(st: Schedule, p: Prepared, ref: SectionRef, lec: string, d: CourseDetail, used: set<Block>, b: Block)
    requires LecturersHold(p, st) && lec == LecturerOf(p, ref)
    requires Bind(st, d, ref, lec, used).1 == Some(b) && b !in Held(st.teachers, lec)
    ensures LecturersHold(p, Bind(st, d, ref, lec, used).0)
    ensures Extends(st.teachers, Bind(st, d, ref, lec, used).0.teachers)
  {
    var r := Bind(st, d, ref, lec, used);
    forall ref' | ref' in r.0.sectionBlocks
      ensures var lec' := LecturerOf(p, ref');
        lec' in r.0.teachers && r.0.sectionBlocks[ref'] in r.0.teachers[lec'] &&
        r.0.teachers[lec'][r.0.sectionBlocks[ref']] == ref'
    {
      if ref' != ref && LecturerOf(p, ref') == lec {
        assert st.sectionBlocks[ref'] in Held(st.teachers, lec);
      }
    }
  }

  lemma BindOwned(st: Schedule, p: Prepared, rules: RuleSet, ref: SectionRef, lec: string, d: CourseDetail,
                  used: set<Block>, b: Block)
    requires EntriesOwned(p, rules, st) && lec == LecturerOf(p, ref) && d == Detail(p, rules, ref.code)
    requires Bind(st, d, ref, lec, used).1 == Some(b) && Allowed(d, b)
    ensures EntriesOwned(p, rules, Bind(st, d, ref, lec, used).0)
  {
  }

  lemma BindAllowed(st: Schedule, p: Prepared, rules: RuleSet, ref: SectionRef, d: CourseDetail,
                    used: set<Block>, b: Block)
    requires BlocksAllowed(p, rules, st) && d == Detail(p, rules, ref.code)
    requires Bind(st, d, ref, LecturerOf(p, ref), used).1 == Some(b) && Allowed(d, b)
    ensures BlocksAllowed(p, rules, Bind(st, d, ref, LecturerOf(p, ref), used).0)
  {
  }

  // ------------------------------------------------------------------ one course

  /** The sections of course `c` bound in one tier, by number, all to different
      blocks outside `used`, and numbered within `lo`..`hi`. */
  predicate PlacedWithin(placed: map<int, Block>, used: set<Block>, lo: int, hi: int) {
    && (forall k :: k in placed ==> lo <= k <= hi && placed[k] !in used)
    && (forall k1, k2 :: k1 in placed && k2 in placed && k1 != k2 ==> placed[k1] != placed[k2])
  }

  /** `after` is `before` with the sections of `c` in `placed` bound as recorded there. */
  ghost predicate BoundAs(before: map<SectionRef, Block>, after: map<SectionRef, Block>, c: string, placed: map<int, Block>) {
    && (forall ref :: ref in after <==> ref in before || (ref.code == c && ref.num in placed))
    && (forall ref :: ref in after ==>
          after[ref] == if ref.code == c && ref.num in placed then placed[ref.num] else before[ref])
  }

  lemma PlacedStep(placed: map<int, Block>, used: set<Block>, n: int, hi: int, b: Option<Block>)
    requires n <= hi && (b.Some? ==> b.value !in used)
    requires PlacedWithin(placed, if b.Some? then used + {b.value} else used, n + 1, hi)
    ensures PlacedWithin(if b.Some? then placed[n := b.value] else placed, used, n, hi)
  {
    if b.Some? {
      var placed' := placed[n := b.value];
      forall k1, k2 | k1 in placed' && k2 in placed' && k1 != k2
        ensures placed'[k1] != placed'[k2]
      {
        if k1 == n {
          assert placed[k2] !in used + {b.value};
        } else if k2 == n {
          assert placed[k1] !in used + {b.value};
        }
      }
    }
  }

  lemma BoundStep(s0: map<SectionRef, Block>, s2: map<SectionRef, Block>, c: string, n: int,
                  b: Option<Block>, placed: map<int, Block>)
    requires n !in placed
    requires BoundAs(if b.Some? then s0[SectionRef(c, n) := b.value] else s0, s2, c, placed)
    ensures BoundAs(s0, s2, c, if b.Some? then placed[n := b.value] else placed)
  {
  }


  /** The blocks given to the sections of `placed`. */
  function Given(placed: map<int, Block>): set<Block> {
    set k | k in placed :: placed[k]
  }

  /** No block of the course's list fits: each is unavailable, in `used`, or
      held by the lecturer. */
  predicate Exhausted(d: CourseDetail, used: set<Block>, held: map<Block, SectionRef>) {
    forall i :: 0 <= i < |d.available| ==> !Fits(d, used, held, d.available[i])
  }

  /** An empty block name is listed and open; the scan may stop on it, and
      `if best_block:` then binds nothing. */
  predicate EmptyNameOpen(d: CourseDetail, used: set<Block>) {
    "" in d.available && Open(d, used, "")
  }

  /** Why a section is left unbound after the sections `n`..`needed` were
      placed: no block fits, even counting the blocks the run gave to the
      course and the lecturer's timetable at the end of the run. */
  predicate Unbindable(p: Prepared, rules: RuleSet, c: string, k: int, used: set<Block>, placed: map<int, Block>,
                       teachers: map<string, map<Block, SectionRef>>) {
    var d := Detail(p, rules, c);
    EmptyNameOpen(d, used) || Exhausted(d, used + Given(placed), Held(teachers, LecturerOf(p, SectionRef(c, k))))
  }

  /** A binding finds no block exactly when no listed block fits, or when the
      first fitting block is the empty name, which is falsy and so stops the
      scan without a binding. Either way an empty name is open or the list is
      exhausted. */
  lemma BindNone(st: Schedule, d: CourseDetail, ref: SectionRef, lec: string, used: set<Block>)
    ensures var held := Held(st.teachers, lec);
      Bind(st, d, ref, lec, used).1.None? <==>
        Exhausted(d, used, held) || exists i :: FirstFitting(d, used, held, i) && d.available[i] == ""
    ensures Bind(st, d, ref, lec, used).1.None? ==>
              EmptyNameOpen(d, used) || Exhausted(d, used, Held(st.teachers, lec))
  {
    var held := Held(st.teachers, lec);
    var r := FirstFit(d.available, d, used, held);
    if r.Some? {
      FirstFitIsFirstFitting(d, used, held, r.value);
      forall i | FirstFitting(d, used, held, i)
        ensures i == r.value
      {
        FirstFitIsFirstFitting(d, used, held, i);
      }
    }
  }

  /** More used blocks and a fuller timetable fit no better. */
  lemma ExhaustedGrows(d: CourseDetail, used: set<Block>, used': set<Block>,
                       held: map<Block, SectionRef>, held': map<Block, SectionRef>)
    requires Exhausted(d, used, held) && used <= used' && held.Keys <= held'.Keys
    ensures Exhausted(d, used', held')
  {
  }

  /** The lecturer's timetable only grows along an extension. */
  lemma HeldGrows(a: map<string, map<Block, SectionRef>>, b: map<string, map<Block, SectionRef>>, who: string)
    requires Extends(a, b)
    ensures Held(a, who).Keys <= Held(b, who).Keys
  {
  }

  /** The sections `n`..`needed` of course `c`, in order; `used` holds the
      blocks given to the earlier sections in this tier. Returns, for each
      section that got a block, that block. Section `n` gets exactly the
      block `PlaceSection` finds for it, and every section of the range left
      without a block is `Unbindable`. */
  function PlaceSections(st: Schedule, p: Prepared, rules: RuleSet, c: string, n: int, needed: int, used: set<Block>)
    : (r: (Schedule, map<int, Block>))
    requires Booked(p, rules, st)
    ensures Booked(p, rules, r.0)
    ensures Extends(st.teachers, r.0.teachers)
    ensures PlacedWithin(r.1, used, n, needed)
    ensures BoundAs(st.sectionBlocks, r.0.sectionBlocks, c, r.1)
    ensures n <= needed ==>
              var b := PlaceSection(st, p, rules, c, n, used).1;
              (n in r.1 <==> b.Some?) && (b.Some? ==> r.1[n] == b.value)
    ensures forall k :: n <= k <= needed && k !in r.1 ==> Unbindable(p, rules, c, k, used, r.1, r.0.teachers)
    ensures r.0.students == st.students && r.0.rosters == st.rosters
    ensures r.0.resolved == st.resolved && r.0.unresolved == st.unresolved
    decreases needed + 1 - n
  {
    if n > needed then (st, map[])
    else
      var (st1, b) := PlaceSection(st, p, rules, c, n, used);
      PlaceSectionBooked(st, p, rules, c, n, used);
      var used' := if b.Some? then used + {b.value} else used;
      var (st2, placed) := PlaceSections(st1, p, rules, c, n + 1, needed, used');
      PlacedStep(placed, used, n, needed, b);
      BoundStep(st.sectionBlocks, st2.sectionBlocks, c, n, b, placed);
      var r1 := if b.Some? then placed[n := b.value] else placed;
      ProgressStep(st, st1, st2, p, rules, c, n, needed, used, b, placed, r1);
      (st2, r1)
  }

  /** Adding section `n`'s block adds it to the blocks given out. */
  lemma GivenGrows(placed: map<int, Block>, n: int, b: Option<Block>, r1: map<int, Block>)
    requires n !in placed
    requires r1 == if b.Some? then placed[n := b.value] else placed
    ensures Given(placed) <= Given(r1)
    ensures b.Some? ==> b.value in Given(r1)
  {
    forall x | x in Given(placed)
      ensures x in Given(r1)
    {
      var j :| j in placed && placed[j] == x;
      assert r1[j] == x;
    }
    if b.Some? {
      assert r1[n] == b.value;
    }
  }

  /** The `Unbindable` clause of `PlaceSections` for section `n` and the ones after it. */
  lemma ProgressStep(st: Schedule, st1: Schedule, st2: Schedule, p: Prepared, rules: RuleSet, c: string, n: int,
                     needed: int, used: set<Block>, b: Option<Block>, placed: map<int, Block>, r1: map<int, Block>)
    requires n <= needed
    requires (st1, b) == PlaceSection(st, p, rules, c, n, used)
    requires Extends(st.teachers, st1.teachers) && Extends(st1.teachers, st2.teachers)
    requires PlacedWithin(placed, if b.Some? then used + {b.value} else used, n + 1, needed)
    requires forall k :: n + 1 <= k <= needed && k !in placed ==>
               Unbindable(p, rules, c, k, if b.Some? then used + {b.value} else used, placed, st2.teachers)
    requires r1 == if b.Some? then placed[n := b.value] else placed
    ensures forall k :: n <= k <= needed && k !in r1 ==> Unbindable(p, rules, c, k, used, r1, st2.teachers)
  {
    var d := Detail(p, rules, c);
    var used' := if b.Some? then used + {b.value} else used;
    assert n !in placed;
    GivenGrows(placed, n, b, r1);
    forall k | n <= k <= needed && k !in r1
      ensures Unbindable(p, rules, c, k, used, r1, st2.teachers)
    {
      var lec := LecturerOf(p, SectionRef(c, k));
      if k == n {
        BindNone(st, d, SectionRef(c, n), lec, used);
        if !EmptyNameOpen(d, used) {
          ExtendsTransitive(st.teachers, st1.teachers, st2.teachers);
          HeldGrows(st.teachers, st2.teachers, lec);
          ExhaustedGrows(d, used, used + Given(r1), Held(st.teachers, lec), Held(st2.teachers, lec));
        }
      } else if !EmptyNameOpen(d, used) {
        assert !EmptyNameOpen(d, used');
        ExhaustedGrows(d, used' + Given(placed), used + Given(r1), Held(st2.teachers, lec), Held(st2.teachers, lec));
      }
    }
  }

  /** What one course's step of Pass 1 achieves when the tier has requests
      for it: sections 1..Needed(k) hold pairwise different blocks, section 1
      gets the block `PlaceSection` finds for it on the state as it was, and
      each section of the range left unbound is `Unbindable`. */
  predicate CourseProgress(st: Schedule, p: Prepared, rules: RuleSet, t: string, c: string, r: (Schedule, map<int, Block>))
    requires Detail(p, rules, c).maxSize != 0
  {
    var d := Detail(p, rules, c);
    var needed := Needed(|TierRequests(p, c, t)|, d.maxSize, d.numSections);
    && PlacedWithin(r.1, {}, 1, needed)
    && (1 <= needed ==>
          var b := PlaceSection(st, p, rules, c, 1, {}).1;
          (1 in r.1 <==> b.Some?) && (b.Some? ==> r.1[1] == b.value))
    && (forall k :: 1 <= k <= needed && k !in r.1 ==> Unbindable(p, rules, c, k, {}, r.1, r.0.teachers))
  }

  /** Pass 1 for one course and tier: when the tier has `k` requests for the
      course, sections 1..Needed(k) are bound in turn, to different blocks,
      section 1 to the block `PlaceSection` finds for it on the state as it
      was, and each section left unbound is `Unbindable`; with no such
      request nothing happens. */
  function CourseStep(st: Schedule, p: Prepared, rules: RuleSet, t: string, c: string): (r: (Schedule, map<int, Block>))
    requires Booked(p, rules, st)
    requires TierRequests(p, c, t) != [] ==> Detail(p, rules, c).maxSize != 0
    ensures Booked(p, rules, r.0)
    ensures Extends(st.teachers, r.0.teachers)
    ensures TierRequests(p, c, t) == [] ==> r.0 == st && r.1 == map[]
    ensures TierRequests(p, c, t) != [] ==> CourseProgress(st, p, rules, t, c, r)
    ensures BoundAs(st.sectionBlocks, r.0.sectionBlocks, c, r.1)
    ensures r.0.students == st.students && r.0.rosters == st.rosters
    ensures r.0.resolved == st.resolved && r.0.unresolved == st.unresolved
  {
    var k := |TierRequests(p, c, t)|;
    if k == 0 then (st, map[])
    else
      var d := Detail(p, rules, c);
      PlaceSections(st, p, rules, c, 1, Needed(k, d.maxSize, d.numSections), {})
  }

  /** The source divides by each course's `max_size` once it has a request of the tier. */
  predicate Divisible(p: Prepared, rules: RuleSet, t: string, cs: seq<string>) {
    forall c :: c in cs && TierRequests(p, c, t) != [] ==> Detail(p, rules, c).maxSize != 0
  }

  /** Pass 1 for one tier, over the courses `cs` in order. Only sections of
      those courses are bound or rebound. */
  function TierStep(st: Schedule, p: Prepared, rules: RuleSet, t: string, cs: seq<string>): (r: Schedule)
    requires Booked(p, rules, st) && Divisible(p, rules, t, cs)
    ensures Booked(p, rules, r)
    ensures Extends(st.teachers, r.teachers)
    ensures forall ref :: ref in st.sectionBlocks ==> ref in r.sectionBlocks
    ensures forall ref :: ref in r.sectionBlocks && ref.code !in cs ==>
              ref in st.sectionBlocks && r.sectionBlocks[ref] == st.sectionBlocks[ref]
    ensures r.students == st.students && r.rosters == st.rosters
    ensures r.resolved == st.resolved && r.unresolved == st.unresolved
    decreases |cs|
  {
    if cs == [] then st
    else
      var st1 := CourseStep(st, p, rules, t, cs[0]).0;
      CourseStepKeeps(st, p, rules, t, cs[0]);
      assert Divisible(p, rules, t, cs[1..]);
      TierStep(st1, p, rules, t, cs[1..])
  }

  /** One course's step keeps every binding, and binds only sections of that course. */
  lemma CourseStepKeeps(st: Schedule, p: Prepared, rules: RuleSet, t: string, c: string)
    requires Booked(p, rules, st)
    requires TierRequests(p, c, t) != [] ==> Detail(p, rules, c).maxSize != 0
    ensures var r := CourseStep(st, p, rules, t, c).0;
      && (forall ref :: ref in st.sectionBlocks ==> ref in r.sectionBlocks)
      && (forall ref :: ref in r.sectionBlocks && ref.code != c ==>
            ref in st.sectionBlocks && r.sectionBlocks[ref] == st.sectionBlocks[ref])
  {
    var r := CourseStep(st, p, rules, t, c);
    assert BoundAs(st.sectionBlocks, r.0.sectionBlocks, c, r.1);
  }

  /** Pass 1: every tier in turn, each over the courses in first-request order. */
  function Pass(st: Schedule, p: Prepared, rules: RuleSet, tiers: seq<string>): (r: Schedule)
    requires Booked(p, rules, st)
    requires forall t :: t in tiers ==> Divisible(p, rules, t, p.order)
    ensures Booked(p, rules, r)
    ensures Extends(st.teachers, r.teachers)
    ensures forall ref :: ref in st.sectionBlocks ==> ref in r.sectionBlocks
    ensures forall ref :: ref in r.sectionBlocks && ref.code !in p.order ==>
              ref in st.sectionBlocks && r.sectionBlocks[ref] == st.sectionBlocks[ref]
    ensures r.students == st.students && r.rosters == st.rosters
    ensures r.resolved == st.resolved && r.unresolved == st.unresolved
    decreases |tiers|
  {
    if tiers == [] then st
    else Pass(TierStep(st, p, rules, tiers[0], p.order), p, rules, tiers[1..])
  }
}
