/** The rule extractor (milestone2.py, `extract_rules_and_constraints`): the
    ordered list of valid blocks, the required course of each college year and
    the fixed order of request tiers. */
module Rules {
  import opened Collections
  import opened Text
  import opened Records

  /** The blocks used when no course declares any. */
  const DefaultBlocks: seq<Block> := ["1A", "1B", "2A", "2B", "3", "4A", "4B", "5A", "5B"]

  /** The request tiers, most important first. */
  const PriorityOrder: seq<string> := ["Required", "Requested", "Recommended"]

  /** The required course of each college year. */
  const RequiredCourses: map<string, seq<string>> :=
    map["1st Year" := ["BIB9"], "2nd Year" := ["BIB10"], "3rd Year" := ["BIB11"], "4th Year" := ["BIB12"]]

  datatype RuleSet = RuleSet(
    allBlocks: seq<Block>,
    requiredCourses: map<string, seq<string>>,
    priorityOrder: seq<string>)

  /** Every block listed by any course record that carries an 'Available blocks' entry. */
  function DeclaredBlocks(courses: seq<CourseRecord>): seq<Block>
    decreases |courses|
  {
    if courses == [] then []
    else
      var last := courses[|courses| - 1];
      DeclaredBlocks(courses[..|courses| - 1]) + last.availableBlocks.GetOr([])
  }

  /** `all_blocks`: the sorted union of the declared blocks, or of the defaults
      when nothing is declared. */
  function AllBlocks(courses: seq<CourseRecord>): (r: seq<Block>)
    ensures StrictlySorted(r)
    ensures DeclaredBlocks(courses) != [] ==> Elems(r) == Elems(DeclaredBlocks(courses))
    ensures DeclaredBlocks(courses) == [] ==> Elems(r) == Elems(DefaultBlocks)
  {
    var declared := DeclaredBlocks(courses);
    SortedSet(if declared == [] then DefaultBlocks else declared)
  }

  function ExtractRules(courses: seq<CourseRecord>): RuleSet {
    RuleSet(AllBlocks(courses), RequiredCourses, PriorityOrder)
  }

  /** A block belongs to `all_blocks` exactly when some course declares it, or,
      when no course declares any, exactly when it is a default block; and the
      list is the only strictly ascending listing of that set. */
  lemma AllBlocksCharacterised(courses: seq<CourseRecord>, listing: seq<Block>)
    requires StrictlySorted(listing)
    requires Elems(listing) == (if DeclaredBlocks(courses) == [] then Elems(DefaultBlocks)
                                else Elems(DeclaredBlocks(courses)))
    ensures AllBlocks(courses) == listing
  {
    SortedListingUnique(AllBlocks(courses), listing);
  }

  /** With no declared blocks the fallback is the nine defaults in ascending order. */
  lemma DefaultFallback(courses: seq<CourseRecord>)
    requires DeclaredBlocks(courses) == []
    ensures AllBlocks(courses) == DefaultBlocks
  {
    assert StrictlySorted(DefaultBlocks) by {
      forall i, j | 0 <= i < j < |DefaultBlocks|
        ensures Less(DefaultBlocks[i], DefaultBlocks[j])
      {
        if j == i + 1 {
          assert Less(DefaultBlocks[i], DefaultBlocks[j]);
        } else {
          DefaultAscending(i, j);
        }
      }
    }
    SortedListingUnique(AllBlocks(courses), DefaultBlocks);
  }

  lemma {:induction false} DefaultAscending(i: nat, j: nat)
    requires i < j < |DefaultBlocks|
    ensures Less(DefaultBlocks[i], DefaultBlocks[j])
    decreases j - i
  {
    if j > i + 1 {
      DefaultAscending(i, j - 1);
      assert Less(DefaultBlocks[j - 1], DefaultBlocks[j]);
      LessTransitive(DefaultBlocks[i], DefaultBlocks[j - 1], DefaultBlocks[j]);
    }
  }
}
