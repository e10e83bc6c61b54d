/** The progress report's data: a student's completed responses grouped by
    assessment, and the score change from the first attempt to the last. */
module Progress {
  import opened Records
  import opened Collections
  import opened Resolution

  /** The assessment id of each response, in order. */
  function AssessmentIds(rs: seq<StudentResponse>): (ids: seq<string>)
    ensures |ids| == |rs|
    ensures forall i :: 0 <= i < |rs| ==> ids[i] == rs[i].assessmentId
  {
    if rs == [] then []
    else AssessmentIds(rs[..|rs| - 1]) + [rs[|rs| - 1].assessmentId]
  }

  /** The responses to one assessment, in input order. */
  function InAssessment(rs: seq<StudentResponse>, assessmentId: string): (g: seq<StudentResponse>)
    ensures forall r :: r in g ==> r in rs && r.assessmentId == assessmentId
    ensures g != [] <==> assessmentId in AssessmentIds(rs)
  {
    if rs == [] then []
    else
      var p, r := rs[..|rs| - 1], rs[|rs| - 1];
      assert rs == p + [r];
      if r.assessmentId == assessmentId then InAssessment(p, assessmentId) + [r] else InAssessment(p, assessmentId)
  }

  lemma {:induction false} InAssessmentCount(rs: seq<StudentResponse>, assessmentId: string, x: StudentResponse)
    ensures multiset(InAssessment(rs, assessmentId))[x] == if x.assessmentId == assessmentId then multiset(rs)[x] else 0
  {
    if rs != [] {
      var p := rs[..|rs| - 1];
      assert rs == p + [rs[|rs| - 1]];
      InAssessmentCount(p, assessmentId, x);
    }
  }

  lemma InAssessmentSnoc(p: seq<StudentResponse>, r: StudentResponse, k: string)
    ensures InAssessment(p + [r], k) == if r.assessmentId == k then InAssessment(p, k) + [r] else InAssessment(p, k)
  {
    assert (p + [r])[..|p|] == p;
  }

  /** The groups after one more response: a new group when its assessment has
      none yet, otherwise appended to its group. */
  function Grouped(m: OrderedMap<seq<StudentResponse>>, r: StudentResponse): OrderedMap<seq<StudentResponse>>
  {
    if r.assessmentId !in m.entries then OrderedMap(m.keys + [r.assessmentId], m.entries[r.assessmentId := [r]])
    else OrderedMap(m.keys, m.entries[r.assessmentId := m.entries[r.assessmentId] + [r]])
  }

  /** A grouping step keeps the keys distinct and in step with the entries,
      keeps every earlier key in its place, puts the response last in its own
      group and touches no other group. */
  lemma GroupedKeeps(m: OrderedMap<seq<StudentResponse>>, r: StudentResponse)
    ensures var g := Grouped(m, r);
      && (m.WellFormed() ==> g.WellFormed())
      && |m.keys| <= |g.keys| && g.keys[..|m.keys|] == m.keys
      && r.assessmentId in g.entries && g.entries[r.assessmentId] != []
      && g.entries[r.assessmentId][|g.entries[r.assessmentId]| - 1] == r
      && (forall k :: k in g.entries ==> k in m.entries || k == r.assessmentId)
      && (forall k :: k in m.entries && k != r.assessmentId ==> k in g.entries && g.entries[k] == m.entries[k])
  {
    var g := Grouped(m, r);
    if m.WellFormed() && r.assessmentId !in m.entries {
      forall i, j | 0 <= i < j < |g.keys|
        ensures g.keys[i] != g.keys[j]
      {
        if j == |m.keys| {
          assert g.keys[i] == m.keys[i];
        }
      }
    }
  }

  /** The grouping of the responses by assessment: the responses added one
      after the other, starting from no groups. */
  function GroupsOf(rs: seq<StudentResponse>): OrderedMap<seq<StudentResponse>>
  {
    if rs == [] then OrderedMap([], map[])
    else Grouped(GroupsOf(rs[..|rs| - 1]), rs[|rs| - 1])
  }

  /** The grouping of one more response is the earlier grouping, extended. */
  lemma GroupsOfSnoc(p: seq<StudentResponse>, r: StudentResponse)
    ensures GroupsOf(p + [r]) == Grouped(GroupsOf(p), r)
  {
    assert (p + [r])[..|p|] == p;
  }

  /** One group per assessment id, in the order each id first appears; each
      group holds exactly that assessment's responses, in input order. */
  lemma GroupsOfCount(rs: seq<StudentResponse>)
    ensures GroupsOf(rs).keys == FirstEncounter(AssessmentIds(rs))
    ensures forall k :: k in GroupsOf(rs).entries <==> k in AssessmentIds(rs)
    ensures forall k :: k in GroupsOf(rs).entries ==> GroupsOf(rs).entries[k] == InAssessment(rs, k)
  {
    GroupKeys(rs);
    GroupEntries(rs);
  }

  lemma {:induction false} GroupKeys(rs: seq<StudentResponse>)
    ensures GroupsOf(rs).keys == FirstEncounter(AssessmentIds(rs))
    ensures forall k :: k in GroupsOf(rs).entries <==> k in AssessmentIds(rs)
  {
    if rs != [] {
      var p, r := rs[..|rs| - 1], rs[|rs| - 1];
      assert rs == p + [r];
      GroupKeys(p);
      var ids, ids' := AssessmentIds(p), AssessmentIds(rs);
      assert ids'[..|ids'| - 1] == ids;
      assert forall k :: k in ids' <==> k in ids || k == r.assessmentId;
    }
  }

  lemma {:induction false} GroupEntries(rs: seq<StudentResponse>)
    ensures forall k :: k in GroupsOf(rs).entries ==> GroupsOf(rs).entries[k] == InAssessment(rs, k)
  {
    if rs != [] {
      var p, r := rs[..|rs| - 1], rs[|rs| - 1];
      assert rs == p + [r];
      GroupEntries(p);
      GroupKeys(p);
      forall k | k in GroupsOf(rs).entries
        ensures GroupsOf(rs).entries[k] == InAssessment(rs, k)
      {
        GroupedEntry(GroupsOf(p), p, r, k);
      }
    }
  }

  /** One assessment's group after one more response, given that the earlier
      groups are the earlier responses to their assessments. */
  lemma GroupedEntry(m: OrderedMap<seq<StudentResponse>>, p: seq<StudentResponse>, r: StudentResponse, k: string)
    requires k in Grouped(m, r).entries
    requires forall t :: t in m.entries <==> t in AssessmentIds(p)
    requires forall t :: t in m.entries ==> m.entries[t] == InAssessment(p, t)
    ensures Grouped(m, r).entries[k] == InAssessment(p + [r], k)
  {
    InAssessmentSnoc(p, r, k);
    if k != r.assessmentId {
      assert k in m.entries;
      assert Grouped(m, r).entries[k] == m.entries[k];
    } else if k in m.entries {
      assert Grouped(m, r).entries[k] == m.entries[k] + [r];
    } else {
      assert k !in AssessmentIds(p);
      assert InAssessment(p, k) == [];
      assert Grouped(m, r).entries[k] == [r];
    }
  }

  /** The groups of the given keys, one after the other. */
  function Flatten(keys: seq<string>, entries: map<string, seq<StudentResponse>>): seq<StudentResponse>
    requires forall k :: k in keys ==> k in entries
  {
    if keys == [] then [] else entries[keys[0]] + Flatten(keys[1..], entries)
  }

  /** Every group is non-empty and holds only responses to its own assessment. */
  lemma GroupsAreUniform(rs: seq<StudentResponse>)
    ensures GroupsOf(rs).WellFormed()
    ensures forall k :: k in GroupsOf(rs).entries ==>
      && GroupsOf(rs).entries[k] != []
      && forall r :: r in GroupsOf(rs).entries[k] ==> r.assessmentId == k
  {
    GroupsOfCount(rs);
  }

  /** The groups of the given ids exist, are non-empty and hold only
      completed responses. */
  predicate CompletedGroups(groups: OrderedMap<seq<StudentResponse>>, ids: seq<string>)
  {
    forall k :: k in ids ==> k in groups.entries && groups.entries[k] != [] && AllCompleted(groups.entries[k])
  }

  /** Grouping completed responses gives non-empty groups of completed responses. */
  lemma GroupsCompleted(rs: seq<StudentResponse>)
    requires AllCompleted(rs)
    ensures CompletedGroups(GroupsOf(rs), GroupsOf(rs).keys)
  {
    GroupsOfCount(rs);
  }

  lemma {:induction false} FlattenCount(keys: seq<string>, rs: seq<StudentResponse>, entries: map<string, seq<StudentResponse>>, x: StudentResponse)
    requires Distinct(keys)
    requires forall k :: k in keys ==> k in entries && entries[k] == InAssessment(rs, k)
    ensures multiset(Flatten(keys, entries))[x] == if x.assessmentId in keys then multiset(rs)[x] else 0
  {
    if keys != [] {
      DistinctTail(keys);
      FlattenCount(keys[1..], rs, entries, x);
      InAssessmentCount(rs, keys[0], x);
      assert keys == [keys[0]] + keys[1..];
    }
  }

  /** The groups, concatenated in key order, are a permutation of the input:
      no response is lost or duplicated by the grouping. */
  lemma GroupsPermuteInput(rs: seq<StudentResponse>)
    ensures forall k :: k in GroupsOf(rs).keys ==> k in GroupsOf(rs).entries
    ensures multiset(Flatten(GroupsOf(rs).keys, GroupsOf(rs).entries)) == multiset(rs)
  {
    var g := GroupsOf(rs);
    var ids := AssessmentIds(rs);
    GroupsOfCount(rs);
    forall x
      ensures multiset(Flatten(g.keys, g.entries))[x] == multiset(rs)[x]
    {
      FlattenCount(g.keys, rs, g.entries, x);
      if x in rs {
        var i :| 0 <= i < |rs| && rs[i] == x;
        assert ids[i] == x.assessmentId;
      }
    }
  }

  /** Grouping keeps the input order: the group of a list sorted by completion
      is sorted by completion. */
  lemma {:induction false} GroupKeepsOrder(strtotime: string -> int, rs: seq<StudentResponse>, assessmentId: string)
    requires SortedByCompletion(strtotime, rs)
    ensures SortedByCompletion(strtotime, InAssessment(rs, assessmentId))
  {
    if rs != [] {
      var p, x := rs[..|rs| - 1], rs[|rs| - 1];
      assert rs == p + [x];
      SortedPrefix(strtotime, rs);
      GroupKeepsOrder(strtotime, p, assessmentId);
      if x.assessmentId == assessmentId {
        var g := InAssessment(p, assessmentId);
        if g != [] {
          UpToLast(strtotime, rs, g[|g| - 1]);
        }
        SortedSnoc(strtotime, g, x);
      }
    }
  }

  lemma SortedPrefix(strtotime: string -> int, rs: seq<StudentResponse>)
    requires SortedByCompletion(strtotime, rs) && rs != []
    ensures SortedByCompletion(strtotime, rs[..|rs| - 1])
  {
    var p := rs[..|rs| - 1];
    assert forall i :: 0 <= i < |p| ==> p[i] == rs[i];
  }

  /** Every response of the prefix was completed no later than the last one. */
  lemma UpToLast(strtotime: string -> int, rs: seq<StudentResponse>, y: StudentResponse)
    requires SortedByCompletion(strtotime, rs) && rs != []
    requires y in rs[..|rs| - 1]
    ensures y.completed.Some? && CompletedAt(strtotime, y) <= CompletedAt(strtotime, rs[|rs| - 1])
  {
    var p := rs[..|rs| - 1];
    var j :| 0 <= j < |p| && p[j] == y;
    assert rs[j] == y;
    SortedBetween(strtotime, rs, j, |rs| - 1);
  }

  /** The score change the progress report prints for one group: the raw score
      of the last attempt (the loop's final `$r`) minus that of the first
      (`reset`). */
  function ScoreDelta(group: seq<StudentResponse>): (d: int)
    requires group != []
    ensures |group| == 1 ==> d == 0
  {
    LastOf(group).value.rawScore - FirstOf(group).value.rawScore
  }

  /** For a student's completed responses, sorted by completion, the delta of
      each assessment's group is the raw score of that assessment's latest
      attempt minus that of its earliest. */
  lemma DeltaIsLatestMinusEarliest(strtotime: string -> int, rs: seq<StudentResponse>, assessmentId: string)
    requires SortedByCompletion(strtotime, rs)
    requires assessmentId in AssessmentIds(rs)
    ensures InAssessment(rs, assessmentId) != []
    ensures
      var g := InAssessment(rs, assessmentId);
      var first, last := FirstOf(g).value, LastOf(g).value;
      && ScoreDelta(g) == last.rawScore - first.rawScore
      && first.assessmentId == assessmentId && last.assessmentId == assessmentId
      && first in rs && last in rs
      && forall x :: x in rs && x.assessmentId == assessmentId ==>
           CompletedAt(strtotime, first) <= CompletedAt(strtotime, x) <= CompletedAt(strtotime, last)
  {
    var g := InAssessment(rs, assessmentId);
    GroupKeepsOrder(strtotime, rs, assessmentId);
    FirstIsEarliest(strtotime, g);
    LastIsLatest(strtotime, g);
    forall x | x in rs && x.assessmentId == assessmentId
      ensures x in g
    {
      InAssessmentCount(rs, assessmentId, x);
    }
  }

  /** One line of the progress report: when the attempt was completed, its raw
      score and its number of questions. */
  datatype Attempt = Attempt(completed: string, rawScore: int, questionCount: nat)

  function AttemptOf(r: StudentResponse): Attempt
    requires r.completed.Some?
  {
    Attempt(r.completed.value, r.rawScore, |r.responses|)
  }

  /** The lines of one group, in group order. */
  function Attempts(group: seq<StudentResponse>): seq<Attempt>
    requires AllCompleted(group)
  {
    seq(|group|, i requires 0 <= i < |group| => AttemptOf(group[i]))
  }

  /** The data of one assessment's section of the progress report. */
  datatype ProgressEntry = ProgressEntry(
    assessmentId: string,
    assessment: Option<Assessment>,
    attempts: seq<Attempt>,
    delta: int)
}
