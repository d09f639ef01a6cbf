/** Sub-topic discovery and the category picker of the dashboard
    (components/Dashboard.tsx). */
module Dashboard {
  import opened QuizTypes
  import opened SeqUtil
  import SessionInit

  /** `allQuestions.filter(q => q.category === catId)` (lines 30 and 96):
      strict equality, so the pseudo-category "all" is not special here. */
  function CategoryQuestions(all: seq<Question>, catId: string): (r: seq<Question>)
    ensures forall q :: q in r <==> q in all && q.category == catId
  {
    Filter(all, (q: Question) => q.category == catId)
  }

  /** Every occurrence of each question of the category, in catalogue
      order, and nothing else. */
  lemma CategoryQuestionsExact(all: seq<Question>, catId: string)
    ensures var r := CategoryQuestions(all, catId);
      forall q :: multiset(r)[q] == (if q.category == catId then multiset(all)[q] else 0)
    ensures IsSubsequence(CategoryQuestions(all, catId), all)
  {
    FilterExact(all, (q: Question) => q.category == catId);
  }

  /** Position of the first question of `qs` with sub-topic `t`, or `|qs|`
      when there is none. */
  function FirstIndex(qs: seq<Question>, t: string): (r: nat)
    ensures r <= |qs|
    ensures r < |qs| ==> qs[r].subTopic == t
    ensures forall k :: 0 <= k < r ==> qs[k].subTopic != t
  {
    if |qs| == 0 then 0
    else if qs[0].subTopic == t then 0
    else 1 + FirstIndex(qs[1..], t)
  }

  /** Dropping the last question keeps a first occurrence found earlier. */
  lemma {:induction false} FirstIndexPrefix(qs: seq<Question>, t: string)
    requires |qs| > 0
    ensures FirstIndex(qs[..|qs| - 1], t) < |qs| - 1 ==> FirstIndex(qs, t) == FirstIndex(qs[..|qs| - 1], t)
    ensures FirstIndex(qs[..|qs| - 1], t) == |qs| - 1 ==> FirstIndex(qs, t) >= |qs| - 1
  {
    var prefix := qs[..|qs| - 1];
    var a := FirstIndex(prefix, t);
    var b := FirstIndex(qs, t);
    assert forall k :: 0 <= k < |prefix| ==> prefix[k] == qs[k];
  }

  /** The distinct non-empty sub-topics of `qs` in order of first
      appearance: the `forEach` with `Set.add` and `Array.from` of lines
      31-35 (a JavaScript `Set` iterates in insertion order). */
  function SubTopicsInOrder(qs: seq<Question>): (r: seq<string>)
    ensures |r| <= |qs|
    ensures "" !in r
  {
    if |qs| == 0 then []
    else
      var r := SubTopicsInOrder(qs[..|qs| - 1]);
      var t := qs[|qs| - 1].subTopic;
      if t == "" || t in r then r else r + [t]
  }

  /** The sub-topic list holds exactly the non-empty sub-topics present. */
  lemma {:induction false} SubTopicsMembers(qs: seq<Question>)
    ensures forall t :: t in SubTopicsInOrder(qs) <==> t != "" && exists q :: q in qs && q.subTopic == t
  {
    if |qs| > 0 {
      var prefix := qs[..|qs| - 1];
      var last := qs[|qs| - 1];
      SubTopicsMembers(prefix);
      assert qs == prefix + [last];
      assert forall q :: q in qs <==> q in prefix || q == last;
    }
  }

  /** The sub-topic list never repeats a topic. */
  lemma {:induction false} SubTopicsNoDup(qs: seq<Question>)
    ensures NoDup(SubTopicsInOrder(qs))
  {
    if |qs| > 0 {
      SubTopicsNoDup(qs[..|qs| - 1]);
    }
  }

  /** The sub-topic list is ordered by first appearance in `qs`. */
  lemma {:induction false} SubTopicsOrder(qs: seq<Question>)
    ensures forall i, j :: 0 <= i < j < |SubTopicsInOrder(qs)| ==>
      FirstIndex(qs, SubTopicsInOrder(qs)[i]) < FirstIndex(qs, SubTopicsInOrder(qs)[j])
  {
    if |qs| > 0 {
      var n := |qs|;
      var prefix := qs[..n - 1];
      var r := SubTopicsInOrder(prefix);
      var t := qs[n - 1].subTopic;
      SubTopicsOrder(prefix);
      SubTopicsMembers(prefix);
      // every listed topic first appears inside the prefix, at the same place
      forall u | u in r
        ensures FirstIndex(prefix, u) < n - 1 && FirstIndex(qs, u) == FirstIndex(prefix, u)
      {
        var q :| q in prefix && q.subTopic == u;
        var k :| 0 <= k < |prefix| && prefix[k] == q;
        FirstIndexPrefix(qs, u);
      }
      if !(t == "" || t in r) {
        var r' := r + [t];
        FirstIndexPrefix(qs, t);
        forall i, j | 0 <= i < j < |r'|
          ensures FirstIndex(qs, r'[i]) < FirstIndex(qs, r'[j])
        {
          assert r'[i] in r;
          if j < |r| {
            assert r'[j] in r;
          }
        }
      }
    }
  }

  /** `getTypesForCategory` (lines 29-36). */
  function TypesForCategory(all: seq<Question>, catId: string): (r: seq<string>)
    ensures NoDup(r)
    ensures forall t :: t in r <==> t != "" && exists q :: q in all && q.category == catId && q.subTopic == t
    ensures forall i, j :: 0 <= i < j < |r| ==>
      FirstIndex(CategoryQuestions(all, catId), r[i]) < FirstIndex(CategoryQuestions(all, catId), r[j])
  {
    SubTopicsMembers(CategoryQuestions(all, catId));
    SubTopicsNoDup(CategoryQuestions(all, catId));
    SubTopicsOrder(CategoryQuestions(all, catId));
    SubTopicsInOrder(CategoryQuestions(all, catId))
  }

  /** "MCQs Available" on a category card (line 96). */
  function CategoryCount(all: seq<Question>, catId: string): (r: nat)
    ensures r <= |all|
    ensures r == 0 <==> forall q :: q in all ==> q.category != catId
  {
    var qs := CategoryQuestions(all, catId);
    assert |qs| > 0 ==> qs[0] in qs;
    |qs|
  }

  /** "Specialized MCQs" on a sub-topic button (line 179). */
  function TypeCount(all: seq<Question>, catId: string, t: string): (r: nat)
    ensures r <= |all|
  {
    |Filter(all, (q: Question) => q.category == catId && q.subTopic == t)|
  }

  /** A sub-topic button shows 0 exactly when no question of the category
      carries that sub-topic. */
  lemma TypeCountZero(all: seq<Question>, catId: string, t: string)
    ensures TypeCount(all, catId, t) == 0 <==> forall q :: q in all ==> !(q.category == catId && q.subTopic == t)
  {
    var qs := Filter(all, (q: Question) => q.category == catId && q.subTopic == t);
    assert |qs| > 0 ==> qs[0] in qs;
  }

  /** No sub-topic button shows more questions than its category card. */
  lemma TypeCountBounded(all: seq<Question>, catId: string, t: string)
    ensures TypeCount(all, catId, t) <= CategoryCount(all, catId)
  {
    FilterMonotone(all, (q: Question) => q.category == catId && q.subTopic == t,
                        (q: Question) => q.category == catId);
  }

  /** Sum of the counts shown for the sub-topics `ts`. */
  function SumTypeCounts(all: seq<Question>, catId: string, ts: seq<string>): nat
  {
    if |ts| == 0 then 0 else TypeCount(all, catId, ts[0]) + SumTypeCounts(all, catId, ts[1..])
  }

  /** The first question adds one to a sub-topic's count exactly when it is
      of that category and sub-topic. */
  lemma TypeCountHead(all: seq<Question>, catId: string, t: string)
    requires |all| > 0
    ensures TypeCount(all, catId, t) ==
      (if all[0].category == catId && all[0].subTopic == t then 1 else 0) + TypeCount(all[1..], catId, t)
  {
  }

  /** Splitting off the first question: it adds one to the sum exactly when
      its sub-topic is one of the (distinct) `ts`. */
  lemma {:induction false} SumTypeCountsHead(all: seq<Question>, catId: string, ts: seq<string>)
    requires |all| > 0 && NoDup(ts)
    ensures SumTypeCounts(all, catId, ts) ==
      (if all[0].category == catId && all[0].subTopic in ts then 1 else 0) + SumTypeCounts(all[1..], catId, ts)
  {
    if |ts| > 0 {
      assert NoDup(ts[1..]);
      SumTypeCountsHead(all, catId, ts[1..]);
      TypeCountHead(all, catId, ts[0]);
      assert ts[0] !in ts[1..];
      assert ts == [ts[0]] + ts[1..];
    }
  }

  /** For distinct sub-topics, the per-topic counts add up to the number of
      category questions whose sub-topic is among them. */
  lemma {:induction false} SumTypeCountsIsCount(all: seq<Question>, catId: string, ts: seq<string>)
    requires NoDup(ts)
    ensures SumTypeCounts(all, catId, ts) ==
      |Filter(all, (q: Question) => q.category == catId && q.subTopic in ts)|
  {
    if |all| == 0 {
      if |ts| > 0 {
        SumTypeCountsIsCount(all, catId, ts[1..]);
      }
    } else {
      SumTypeCountsHead(all, catId, ts);
      SumTypeCountsIsCount(all[1..], catId, ts);
    }
  }

  /** Questions of the category that carry a sub-topic. */
  function TypedCount(all: seq<Question>, catId: string): nat
  {
    |Filter(all, (q: Question) => q.category == catId && q.subTopic != "")|
  }

  /** The sub-topic buttons of a category together count exactly the
      category's questions that carry a sub-topic. */
  lemma {:induction false} TypeCountsSum(all: seq<Question>, catId: string)
    ensures SumTypeCounts(all, catId, TypesForCategory(all, catId)) == TypedCount(all, catId)
  {
    var ts := TypesForCategory(all, catId);
    SumTypeCountsIsCount(all, catId, ts);
    forall q | q in all
      ensures (q.category == catId && q.subTopic in ts) == (q.category == catId && q.subTopic != "")
    {
      if q.category == catId && q.subTopic != "" {
        assert q in all && q.category == catId && q.subTopic == q.subTopic;
      }
    }
    FilterCongruent(all, (q: Question) => q.category == catId && q.subTopic in ts,
                         (q: Question) => q.category == catId && q.subTopic != "");
  }

  /** Hence the sub-topic buttons never add up to more than the category
      card shows. */
  lemma {:induction false} TypeCountsWithinCategory(all: seq<Question>, catId: string)
    ensures SumTypeCounts(all, catId, TypesForCategory(all, catId)) <= CategoryCount(all, catId)
  {
    TypeCountsSum(all, catId);
    FilterMonotone(all, (q: Question) => q.category == catId && q.subTopic != "",
                        (q: Question) => q.category == catId);
  }

  /** `onSelectCategory(catId, type)`; a `null` type is `""`. */
  datatype Selection = Selection(categoryId: string, subTopic: string)

  /** The dashboard's state (`selectedCatForType`, the category whose
      sub-topic picker is open) and the session a click requested, if any. */
  datatype Outcome = Outcome(picker: Option<string>, launched: Option<Selection>)

  /** The picker renders only while `selectedCatForType` is truthy
      (line 147): a category id that is the empty string opens nothing. */
  predicate PickerShown(picker: Option<string>)
  {
    picker.Some? && picker.value != ""
  }

  /** `handleCategoryClick` (lines 38-45): a category without sub-topics
      starts a mixed session at once; otherwise only the picker opens. */
  function CategoryClick(picker: Option<string>, all: seq<Question>, catId: string): (o: Outcome)
    ensures o.launched.Some? <==> forall q :: q in all && q.category == catId ==> q.subTopic == ""
    ensures o.launched.Some? ==> o.launched == Some(Selection(catId, "")) && o.picker == picker
    ensures o.launched.None? ==> o.picker == Some(catId)
    ensures o.launched.None? ==> (PickerShown(o.picker) <==> catId != "")
  {
    var types := TypesForCategory(all, catId);
    if |types| > 0 then
      assert types[0] in types;
      Outcome(Some(catId), None)
    else
      assert forall q :: q in all && q.category == catId ==> q.subTopic !in types;
      Outcome(picker, Some(Selection(catId, "")))
  }

  /** "Mix Practice" (line 160): the open category without a sub-topic;
      the picker closes. */
  function PickMix(picker: Option<string>): (o: Outcome)
    requires PickerShown(picker)
    ensures o.picker.None?
    ensures o.launched == Some(Selection(picker.value, ""))
  {
    Outcome(None, Some(Selection(picker.value, "")))
  }

  /** A sub-topic button (line 173): the open category narrowed to `t`; the
      picker closes. Every offered sub-topic has questions behind it. */
  function PickSubTopic(picker: Option<string>, all: seq<Question>, t: string): (o: Outcome)
    requires PickerShown(picker) && t in TypesForCategory(all, picker.value)
    ensures o.picker.None?
    ensures o.launched == Some(Selection(picker.value, t)) && t != ""
    ensures TypeCount(all, picker.value, t) > 0
  {
    var q :| q in all && q.category == picker.value && q.subTopic == t;
    assert q in Filter(all, (x: Question) => x.category == picker.value && x.subTopic == t);
    Outcome(None, Some(Selection(picker.value, t)))
  }

  /** The picker's close button (line 155): the picker is hidden and no
      session starts. */
  function ClosePicker(picker: Option<string>): (o: Outcome)
    ensures o.picker.None? && !PickerShown(o.picker) && o.launched.None?
  {
    Outcome(None, None)
  }

  /** A session launched from a sub-topic button always has questions when
      the engine draws from the same catalogue: the pool filter keeps the
      offered questions and the cap is 50. */
  lemma SubTopicLaunchIsNeverEmpty(all: seq<Question>, categories: seq<CategoryConfig>, catId: string,
                                   t: string, settings: Settings)
    requires t in TypesForCategory(all, catId)
    ensures |SessionInit.FilterPool(all, catId, t)| > 0
    ensures SessionInit.SizeLimit(categories, catId, t, settings) == SubTopicCap
  {
    var q :| q in all && q.category == catId && q.subTopic == t;
    assert q in SessionInit.FilterPool(all, catId, t);
  }
}
