/** Session derivation: the lazy `useState` initializer of the quiz engine
    (QuizEngine.tsx, lines 17-31) that filters the pool, picks a size limit,
    shuffles and truncates. */
module SessionInit {
  import opened QuizTypes
  import opened SeqUtil

  /** The catalogue-wide pseudo-category. */
  const AllCategories: string := "all"

  /** `q.category === category || category === 'all'`. */
  predicate InChosenCategory(q: Question, category: string)
  {
    q.category == category || category == AllCategories
  }

  /** Eligible for a session on `category`, narrowed to `subTopic` when one
      is given (`""` means none). */
  predicate Eligible(q: Question, category: string, subTopic: string)
  {
    InChosenCategory(q, category) && (subTopic == "" || q.subTopic == subTopic)
  }

  /** The two filters of lines 22-27, in pool order. */
  function FilterPool(pool: seq<Question>, category: string, subTopic: string): (r: seq<Question>)
    ensures forall q :: q in r <==> q in pool && Eligible(q, category, subTopic)
    ensures |r| <= |pool|
  {
    var byCategory := Filter(pool, (q: Question) => InChosenCategory(q, category));
    if subTopic != "" then Filter(byCategory, (q: Question) => q.subTopic == subTopic)
    else byCategory
  }

  /** The two filters in a row are one filter by eligibility. */
  lemma FilterPoolIsFilter(pool: seq<Question>, category: string, subTopic: string)
    ensures FilterPool(pool, category, subTopic) == Filter(pool, (q: Question) => Eligible(q, category, subTopic))
  {
    var inCategory := (q: Question) => InChosenCategory(q, category);
    var eligible := (q: Question) => Eligible(q, category, subTopic);
    if subTopic != "" {
      var onTopic := (q: Question) => q.subTopic == subTopic;
      assert FilterPool(pool, category, subTopic) == Filter(Filter(pool, inCategory), onTopic);
      FilterFilter(pool, inCategory, onTopic, eligible);
    } else {
      assert FilterPool(pool, category, subTopic) == Filter(pool, inCategory);
      FilterCongruent(pool, inCategory, eligible);
    }
  }

  /** The candidates are exactly the eligible pool entries, every
      occurrence of each, in pool order. */
  lemma FilterPoolExact(pool: seq<Question>, category: string, subTopic: string)
    ensures var r := FilterPool(pool, category, subTopic);
      forall q :: multiset(r)[q] == (if Eligible(q, category, subTopic) then multiset(pool)[q] else 0)
    ensures IsSubsequence(FilterPool(pool, category, subTopic), pool)
  {
    FilterPoolIsFilter(pool, category, subTopic);
    FilterExact(pool, (q: Question) => Eligible(q, category, subTopic));
  }

  /** `categories?.find(c => c.id === category)`: the first matching entry. */
  function FindCategory(categories: seq<CategoryConfig>, id: string): (r: Option<CategoryConfig>)
    ensures r.Some? ==> r.value in categories && r.value.id == id
    ensures r.Some? ==> exists k :: 0 <= k < |categories| && categories[k] == r.value &&
                                   (forall j :: 0 <= j < k ==> categories[j].id != id)
    ensures r.None? ==> forall c :: c in categories ==> c.id != id
  {
    if |categories| == 0 then None
    else if categories[0].id == id then Some(categories[0])
    else FindCategory(categories[1..], id)
  }

  /** Line 20: a sub-topic session is capped at 50; otherwise the
      category's own `maxQuestions`, falling back to the global setting
      when the category is unknown or has none. */
  function SizeLimit(categories: seq<CategoryConfig>, category: string, subTopic: string, settings: Settings): (r: nat)
    ensures subTopic != "" ==> r == SubTopicCap
    ensures var c := FindCategory(categories, category);
      subTopic == "" && c.Some? && c.value.maxQuestions > 0 ==> r == c.value.maxQuestions
    ensures var c := FindCategory(categories, category);
      subTopic == "" && (c.None? || c.value.maxQuestions == 0) ==> r == settings.questionsPerQuiz
  {
    if subTopic != "" then SubTopicCap
    else match FindCategory(categories, category)
      case Some(c) => if c.maxQuestions != 0 then c.maxQuestions else settings.questionsPerQuiz
      case None => settings.questionsPerQuiz
  }

  /** The shuffle of line 30 as an arbitrary permutation: each round moves
      some remaining element, chosen freely, to the output. No distribution
      is claimed. */
  method Shuffle(xs: seq<Question>) returns (ys: seq<Question>)
    ensures multiset(ys) == multiset(xs)
  {
    ys := [];
    var rest := xs;
    while |rest| > 0
      invariant multiset(ys) + multiset(rest) == multiset(xs)
      decreases |rest|
    {
      var i :| 0 <= i < |rest|;
      assert rest == rest[..i] + [rest[i]] + rest[i + 1..];
      ys := ys + [rest[i]];
      rest := rest[..i] + rest[i + 1..];
    }
  }

  /** The whole initializer: the session holds `min(|filtered|, limit)`
      questions, each drawn from the eligible ones and none more often than
      it occurs among them. */
  method DeriveSession(pool: seq<Question>, categories: seq<CategoryConfig>, category: string,
                       subTopic: string, settings: Settings)
    returns (qs: seq<Question>)
    ensures |qs| == Min(|FilterPool(pool, category, subTopic)|, SizeLimit(categories, category, subTopic, settings))
    ensures multiset(qs) <= multiset(FilterPool(pool, category, subTopic))
    ensures forall q :: q in qs ==> q in pool && Eligible(q, category, subTopic)
  {
    var filtered := FilterPool(pool, category, subTopic);
    var limit := SizeLimit(categories, category, subTopic, settings);
    var shuffled := Shuffle(filtered);
    assert |shuffled| == |filtered| by {
      assert |multiset(shuffled)| == |multiset(filtered)|;
    }
    var k := Min(limit, |shuffled|);
    qs := shuffled[..k];
    assert shuffled == qs + shuffled[k..];
    assert multiset(shuffled) == multiset(qs) + multiset(shuffled[k..]);
    forall q | q in qs
      ensures q in pool && Eligible(q, category, subTopic)
    {
      assert q in multiset(qs);
      assert q in multiset(filtered);
    }
  }
}
