/**
 * The read-only route handlers, as functions of the database contents and the
 * already-parsed request. The database's `ILIKE` matching is the parameter
 * `matches`, Python's `random.randrange` the index `pick`.
 */
module Handlers {
  import opened Wrappers
  import opened Pagination
  import opened Records
  import opened Errors

  /** A JSON value as the request body carries it. `JCompound` stands for arrays
      and objects. */
  datatype JsonValue = JNull | JBool(b: bool) | JInt(i: int) | JString(s: string) | JCompound

  /** Python's `int(v)` on a JSON value: `None` raises, booleans are 0 and 1,
      integers are kept, strings go through `parseText`, arrays and objects raise. */
  function PyInt(v: JsonValue, parseText: string -> Option<int>): (r: Option<int>)
    ensures v.JNull? || v.JCompound? ==> r.None?
    ensures v.JInt? ==> r == Some(v.i)
  {
    match v
    case JNull => None
    case JBool(b) => Some(if b then 1 else 0)
    case JInt(i) => Some(i)
    case JString(s) => parseText(s)
    case JCompound => None
  }

  /** A page of questions and its context: the questions of the page, the length
      of the whole unpaginated list, and the current category (`None` is `{}`). */
  datatype QuestionPage = QuestionPage(questions: seq<Question>, totalQuestions: nat, currentCategory: Option<Category>)

  /** The questions whose text matches the search term, in table order. */
  function SearchHits(questions: seq<Question>, term: string, matches: (string, string) -> bool): (r: seq<Question>)
    ensures forall q :: q in r <==> q in questions && matches(term, q.question)
    ensures DistinctIds(questions) ==> DistinctIds(r)
  {
    var keep := (q: Question) => matches(term, q.question);
    SelectDistinct(questions, keep);
    Select(questions, keep)
  }

  /** The search branch of create_new_question: 400 for the empty term, otherwise
      a page of the matching questions and the number of all matches. */
  function SearchQuestions(questions: seq<Question>, term: string, page: int, matches: (string, string) -> bool)
    : (r: Outcome<QuestionPage>)
    ensures r.Fail? <==> term == ""
    ensures r.Fail? ==> r.status == BadRequest
    ensures r.Ok? ==> r.value.questions == Paginate(SearchHits(questions, term, matches), page)
    ensures r.Ok? ==> forall q :: q in r.value.questions ==> q in questions && matches(term, q.question)
    ensures r.Ok? ==> r.value.totalQuestions == |SearchHits(questions, term, matches)|
    ensures r.Ok? ==> r.value.currentCategory.None?
  {
    if term == "" then Fail(BadRequest)
    else
      var hits := SearchHits(questions, term, matches);
      Ok(QuestionPage(Paginate(hits, page), |hits|, None))
  }

  /** With distinct ids, the total of a search is the number of matching questions. */
  lemma SearchTotalCountsMatches(questions: seq<Question>, term: string, page: int, matches: (string, string) -> bool)
    requires DistinctIds(questions) && term != ""
    ensures SearchQuestions(questions, term, page, matches).value.totalQuestions
            == |set q | q in questions && matches(term, q.question)|
  {
    var hits := SearchHits(questions, term, matches);
    DistinctCardinality(hits);
    assert (set q | q in hits) == (set q | q in questions && matches(term, q.question));
  }

  /** The questions of one category, in table order. */
  function InCategory(questions: seq<Question>, categoryId: int): (r: seq<Question>)
    ensures forall q :: q in r <==> q in questions && q.category == categoryId
    ensures DistinctIds(questions) ==> DistinctIds(r)
  {
    var keep := (q: Question) => q.category == categoryId;
    SelectDistinct(questions, keep);
    Select(questions, keep)
  }

  /** get_questions_by_category: 404 for an unknown category, otherwise a page of
      that category's questions in ascending id order, their total count, and the
      category itself. */
  function QuestionsByCategory(questions: seq<Question>, categories: seq<Category>, categoryId: int, page: int)
    : (r: Outcome<QuestionPage>)
    requires DistinctIds(questions)
    ensures r.Fail? <==> categoryId !in CategoryIds(categories)
    ensures r.Fail? ==> r.status == NotFound
    ensures r.Ok? ==> forall q :: q in r.value.questions ==> q in questions && q.category == categoryId
    ensures r.Ok? ==> AscendingIds(r.value.questions)
    ensures r.Ok? ==> r.value.questions == Paginate(SortById(InCategory(questions, categoryId)), page)
    ensures r.Ok? ==> r.value.totalQuestions == |InCategory(questions, categoryId)|
    ensures r.Ok? ==> r.value.currentCategory.Some? && r.value.currentCategory.value in categories
                      && r.value.currentCategory.value.id == categoryId
  {
    match FindCategory(categories, categoryId)
    case None => Fail(NotFound)
    case Some(c) =>
      var inCategory := InCategory(questions, categoryId);
      SortAscending(inCategory);
      var all := SortById(inCategory);
      PageOfAscending(all, page);
      Ok(QuestionPage(Paginate(all, page), |all|, Some(c)))
  }

  /** With distinct ids, the total of a category listing is the number of
      questions in that category. */
  lemma CategoryTotalCountsMembers(questions: seq<Question>, categories: seq<Category>, categoryId: int, page: int)
    requires DistinctIds(questions) && categoryId in CategoryIds(categories)
    ensures QuestionsByCategory(questions, categories, categoryId, page).value.totalQuestions
            == |set q | q in questions && q.category == categoryId|
  {
    var members := InCategory(questions, categoryId);
    DistinctCardinality(members);
    assert (set q | q in members) == (set q | q in questions && q.category == categoryId);
  }

  /** The quiz candidates: questions not asked before, restricted to the
      category unless `categoryId` is 0 (all categories). */
  function QuizPool(questions: seq<Question>, categoryId: int, previous: seq<int>): (r: seq<Question>)
    ensures forall q :: q in r <==> q in questions && q.id !in previous && (categoryId == 0 || q.category == categoryId)
  {
    Select(questions, (q: Question) => q.id !in previous && (categoryId == 0 || q.category == categoryId))
  }

  /** The quiz request reaches `randrange` (category 0 or a known category, and a
      non-empty pool) only with an index inside the pool. */
  predicate PickInRange(questions: seq<Question>, categories: seq<Category>, categoryId: int, previous: seq<int>, pick: nat) {
    (categoryId == 0 || categoryId in CategoryIds(categories)) ==>
      var pool := QuizPool(questions, categoryId, previous);
      pool == [] || pick < |pool|
  }

  /** retrieve_quiz: 400 for an unknown non-zero category, success without a
      question when no candidate is left, otherwise the candidate at `pick`. */
  function RetrieveQuiz(questions: seq<Question>, categories: seq<Category>, categoryId: int, previous: seq<int>, pick: nat)
    : (r: Outcome<Option<Question>>)
    requires PickInRange(questions, categories, categoryId, previous, pick)
    ensures r.Fail? <==> categoryId != 0 && categoryId !in CategoryIds(categories)
    ensures r.Fail? ==> r.status == BadRequest
    ensures r.Ok? && r.value.Some? ==>
              var q := r.value.value;
              q in questions && q.id !in previous && (categoryId != 0 ==> q.category == categoryId)
    ensures r.Ok? ==> (r.value.None? <==>
              forall q :: q in questions ==> q.id in previous || (categoryId != 0 && q.category != categoryId))
  {
    if categoryId != 0 && FindCategory(categories, categoryId).None? then Fail(BadRequest)
    else
      var pool := QuizPool(questions, categoryId, previous);
      if |pool| == 0 then Ok(None)
      else
        assert pool[pick] in pool;
        Ok(Some(pool[pick]))
  }

  /** Every candidate can be drawn: for each question in the pool some index
      makes the quiz return it. */
  lemma EveryCandidateReachable(questions: seq<Question>, categories: seq<Category>, categoryId: int, previous: seq<int>, q: Question)
    requires categoryId == 0 || categoryId in CategoryIds(categories)
    requires q in questions && q.id !in previous && (categoryId == 0 || q.category == categoryId)
    ensures exists pick: nat :: PickInRange(questions, categories, categoryId, previous, pick)
                               && RetrieveQuiz(questions, categories, categoryId, previous, pick) == Ok(Some(q))
  {
    var pool := QuizPool(questions, categoryId, previous);
    var k :| 0 <= k < |pool| && pool[k] == q;
    assert PickInRange(questions, categories, categoryId, previous, k);
    assert RetrieveQuiz(questions, categories, categoryId, previous, k) == Ok(Some(q));
  }
}
