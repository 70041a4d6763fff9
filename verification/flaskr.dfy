/**
 * The trivia database as a mutable store, and the route handlers that loop
 * over it or change it.
 */
module Flaskr {
  import opened Wrappers
  import opened Pagination
  import opened Records
  import opened Errors
  import opened Handlers

  /** The body of `POST /api/questions`. `searchTerm` is `None` when the key is
      absent or null; the other fields are the new question's payload. */
  datatype PostBody = PostBody(searchTerm: Option<string>, question: string, answer: string,
                               difficulty: JsonValue, category: int)

  /** The success replies of `POST /api/questions`. */
  datatype PostReply = Created | Found(page: QuestionPage)

  class Store {
    /** The question table, in storage order. */
    var questions: seq<Question>
    /** The category table, in storage order. */
    var categories: seq<Category>

    /** Both tables keep their primary keys distinct. */
    ghost predicate Valid()
      reads this
    {
      DistinctIds(questions) && DistinctCategoryIds(categories)
    }

    constructor (questions: seq<Question>, categories: seq<Category>)
      requires DistinctIds(questions) && DistinctCategoryIds(categories)
      ensures Valid()
      ensures this.questions == questions && this.categories == categories
    {
      this.questions := questions;
      this.categories := categories;
    }

    /** get_categories_as_dictionary: maps every category id to its type. */
    method CategoriesAsDictionary() returns (d: map<int, string>)
      requires Valid()
      ensures d.Keys == CategoryIds(categories)
      ensures forall c :: c in categories ==> c.id in d && d[c.id] == c.kind
    {
      d := map[];
      for i := 0 to |categories|
        invariant d.Keys == CategoryIds(categories[..i])
        invariant forall j :: 0 <= j < i ==> d[categories[j].id] == categories[j].kind
      {
        assert categories[..i + 1] == categories[..i] + [categories[i]];
        d := d[categories[i].id := categories[i].kind];
      }
      assert categories[..|categories|] == categories;
    }

    /** retrieve_categories: always a success, with the (possibly empty) dictionary. */
    method RetrieveCategories() returns (r: Outcome<map<int, string>>)
      requires Valid()
      ensures r.Ok?
      ensures r.value.Keys == CategoryIds(categories)
      ensures forall c :: c in categories ==> r.value[c.id] == c.kind
    {
      var d := CategoriesAsDictionary();
      r := Ok(d);
    }

    /** retrieve_questions: one page of all questions in ascending id order, the
        number of all questions, and the category dictionary. */
    method RetrieveQuestions(pageArg: Option<int>) returns (page: QuestionPage, dictionary: map<int, string>)
      requires Valid()
      ensures page.questions == Paginate(SortById(questions), PageNumber(pageArg))
      ensures AscendingIds(page.questions)
      ensures forall q :: q in page.questions ==> q in questions
      ensures page.totalQuestions == |questions|
      ensures page.currentCategory.None?
      ensures dictionary.Keys == CategoryIds(categories)
      ensures forall c :: c in categories ==> dictionary[c.id] == c.kind
    {
      var ordered := SortById(questions);
      SortAscending(questions);
      PageOfAscending(ordered, PageNumber(pageArg));
      page := QuestionPage(Paginate(ordered, PageNumber(pageArg)), |ordered|, None);
      dictionary := CategoriesAsDictionary();
    }

    /** create_new_question: a body without a search term creates a question, one
        with a search term searches. The database assigns `newId`, unused so far;
        `insertFails` stands for any failure of `insert()`. */
    method PostQuestions(body: PostBody, pageArg: Option<int>, parseText: string -> Option<int>,
                         matches: (string, string) -> bool, newId: int, insertFails: bool)
      returns (r: Outcome<PostReply>)
      requires Valid()
      requires newId !in Ids(questions)
      modifies this`questions
      ensures Valid()
      ensures body.searchTerm.Some? ==>
                questions == old(questions)
                && match SearchQuestions(questions, body.searchTerm.value, PageNumber(pageArg), matches)
                   case Ok(p) => r == Ok(Found(p))
                   case Fail(s) => r == Fail(s)
      ensures body.searchTerm == Some("") ==> r == Fail(BadRequest) && questions == old(questions)
      ensures body.searchTerm.None? ==>
                var difficulty := PyInt(body.difficulty, parseText);
                if difficulty.Some? && !insertFails then
                  r == Ok(Created)
                  && questions == old(questions) + [Question(newId, body.question, body.answer, body.category, difficulty.value)]
                else
                  r == Fail(Unprocessable) && questions == old(questions)
      ensures r.Ok? && r.value.Created? ==> |questions| == |old(questions)| + 1
      ensures !(r.Ok? && r.value.Created?) ==> questions == old(questions)
    {
      if body.searchTerm.None? {
        var difficulty := PyInt(body.difficulty, parseText);
        if difficulty.None? || insertFails {
          r := Fail(Unprocessable);
        } else {
          var q := Question(newId, body.question, body.answer, body.category, difficulty.value);
          AppendFresh(questions, q);
          questions := questions + [q];
          r := Ok(Created);
        }
      } else {
        match SearchQuestions(questions, body.searchTerm.value, PageNumber(pageArg), matches)
        case Ok(p) => r := Ok(Found(p));
        case Fail(s) => r := Fail(s);
      }
    }

    /** delete_question: 422 unless the id exists and `delete()` succeeds;
        otherwise exactly that question is removed and its id echoed. */
    method DeleteQuestion(questionId: int, deleteFails: bool) returns (r: Outcome<int>)
      requires Valid()
      modifies this`questions
      ensures Valid()
      ensures questionId in Ids(old(questions)) && !deleteFails ==>
                r == Ok(questionId) && questions == Without(old(questions), questionId)
                && |questions| == |old(questions)| - 1
      ensures questionId !in Ids(old(questions)) || deleteFails ==>
                r == Fail(Unprocessable) && questions == old(questions)
      ensures forall q :: q in questions <==> q in old(questions) && (r.Ok? ==> q.id != questionId)
    {
      if questionId !in Ids(questions) || deleteFails {
        r := Fail(Unprocessable);
      } else {
        WithoutDistinct(questions, questionId);
        WithoutRemovesOne(questions, questionId);
        questions := Without(questions, questionId);
        r := Ok(questionId);
      }
    }
  }

  /** Appending a row with a fresh id keeps the ids distinct and adds that id. */
  lemma AppendFresh(qs: seq<Question>, q: Question)
    requires DistinctIds(qs) && q.id !in Ids(qs)
    ensures DistinctIds(qs + [q])
    ensures Ids(qs + [q]) == Ids(qs) + {q.id}
  {
  }
}
