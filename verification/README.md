# Trivia API request handling, modelled in Dafny

This project models the request-handling rules of the trivia quiz backend
(`backend/flaskr/__init__.py`) without Flask or SQLAlchemy. The database is an
in-memory store of two tables: questions `{id, question, answer, category,
difficulty}` and categories `{id, type}`. Each route handler is a Dafny member
over that store. It returns a success value or one of the error conditions
400, 404 or 422, and the error responder turns that condition into its fixed
JSON body.

Modules, leaf first:

- `Wrappers` (`wrappers.dfy`): `Option`.
- `Pagination` (`pagination.dfy`): `get_paginated_results`, with Python's slice
  semantics written out. Negative slice bounds count from the end and are then
  clamped. So page 0 is always empty, and a negative page returns a window
  counted from the tail of the list.
- `Records` (`records.dfy`): the table rows and the queries the handlers issue.
  These are `order_by("id")` (an insertion sort, proved to be a permutation in
  ascending id order), `filter(...)`, `delete()` and `Category.query.get`.
- `Errors` (`errors.dfy`): the four conditions, the handler outcome type, and the
  error handlers' replies.
- `Handlers` (`handlers.dfy`): the read-only handlers as functions of the table
  contents. These are the search branch of `create_new_question`,
  `get_questions_by_category` and `retrieve_quiz`.
- `Flaskr` (`flaskr.dfy`): the class `Store`, which owns both tables. Its methods
  cover the handlers that loop over the store or change it:
  `get_categories_as_dictionary`, `retrieve_categories`, `retrieve_questions`,
  `create_new_question` and `delete_question`.

Things the program leaves to its environment are parameters:

- the database's `ILIKE` match is `matches(term, text)`;
- Python's `int()` on a JSON string is `parseText`;
- `random.randrange(len(pool))` is an index `pick` inside the pool;
- the id the database assigns to a new row is `newId`;
- a failing `insert()` or `delete()` is a boolean flag.

The intended search is a case-insensitive substring search. The code differs from
that: it builds the pattern `%term%`, so `%` and `_` inside a term act as
wildcards. The model follows the code and leaves matching abstract, so it claims
nothing about which texts match.

## Model

| member | source | states |
|---|---|---|
| Pagination.PageNumber | backend/flaskr/__init__.py:37 | the page is the `page` argument after `int()`, and 1 when the argument is absent or not an integer |
| Pagination.Slice | backend/flaskr/__init__.py:41 | Python's `s[start:end]` is the contiguous window of `s` from the normalised start bound to the normalised end bound, and empty when the start is not below the end |
| Pagination.Paginate | backend/flaskr/__init__.py:36-41 | a page holds at most `QUESTIONS_PER_PAGE` (10) results, all taken from the list |
| Pagination.PageWindow | backend/flaskr/__init__.py:36-41 | for page >= 1 the page is exactly the results at indices `[(page-1)*10, min(len, page*10))`; it is full while results last, and empty (not an error) exactly when the page starts past the end |
| Pagination.PageZeroIsEmpty | backend/flaskr/__init__.py:36-41 | page 0 is always empty |
| Pagination.NegativePageWindow | backend/flaskr/__init__.py:36-41 | a negative page is the window `[max(0, len+(page-1)*10), max(0, len+page*10))`, counted from the tail |
| Pagination.PageMinusOneOfTwentyFive | backend/flaskr/__init__.py:36-41 | with 25 results, page -1 is not empty: it is the ten results at positions 5 to 14 |
| Pagination.PagesCover | backend/flaskr/__init__.py:36-41 | pages 1..k concatenated are exactly the first `min(len, 10k)` results in order, so no result is skipped or repeated |
| Pagination.ItemOnPage | backend/flaskr/__init__.py:36-41 | the result at index i appears on page `i/10 + 1` at position `i%10` |
| Pagination.NineteenQuestions | backend/flaskr/__init__.py:36-41 | with 19 questions, page 1 holds the first 10, page 2 the remaining 9, and page 3 is empty |
| Records.InsertById | backend/flaskr/__init__.py:60 | inserting a row adds exactly that row to the multiset of rows |
| Records.SortById | backend/flaskr/__init__.py:60 | `order_by("id")` returns a permutation of the table |
| Records.SortAscending | backend/flaskr/__init__.py:60 | with distinct ids, the ordered list is in strictly ascending id order and has the same length and rows as the table |
| Records.InsertAscending | backend/flaskr/__init__.py:60 | inserting a row with a fresh id into an id-ordered list keeps it id-ordered |
| Records.Select | backend/flaskr/__init__.py:102-103 | a filter query returns exactly the rows of the table that satisfy the condition, and no more rows than the table has |
| Records.SelectAscending | backend/flaskr/__init__.py:123-124 | filtering an id-ordered list yields an id-ordered list |
| Records.FilterThenSort | backend/flaskr/__init__.py:123-124 | with distinct ids, ordering the filtered rows by id gives the same list as filtering the id-ordered table, so `filter(...).order_by("id")` is the id-ordered list of exactly the matching rows |
| Records.SelectDistinct | backend/flaskr/__init__.py:123-124 | filtering a table with distinct ids yields distinct ids |
| Records.Without | backend/flaskr/__init__.py:142 | after `delete()` the table holds exactly the rows with a different id, and its id set loses exactly that id |
| Records.WithoutDistinct | backend/flaskr/__init__.py:142 | deleting keeps the primary keys distinct |
| Records.WithoutRemovesOne | backend/flaskr/__init__.py:139-142 | deleting an id the table holds shrinks the table by exactly one row |
| Records.DeleteUndoesInsert | backend/flaskr/__init__.py:138-148 | inserting a row with a fresh id and then deleting that id restores the table |
| Records.FindCategory | backend/flaskr/__init__.py:118 | `Category.query.get(id)` finds a row iff a category with that id exists, and the row it finds has that id |
| Records.PageOfAscending | backend/flaskr/__init__.py:124-126 | a page of an id-ordered list is id-ordered |
| Errors.Code | backend/flaskr/__init__.py:183-213 | every error reply carries a 4xx or 5xx code, and only the internal error is a server (5xx) error |
| Errors.Message | backend/flaskr/__init__.py:183-213 | every error reply carries a non-empty message |
| Errors.HandlerFor | backend/flaskr/__init__.py:183-213 | an aborted code is routed to a handler only when that handler's code is the aborted code |
| Errors.ErrorResponse | backend/flaskr/__init__.py:183-213 | each error reply has `success = false`, an `error` field equal to the HTTP status it is sent with, a status that routes back to the same condition, and the fixed message "Bad Request", "Not Found", "Unprocessable" or "Internal Server Error" |
| Errors.ErrorBodiesDistinct | backend/flaskr/__init__.py:183-213 | the four replies differ pairwise in both code and message |
| Handlers.PyInt | backend/flaskr/__init__.py:87 | `int()` of a missing (null) value, an array or an object fails; `int()` of an integer keeps it |
| Handlers.SearchHits | backend/flaskr/__init__.py:102-103 | the search hits are exactly the stored questions whose text matches the term, with distinct ids when the table's ids are distinct |
| Handlers.SearchQuestions | backend/flaskr/__init__.py:98-111 | the search fails with 400 iff the term is empty; otherwise every returned question is stored and matches, the page is a page of all hits, `total_questions` counts all hits rather than the page, and `current_category` is `{}` |
| Handlers.SearchTotalCountsMatches | backend/flaskr/__init__.py:102-109 | with distinct ids, a search's `total_questions` is the number of matching questions |
| Handlers.InCategory | backend/flaskr/__init__.py:123-124 | the category filter returns exactly the stored questions of that category |
| Handlers.QuestionsByCategory | backend/flaskr/__init__.py:116-133 | 404 iff the category does not exist; otherwise every returned question is stored and in that category, the page is id-ordered, `total_questions` is the size of the whole category list, and `current_category` is the category with that id |
| Handlers.CategoryTotalCountsMembers | backend/flaskr/__init__.py:123-131 | with distinct ids, `total_questions` of a category listing is the number of questions in that category |
| Handlers.QuizPool | backend/flaskr/__init__.py:159-167 | the quiz candidates are exactly the stored questions not asked before, restricted to the category when its id is not 0 |
| Handlers.RetrieveQuiz | backend/flaskr/__init__.py:153-178 | 400 iff the category id is non-zero and unknown; a returned question is stored, was not asked before, and is in the requested category when the id is not 0; no question is returned iff every stored question is excluded |
| Handlers.EveryCandidateReachable | backend/flaskr/__init__.py:169-178 | every candidate is returned for some random index, so the pick can reach the whole pool |
| Flaskr.Store.CategoriesAsDictionary | backend/flaskr/__init__.py:29-34 | the dictionary's keys are exactly the category ids, and each maps to its category's type |
| Flaskr.Store.RetrieveCategories | backend/flaskr/__init__.py:46-53 | listing categories always succeeds, even for an empty table, and returns the full dictionary |
| Flaskr.Store.RetrieveQuestions | backend/flaskr/__init__.py:58-71 | the page is the requested page of all questions in ascending id order, holds only stored questions, `total_questions` is the number of all questions (not the page size), `current_category` is `{}`, and the dictionary covers every category |
| Flaskr.Store.PostQuestions | backend/flaskr/__init__.py:78-111 | without a search term, a question is appended iff `difficulty` coerces to an integer and the insert succeeds, adding exactly one row and changing no other row; otherwise 422 and the store is unchanged; with a search term the store is unchanged and the reply is the search result, 400 for the empty term |
| Flaskr.Store.DeleteQuestion | backend/flaskr/__init__.py:138-148 | deleting a missing id (or a failing delete) gives 422 and changes nothing; deleting a stored id removes exactly that question, keeps every other question, shrinks the table by one and echoes the id |
| Flaskr.AppendFresh | backend/flaskr/__init__.py:89-90 | appending a question with a fresh id keeps the ids distinct and adds exactly that id |

## Left out

- The Flask application object, the CORS setup and the `after_request` headers (`backend/flaskr/__init__.py:14-27`). They are framework configuration with no decision logic.
- JSON parsing and `jsonify`. Requests are already-parsed Dafny values, and a reply is the handler's outcome value. A body that does not parse fails inside `request.get_json()` with a 400, which the 400 handler answers. A parsed body that is not an object, or a quiz body without `quiz_category` or `previous_questions`, makes `req.get` or `req[...]` raise, and the source answers 500. Neither path is modelled; the 500 reply appears only in the error responder.
- Flaskr.PostBody: `searchTerm` is a string or absent (an explicit null behaves as absent, as `req.get` makes it). A non-string search term is not represented. The model also cannot represent a create request whose `question` or `answer` is missing or not text, or whose `category` is missing or not an integer. The handler passes such values (`None` for a missing key) straight to the `Question` constructor. Whether the insert then fails depends on the table schema, which is not part of this model. Any insert failure is the flag `insertFails`.
- Handlers.PyInt: Python's parsing of integer strings is the parameter `parseText`. Floating-point numbers, which `int()` truncates, are not represented among the JSON values.
- Handlers.SearchHits: `ILIKE` matching (case folding, and `%` or `_` in the term acting as wildcards) is the database's, modelled as the parameter `matches`.
- Handlers.RetrieveQuiz: `random.randrange` is the argument `pick`, which must lie inside the candidate pool when the pool is reached. Uniformity is not a Dafny property. `EveryCandidateReachable` states only that every candidate can be picked.
- Flaskr.Store.PostQuestions: the id of the new row is the argument `newId`. It is required to be unused, as the database's id sequence provides. A collision with an explicitly seeded id would fail the insert, and that case is part of `insertFails`.
- Row order of queries without `order_by` (search, quiz) is the order of the table sequence. The database may return another order, so the model claims no order for search results.
- Transactions, session rollback after a failed write, and concurrent requests. Every write either happens completely or not at all.
- `backend/models.py` is not part of this model. `format()` is the record itself, and `insert()` and `delete()` are the table updates described above.
- Referential integrity: as in the source, a question's `category` need not name an existing category.
- The category column `type` is called `kind`, because `type` is a Dafny keyword.
