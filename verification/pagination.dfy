/**
 * Pagination of result lists (get_paginated_results).
 *
 * The handler takes the Python slice `results[start:end]` with
 * `start = (page - 1) * QUESTIONS_PER_PAGE` and `end = start + QUESTIONS_PER_PAGE`.
 * Python normalises each slice bound on its own: a negative bound counts from
 * the end of the list and is then clamped to `[0, len]`, and a slice whose
 * normalised start is not below its normalised end is empty. So page 0 is
 * always empty, while negative pages select windows counted from the tail.
 */
module Pagination {
  import opened Wrappers

  /** Number of questions on one page. */
  const QUESTIONS_PER_PAGE: nat := 10

  /** The page number the handler uses: the `page` query argument after `int()`,
      or 1 when the argument is absent or is not an integer. */
  function PageNumber(arg: Option<int>): (page: int)
    ensures arg.None? ==> page == 1
    ensures arg.Some? ==> page == arg.value
  {
    arg.GetOr(1)
  }

  /** Python's normalisation of one bound of a step-1 slice of a list of length `n`. */
  function ClampBound(i: int, n: nat): (b: nat)
    ensures b <= n
  {
    if i < 0 then (if i + n < 0 then 0 else i + n)
    else if i > n then n
    else i
  }

  /** Python's `s[start:end]`. */
  function Slice<T>(s: seq<T>, start: int, end: int): (r: seq<T>)
    ensures ClampBound(start, |s|) + |r| <= |s|
    ensures |r| == if ClampBound(start, |s|) < ClampBound(end, |s|)
                   then ClampBound(end, |s|) - ClampBound(start, |s|) else 0
    ensures forall i :: 0 <= i < |r| ==> r[i] == s[ClampBound(start, |s|) + i]
    ensures forall x :: x in r ==> x in s
  {
    var lo, hi := ClampBound(start, |s|), ClampBound(end, |s|);
    if lo < hi then s[lo..hi] else []
  }

  /** get_paginated_results: the page `page` of `results`. */
  function Paginate<T>(results: seq<T>, page: int): (r: seq<T>)
    ensures |r| <= QUESTIONS_PER_PAGE
    ensures forall x :: x in r ==> x in results
  {
    var start := (page - 1) * QUESTIONS_PER_PAGE;
    Slice(results, start, start + QUESTIONS_PER_PAGE)
  }

  function Min(a: int, b: int): int { if a < b then a else b }

  function Max(a: int, b: int): int { if a < b then b else a }

  /** For a page number of at least 1, the page is the elements at indices
      `[(page - 1) * 10, min(len, page * 10))`: full while the list lasts, short
      on the last page, and empty (not an error) past the end. */
  lemma PageWindow<T>(results: seq<T>, page: int)
    requires page >= 1
    ensures var lo := Min((page - 1) * QUESTIONS_PER_PAGE, |results|);
            var hi := Min(page * QUESTIONS_PER_PAGE, |results|);
            Paginate(results, page) == results[lo..hi]
    ensures page * QUESTIONS_PER_PAGE <= |results| ==> |Paginate(results, page)| == QUESTIONS_PER_PAGE
    ensures Paginate(results, page) == [] <==> |results| <= (page - 1) * QUESTIONS_PER_PAGE
  {
  }

  /** Page 0 is always empty: its slice is `results[-10:0]`, whose end clamps to 0. */
  lemma PageZeroIsEmpty<T>(results: seq<T>)
    ensures Paginate(results, 0) == []
  {
  }

  /** A negative page selects a window counted from the end of the list:
      both bounds are shifted by the length and clamped at 0. */
  lemma NegativePageWindow<T>(results: seq<T>, page: int)
    requires page < 0
    ensures var lo := Max(|results| + (page - 1) * QUESTIONS_PER_PAGE, 0);
            var hi := Max(|results| + page * QUESTIONS_PER_PAGE, 0);
            Paginate(results, page) == results[lo..hi]
  {
  }

  /** Page -1 of a list of 25 questions is not empty: it holds the questions
      at positions 5 to 14. */
  lemma PageMinusOneOfTwentyFive<T>(results: seq<T>)
    requires |results| == 25
    ensures Paginate(results, -1) == results[5..15]
    ensures |Paginate(results, -1)| == QUESTIONS_PER_PAGE
  {
  }

  /** The concatenation of pages 1 to k. */
  function Pages<T>(results: seq<T>, k: nat): seq<T> {
    if k == 0 then [] else Pages(results, k - 1) + Paginate(results, k)
  }

  /** Pages 1 to k together are exactly the first `min(len, 10 * k)` results, in
      order: no result is skipped or shown twice. */
  lemma {:induction false} PagesCover<T>(results: seq<T>, k: nat)
    ensures Pages(results, k) == results[..Min(k * QUESTIONS_PER_PAGE, |results|)]
  {
    if k > 0 {
      PagesCover(results, k - 1);
      PageWindow(results, k);
    }
  }

  /** The result at index i is shown on page `i / 10 + 1`, at position `i % 10`. */
  lemma ItemOnPage<T>(results: seq<T>, i: nat)
    requires i < |results|
    ensures i % QUESTIONS_PER_PAGE < |Paginate(results, i / QUESTIONS_PER_PAGE + 1)|
    ensures Paginate(results, i / QUESTIONS_PER_PAGE + 1)[i % QUESTIONS_PER_PAGE] == results[i]
  {
  }

  /** With 19 questions, page 1 holds ten of them and page 2 the remaining nine. */
  lemma NineteenQuestions<T>(results: seq<T>)
    requires |results| == 19
    ensures Paginate(results, 1) == results[..10]
    ensures Paginate(results, 2) == results[10..]
    ensures Paginate(results, 3) == []
  {
    PageWindow(results, 1);
    PageWindow(results, 2);
    PageWindow(results, 3);
  }
}
