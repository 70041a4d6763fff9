/**
 * The two tables of the trivia database and the queries the handlers run on
 * them. A table is the sequence of its rows in storage order; a query without
 * `order_by` returns its rows in that order.
 */
module Records {
  import opened Wrappers
  import opened Pagination

  /** A row of the question table, as `format()` renders it. */
  datatype Question = Question(id: int, question: string, answer: string, category: int, difficulty: int)

  /** A row of the category table; `kind` holds the column named `type`. */
  datatype Category = Category(id: int, kind: string)

  function Ids(qs: seq<Question>): set<int> {
    set q | q in qs :: q.id
  }

  function CategoryIds(cs: seq<Category>): set<int> {
    set c | c in cs :: c.id
  }

  /** No two rows share an id (the primary key). */
  ghost predicate DistinctIds(qs: seq<Question>) {
    forall i, j :: 0 <= i < j < |qs| ==> qs[i].id != qs[j].id
  }

  ghost predicate DistinctCategoryIds(cs: seq<Category>) {
    forall i, j :: 0 <= i < j < |cs| ==> cs[i].id != cs[j].id
  }

  /** Rows in strictly ascending id order. */
  ghost predicate AscendingIds(qs: seq<Question>) {
    forall i, j :: 0 <= i < j < |qs| ==> qs[i].id < qs[j].id
  }

  /** The first row's id is below every later id in an id-ordered sequence. */
  lemma HeadBelowTail(qs: seq<Question>)
    requires |qs| > 0 && AscendingIds(qs)
    ensures forall x :: x in qs[1..] ==> qs[0].id < x.id
  {
  }

  /** The first row's id occurs nowhere else when ids are distinct. */
  lemma HeadNotInTail(qs: seq<Question>)
    requires |qs| > 0 && DistinctIds(qs)
    ensures qs[0].id !in Ids(qs[1..])
    ensures DistinctIds(qs[1..])
  {
  }

  /** Putting a row in front of an id-ordered sequence of larger ids keeps it id-ordered. */
  lemma ConsAscending(h: Question, rest: seq<Question>)
    requires AscendingIds(rest)
    requires forall x :: x in rest ==> h.id < x.id
    ensures AscendingIds([h] + rest)
  {
  }

  /** Putting a row with a new id in front of a sequence keeps the ids distinct. */
  lemma ConsDistinct(h: Question, rest: seq<Question>)
    requires DistinctIds(rest)
    requires h.id !in Ids(rest)
    ensures DistinctIds([h] + rest)
  {
  }

  /** Places `q` into an id-ordered sequence, before the first row with a larger id. */
  function InsertById(q: Question, s: seq<Question>): (r: seq<Question>)
    ensures multiset(r) == multiset(s) + multiset{q}
  {
    if s == [] || q.id < s[0].id then [q] + s
    else
      assert s == [s[0]] + s[1..];
      [s[0]] + InsertById(q, s[1..])
  }

  /** Inserting a row with a fresh id into an id-ordered sequence keeps it id-ordered. */
  lemma {:induction false} InsertAscending(q: Question, s: seq<Question>)
    requires AscendingIds(s) && q.id !in Ids(s)
    ensures AscendingIds(InsertById(q, s))
  {
    if s == [] || q.id < s[0].id {
      forall x | x in s ensures q.id < x.id {
        if x != s[0] {
          HeadBelowTail(s);
          assert s == [s[0]] + s[1..];
        }
      }
      ConsAscending(q, s);
    } else {
      assert s[0] in s;
      assert s[0].id < q.id;
      assert AscendingIds(s[1..]);
      assert q.id !in Ids(s[1..]) by {
        forall x | x in s[1..] ensures x.id != q.id {
          assert x in s;
        }
      }
      InsertAscending(q, s[1..]);
      var rest := InsertById(q, s[1..]);
      HeadBelowTail(s);
      forall x | x in rest ensures s[0].id < x.id {
        assert x in multiset(rest);
      }
      ConsAscending(s[0], rest);
    }
  }

  /** `order_by("id")`: the rows sorted by ascending id (insertion sort). */
  function SortById(s: seq<Question>): (r: seq<Question>)
    ensures multiset(r) == multiset(s)
  {
    if s == [] then []
    else
      assert s == [s[0]] + s[1..];
      InsertById(s[0], SortById(s[1..]))
  }

  /** Sorting a table with distinct ids gives a strictly id-ordered permutation of it. */
  lemma {:induction false} SortAscending(s: seq<Question>)
    requires DistinctIds(s)
    ensures AscendingIds(SortById(s))
    ensures |SortById(s)| == |s|
    ensures forall x :: x in SortById(s) <==> x in s
  {
    var r := SortById(s);
    assert |r| == |multiset(r)|;
    forall x ensures x in r <==> x in s {
      assert x in r <==> x in multiset(r);
    }
    if s != [] {
      HeadNotInTail(s);
      SortAscending(s[1..]);
      InsertAscending(s[0], SortById(s[1..]));
    }
  }

  /** A `filter(...)` query: the rows satisfying `keep`, in table order. */
  function Select(qs: seq<Question>, keep: Question -> bool): (r: seq<Question>)
    ensures forall q :: q in r <==> q in qs && keep(q)
    ensures |r| <= |qs|
  {
    if qs == [] then []
    else
      assert qs == [qs[0]] + qs[1..];
      if keep(qs[0]) then [qs[0]] + Select(qs[1..], keep)
      else Select(qs[1..], keep)
  }

  /** Filtering keeps table order: an id-ordered table filters to an id-ordered list. */
  lemma {:induction false} SelectAscending(qs: seq<Question>, keep: Question -> bool)
    requires AscendingIds(qs)
    ensures AscendingIds(Select(qs, keep))
  {
    if qs != [] {
      SelectAscending(qs[1..], keep);
      if keep(qs[0]) {
        HeadBelowTail(qs);
        ConsAscending(qs[0], Select(qs[1..], keep));
      }
    }
  }

  /** Filtering a table with distinct ids gives a list with distinct ids. */
  lemma {:induction false} SelectDistinct(qs: seq<Question>, keep: Question -> bool)
    ensures DistinctIds(qs) ==> DistinctIds(Select(qs, keep))
  {
    if qs != [] && DistinctIds(qs) {
      HeadNotInTail(qs);
      SelectDistinct(qs[1..], keep);
      if keep(qs[0]) {
        ConsDistinct(qs[0], Select(qs[1..], keep));
      }
    }
  }

  /** A list with distinct ids holds as many rows as there are distinct rows in it. */
  lemma {:induction false} DistinctCardinality(qs: seq<Question>)
    requires DistinctIds(qs)
    ensures |set q | q in qs| == |qs|
  {
    var all := set q | q in qs;
    if qs == [] {
      assert all == {};
    } else {
      var tail := qs[1..];
      HeadNotInTail(qs);
      DistinctCardinality(tail);
      assert qs[0] !in tail;
      assert qs == [qs[0]] + tail;
      assert all == (set q | q in tail) + {qs[0]};
    }
  }

  /** Two non-empty id-ordered lists that hold the same rows start with the same
      row, and the rest of each holds the same rows. */
  lemma AscendingHeads(a: seq<Question>, b: seq<Question>)
    requires AscendingIds(a) && AscendingIds(b) && a != [] && b != []
    requires forall x :: x in a <==> x in b
    ensures a[0] == b[0]
    ensures forall x :: x in a[1..] <==> x in b[1..]
  {
    assert a[0] in b && b[0] in a;
    var k :| 0 <= k < |b| && b[k] == a[0];
    var j :| 0 <= j < |a| && a[j] == b[0];
    assert a[0].id <= a[j].id && b[0].id <= b[k].id;
    assert j == 0;
    assert a == [a[0]] + a[1..] && b == [b[0]] + b[1..];
    HeadBelowTail(a);
    HeadBelowTail(b);
    forall x ensures x in a[1..] <==> x in b[1..] {
      assert x in a[1..] <==> x in a && x != a[0];
      assert x in b[1..] <==> x in b && x != b[0];
    }
  }

  /** Two id-ordered lists that hold the same rows are the same list. */
  lemma {:induction false} AscendingUnique(a: seq<Question>, b: seq<Question>)
    requires AscendingIds(a) && AscendingIds(b)
    requires forall x :: x in a <==> x in b
    ensures a == b
  {
    SameRowsSameLength(a, b);
    if a != [] {
      AscendingHeads(a, b);
      AscendingUnique(a[1..], b[1..]);
      assert a == [a[0]] + a[1..] && b == [b[0]] + b[1..];
    }
  }

  /** Two lists with distinct ids that hold the same rows have the same length. */
  lemma SameRowsSameLength(a: seq<Question>, b: seq<Question>)
    requires DistinctIds(a) && DistinctIds(b)
    requires forall x :: x in a <==> x in b
    ensures |a| == |b|
  {
    DistinctCardinality(a);
    DistinctCardinality(b);
    assert (set x | x in a) == (set x | x in b);
  }

  /** Filtering and then ordering by id gives the same list as ordering by id and
      then filtering, so `filter(...).order_by("id")` has one meaning. */
  lemma FilterThenSort(qs: seq<Question>, keep: Question -> bool)
    requires DistinctIds(qs)
    ensures SortById(Select(qs, keep)) == Select(SortById(qs), keep)
  {
    SelectDistinct(qs, keep);
    SortAscending(Select(qs, keep));
    SortAscending(qs);
    SelectAscending(SortById(qs), keep);
    AscendingUnique(SortById(Select(qs, keep)), Select(SortById(qs), keep));
  }

  /** The table after `delete()` of the row with id `id`. */
  function Without(qs: seq<Question>, id: int): (r: seq<Question>)
    ensures forall q :: q in r <==> q in qs && q.id != id
    ensures Ids(r) == Ids(qs) - {id}
  {
    if qs == [] then []
    else
      assert qs == [qs[0]] + qs[1..];
      if qs[0].id == id then Without(qs[1..], id)
      else [qs[0]] + Without(qs[1..], id)
  }

  /** Deleting from a table with distinct ids leaves distinct ids. */
  lemma {:induction false} WithoutDistinct(qs: seq<Question>, id: int)
    requires DistinctIds(qs)
    ensures DistinctIds(Without(qs, id))
  {
    if qs != [] {
      HeadNotInTail(qs);
      WithoutDistinct(qs[1..], id);
      if qs[0].id != id {
        ConsDistinct(qs[0], Without(qs[1..], id));
      }
    }
  }

  /** Deleting an id the table holds removes exactly one row. */
  lemma {:induction false} WithoutRemovesOne(qs: seq<Question>, id: int)
    requires DistinctIds(qs)
    requires id in Ids(qs)
    ensures |Without(qs, id)| == |qs| - 1
  {
    var tail := qs[1..];
    assert qs == [qs[0]] + tail;
    HeadNotInTail(qs);
    if qs[0].id == id {
      WithoutAbsent(tail, id);
    } else {
      assert id in Ids(tail) by {
        var x :| x in qs && x.id == id;
        assert x in tail;
      }
      WithoutRemovesOne(tail, id);
    }
  }

  /** Deleting an id the table does not hold changes nothing. */
  lemma {:induction false} WithoutAbsent(qs: seq<Question>, id: int)
    requires id !in Ids(qs)
    ensures Without(qs, id) == qs
  {
    if qs != [] {
      assert qs[0] in qs;
      assert id !in Ids(qs[1..]) by {
        assert forall x :: x in qs[1..] ==> x in qs;
      }
      WithoutAbsent(qs[1..], id);
    }
  }

  /** Appending a row with a fresh id and then deleting that id restores the table. */
  lemma {:induction false} DeleteUndoesInsert(qs: seq<Question>, q: Question)
    requires q.id !in Ids(qs)
    ensures Without(qs + [q], q.id) == qs
  {
    if qs == [] {
      assert Without([q], q.id) == Without([], q.id);
    } else {
      assert (qs + [q])[1..] == qs[1..] + [q];
      assert qs[0] in qs;
      assert q.id !in Ids(qs[1..]) by {
        assert forall x :: x in qs[1..] ==> x in qs;
      }
      DeleteUndoesInsert(qs[1..], q);
    }
  }

  /** `Category.query.get(id)`: the category row with that id, if any. */
  function FindCategory(cs: seq<Category>, id: int): (r: Option<Category>)
    ensures r.Some? <==> id in CategoryIds(cs)
    ensures r.Some? ==> r.value in cs && r.value.id == id
  {
    if cs == [] then None
    else if cs[0].id == id then Some(cs[0])
    else
      assert forall c :: c in cs <==> c == cs[0] || c in cs[1..] by {
        assert cs == [cs[0]] + cs[1..];
      }
      FindCategory(cs[1..], id)
  }

  /** A page of an id-ordered list is id-ordered and holds only rows of that list. */
  lemma PageOfAscending(all: seq<Question>, page: int)
    requires AscendingIds(all)
    ensures AscendingIds(Paginate(all, page))
  {
  }
}
