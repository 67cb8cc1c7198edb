/** The per-row handler of the import: rows arrive one at a time in file
    order; a row missing its title, type or value is dropped, any other row
    appends its category name to `categories` and a draft to `transactions`. */
module Collector {
  import opened Records

  /** The handler's guard `!title || !type || !value` negated: title, type
      and value are all non-empty strings. The category may be empty. */
  predicate IsComplete(row: Row) {
    !(row.title == "" || row.kind == "" || row.value == "")
  }

  /** The draft pushed for a row: all four fields, verbatim. */
  function DraftOf(row: Row): Draft {
    Draft(row.title, row.kind, row.value, row.category)
  }

  /** The drafts collected from rows, specified one row at a time, last row
      last, the way the handler sees them. */
  function Drafts(rows: seq<Row>): (drafts: seq<Draft>)
    ensures |drafts| <= |rows|
    ensures forall d :: d in drafts ==> d.title != "" && d.kind != "" && d.value != ""
  {
    if rows == [] then []
    else Drafts(rows[..|rows| - 1]) + (if IsComplete(rows[|rows| - 1]) then [DraftOf(rows[|rows| - 1])] else [])
  }

  /** The category names of the drafts, position by position. */
  function CategoryNames(drafts: seq<Draft>): seq<string> {
    seq(|drafts|, i requires 0 <= i < |drafts| => drafts[i].category)
  }

  /** The positions of the complete rows, in increasing order. */
  function CompleteIndices(rows: seq<Row>): seq<nat> {
    if rows == [] then []
    else CompleteIndices(rows[..|rows| - 1]) + (if IsComplete(rows[|rows| - 1]) then [|rows| - 1] else [])
  }

  /** Runs the handler over all rows and returns the two arrays it fills. */
  method Collect(rows: seq<Row>) returns (transactions: seq<Draft>, categories: seq<string>)
    ensures transactions == Drafts(rows)
    ensures |categories| == |transactions|
    ensures forall i :: 0 <= i < |transactions| ==> categories[i] == transactions[i].category
  {
    transactions, categories := [], [];
    for i := 0 to |rows|
      invariant transactions == Drafts(rows[..i])
      invariant |categories| == |transactions|
      invariant forall k :: 0 <= k < |transactions| ==> categories[k] == transactions[k].category
    {
      var row := rows[i];
      assert rows[..i + 1][..i] == rows[..i];
      if !IsComplete(row) {
        continue;
      }
      categories := categories + [row.category];
      transactions := transactions + [DraftOf(row)];
    }
    assert rows[..|rows|] == rows;
  }

  /** The positions listed are exactly those of the complete rows, in
      strictly increasing order. */
  lemma {:induction false} CompleteIndicesAreCompleteRows(rows: seq<Row>)
    ensures forall i :: i in CompleteIndices(rows) <==> 0 <= i < |rows| && IsComplete(rows[i])
    ensures forall j, k :: 0 <= j < k < |CompleteIndices(rows)| ==> CompleteIndices(rows)[j] < CompleteIndices(rows)[k]
  {
    if rows != [] {
      var n := |rows| - 1;
      var prefix := rows[..n];
      CompleteIndicesAreCompleteRows(prefix);
      assert forall i :: 0 <= i < n ==> prefix[i] == rows[i];
      var before := CompleteIndices(prefix);
      forall j | 0 <= j < |before| ensures before[j] < n {
        assert before[j] in before;
      }
    }
  }

  /** The drafts are the complete rows, converted, taken at the positions
      CompleteIndices lists: exactly the complete rows, in file order. */
  lemma {:induction false} DraftsAreCompleteRowsInOrder(rows: seq<Row>)
    ensures |Drafts(rows)| == |CompleteIndices(rows)|
    ensures forall k :: 0 <= k < |Drafts(rows)| ==>
      CompleteIndices(rows)[k] < |rows| && Drafts(rows)[k] == DraftOf(rows[CompleteIndices(rows)[k]])
  {
    if rows != [] {
      var n := |rows| - 1;
      var prefix := rows[..n];
      DraftsAreCompleteRowsInOrder(prefix);
      assert forall i :: 0 <= i < n ==> prefix[i] == rows[i];
    }
  }

  /** Collecting a concatenation collects each part in turn. */
  lemma {:induction false} DraftsAppend(front: seq<Row>, back: seq<Row>)
    ensures Drafts(front + back) == Drafts(front) + Drafts(back)
    decreases |back|
  {
    if back == [] {
      assert front + back == front;
    } else {
      var n := |back| - 1;
      assert (front + back)[..|front + back| - 1] == front + back[..n];
      DraftsAppend(front, back[..n]);
    }
  }

  /** A row missing its title, type or value adds nothing: the batch is what
      it would be without that row. */
  lemma IncompleteRowAddsNothing(before: seq<Row>, row: Row, after: seq<Row>)
    requires !IsComplete(row)
    ensures Drafts(before + [row] + after) == Drafts(before + after)
  {
    DraftsAppend(before + [row], after);
    DraftsAppend(before, [row]);
    DraftsAppend(before, after);
    assert Drafts([row]) == [] by { assert [row][..0] == []; }
  }

  /** A complete row adds exactly its own draft, between the drafts of the
      rows before it and those of the rows after it. */
  lemma CompleteRowAddsItsDraft(before: seq<Row>, row: Row, after: seq<Row>)
    requires IsComplete(row)
    ensures Drafts(before + [row] + after) == Drafts(before) + [DraftOf(row)] + Drafts(after)
  {
    DraftsAppend(before + [row], after);
    DraftsAppend(before, [row]);
    assert Drafts([row]) == [DraftOf(row)] by { assert [row][..0] == []; }
  }
}
