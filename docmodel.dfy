/** The document record (`Document` of the web client's types/document.ts, and the
    Prisma `document` row of the API), and ordering of documents by `order`. */
module DocModel {
  import opened Wrappers

  type Id = string

  /** A document. `parent == None` is SQL `null` (a root). `order` is a JavaScript
      number; it is modelled as an exact real, so rounding is not modelled. */
  datatype Doc = Doc(
    id: Id,
    title: string,
    content: string,
    spaceId: Id,
    parent: Option<Id>,
    order: real,
    createdBy: Id)

  /** Non-decreasing by `order`. */
  predicate SortedByOrder(s: seq<Doc>) {
    forall i, j :: 0 <= i < j < |s| ==> s[i].order <= s[j].order
  }

  /** Inserts `d` after every element whose order is not greater than its own. */
  function InsertByOrder(s: seq<Doc>, d: Doc): (r: seq<Doc>)
    requires SortedByOrder(s)
    ensures SortedByOrder(r)
    ensures multiset(r) == multiset(s) + multiset{d}
    ensures |r| == |s| + 1 && (r[0] == d || (s != [] && r[0] == s[0]))
  {
    if s == [] then [d]
    else if d.order < s[0].order then
      ConsSorted(d, s);
      [d] + s
    else
      assert s == [s[0]] + s[1..];
      var rest := InsertByOrder(s[1..], d);
      ConsSorted(s[0], rest);
      [s[0]] + rest
  }

  /** An element no greater than the head of a sorted list can go in front of it. */
  lemma ConsSorted(x: Doc, t: seq<Doc>)
    requires SortedByOrder(t) && (t != [] ==> x.order <= t[0].order)
    ensures SortedByOrder([x] + t)
  {
    var r := [x] + t;
    forall i, j | 0 <= i < j < |r| ensures r[i].order <= r[j].order {
      if i == 0 && j > 1 { assert t[0].order <= t[j - 1].order; }
    }
  }

  /** Inserting adds exactly the element. */
  lemma InsertByOrderElements(s: seq<Doc>, d: Doc)
    requires SortedByOrder(s)
    ensures forall x :: x in InsertByOrder(s, d) <==> x in s || x == d
  {
    var r := InsertByOrder(s, d);
    forall x ensures x in r <==> x in s || x == d {
      assert x in r <==> x in multiset(r);
      assert x in s <==> x in multiset(s);
    }
  }

  /** A stable insertion sort by `order`: the comparator `(a, b) => a.order - b.order`
      passed to the (stable) `Array.prototype.sort`. */
  function SortByOrder(s: seq<Doc>): (r: seq<Doc>)
    ensures SortedByOrder(r)
    ensures multiset(r) == multiset(s)
  {
    if s == [] then []
    else
      var init := s[..|s| - 1];
      assert s == init + [s[|s| - 1]];
      assert multiset(s) == multiset(init) + multiset{s[|s| - 1]};
      InsertByOrder(SortByOrder(init), s[|s| - 1])
  }

  /** Sorting keeps the length and the elements. */
  lemma SortByOrderElements(s: seq<Doc>)
    ensures |SortByOrder(s)| == |s|
    ensures forall x :: x in SortByOrder(s) <==> x in s
  {
    var r := SortByOrder(s);
    assert |multiset(r)| == |multiset(s)|;
    forall x ensures x in r <==> x in s {
      assert x in r <==> x in multiset(r);
      assert x in s <==> x in multiset(s);
    }
  }
}
