/**
 Order-indexed child rows. The store writes a list as rows numbered by
 `enumerate` and reads it back with `ORDER BY SeriesIndex`; datasets come
 back with `ORDER BY DatasetName, MultiId`. A table has no order of its own,
 so reading sorts whatever order the rows are in.
 */
module SeriesOrder {

  /** A row of an order-indexed child table: its series index and its payload. */
  datatype Indexed<T> = Indexed(index: int, item: T)

  /** The rows `enumerate` numbers from `start`. */
  function EnumerateFrom<T>(xs: seq<T>, start: int): (r: seq<Indexed<T>>)
    ensures |r| == |xs|
    ensures forall i :: 0 <= i < |r| ==> r[i] == Indexed(start + i, xs[i])
    decreases |xs|
  {
    if xs == [] then [] else [Indexed(start, xs[0])] + EnumerateFrom(xs[1..], start + 1)
  }

  /** `[(i, x) for i, x in enumerate(xs)]`. */
  function Enumerate<T>(xs: seq<T>): (r: seq<Indexed<T>>)
    ensures |r| == |xs|
    ensures forall i :: 0 <= i < |r| ==> r[i] == Indexed(i, xs[i])
  {
    EnumerateFrom(xs, 0)
  }

  /** The payload column, in row order. */
  function Items<T>(rows: seq<Indexed<T>>): seq<T> {
    seq(|rows|, i requires 0 <= i < |rows| => rows[i].item)
  }

  /** `le` orders every pair and is transitive. */
  ghost predicate TotalPreorder<T(!new)>(le: (T, T) -> bool) {
    && (forall a, b :: le(a, b) || le(b, a))
    && (forall a, b, c :: le(a, b) && le(b, c) ==> le(a, c))
  }

  predicate SortedBy<T>(s: seq<T>, le: (T, T) -> bool) {
    forall i, j :: 0 <= i < j < |s| ==> le(s[i], s[j])
  }

  /** No later element is `le` an earlier one: the keys are distinct and ascending. */
  predicate StrictlySortedBy<T>(s: seq<T>, le: (T, T) -> bool) {
    forall i, j :: 0 <= i < j < |s| ==> !le(s[j], s[i])
  }

  /** Puts `x` before the first element it is `le`, so equal keys keep their order. */
  function Insert<T(!new)>(x: T, s: seq<T>, le: (T, T) -> bool): (r: seq<T>)
    requires TotalPreorder(le)
    requires SortedBy(s, le)
    ensures SortedBy(r, le)
    ensures multiset(r) == multiset(s) + multiset{x}
    decreases |s|
  {
    if s == [] then [x]
    else if le(x, s[0]) then
      assert forall k :: 0 <= k < |s| ==> le(x, s[k]) by {
        forall k | 0 <= k < |s| ensures le(x, s[k]) {
          if k > 0 { assert le(s[0], s[k]); }
        }
      }
      [x] + s
    else
      var rest := Insert(x, s[1..], le);
      assert le(s[0], x);
      assert s == [s[0]] + s[1..];
      assert forall k :: 0 <= k < |rest| ==> le(s[0], rest[k]) by {
        forall k | 0 <= k < |rest| ensures le(s[0], rest[k]) {
          assert rest[k] in multiset(rest);
          if rest[k] != x {
            assert rest[k] in multiset(s[1..]);
            var m :| 0 <= m < |s[1..]| && s[1..][m] == rest[k];
            assert s[m + 1] == rest[k];
          }
        }
      }
      [s[0]] + rest
  }

  /** The order a table is read back in, for the key order `le`. */
  function Sort<T(!new)>(s: seq<T>, le: (T, T) -> bool): (r: seq<T>)
    requires TotalPreorder(le)
    ensures SortedBy(r, le)
    ensures multiset(r) == multiset(s)
    decreases |s|
  {
    if s == [] then []
    else
      assert s == [s[0]] + s[1..];
      Insert(s[0], Sort(s[1..], le), le)
  }

  /**
   A sorted arrangement of the rows of a strictly sorted sequence is that
   sequence: when the keys are distinct, the read-back order is determined.
   */
  lemma {:induction false} SortedUnique<T(!new)>(s: seq<T>, t: seq<T>, le: (T, T) -> bool)
    requires TotalPreorder(le)
    requires SortedBy(s, le)
    requires StrictlySortedBy(t, le)
    requires multiset(s) == multiset(t)
    ensures s == t
    decreases |s|
  {
    if s != [] {
      assert |t| == |multiset(t)| == |multiset(s)| == |s|;
      assert s[0] in multiset(t);
      var j :| 0 <= j < |t| && t[j] == s[0];
      assert t[0] in multiset(s);
      var k :| 0 <= k < |s| && s[k] == t[0];
      if j != 0 {
        assert false;
      }
      assert s[0] == t[0];
      assert s == [s[0]] + s[1..];
      assert t == [t[0]] + t[1..];
      assert multiset(s) == multiset{s[0]} + multiset(s[1..]);
      assert multiset(t) == multiset{s[0]} + multiset(t[1..]);
      assert multiset(s[1..]) == multiset(s) - multiset{s[0]};
      assert multiset(t[1..]) == multiset(t) - multiset{s[0]};
      SortedUnique(s[1..], t[1..], le);
    }
  }

  /** The order of the series index column. */
  function IndexLe<T>(a: Indexed<T>, b: Indexed<T>): bool {
    a.index <= b.index
  }

  lemma IndexLeIsTotalPreorder<T(!new)>()
    ensures TotalPreorder<Indexed<T>>(IndexLe)
  {
  }

  /** `ORDER BY SeriesIndex`. */
  function SortRows<T(!new)>(rows: seq<Indexed<T>>): (r: seq<Indexed<T>>)
    ensures SortedBy(r, IndexLe)
    ensures multiset(r) == multiset(rows)
  {
    IndexLeIsTotalPreorder<T>();
    Sort(rows, IndexLe)
  }

  /** The rows of a list as `enumerate` writes them, in any order. */
  ghost predicate RowsOf<T(!new)>(rows: seq<Indexed<T>>, xs: seq<T>) {
    multiset(rows) == multiset(Enumerate(xs))
  }

  /**
   Writing a list as enumerated rows and reading the rows back ordered by
   their index gives the list again, whatever order the rows were stored in.
   */
  lemma EnumerateRoundTrip<T(!new)>(xs: seq<T>, rows: seq<Indexed<T>>)
    requires RowsOf(rows, xs)
    ensures Items(SortRows(rows)) == xs
  {
    IndexLeIsTotalPreorder<T>();
    var e := Enumerate(xs);
    assert StrictlySortedBy(e, IndexLe);
    SortedUnique(SortRows(rows), e, IndexLe);
  }

  /** Read each list of an order-indexed list of order-indexed lists. */
  function Nested<T(!new)>(rows: seq<Indexed<seq<Indexed<T>>>>): (r: seq<seq<T>>) {
    var outer := Items(SortRows(rows));
    seq(|outer|, i requires 0 <= i < |outer| => Items(SortRows(outer[i])))
  }

  /**
   The two-level round trip: lists of lists written as numbered lists of
   numbered elements (each level in any order) read back as the same lists.
   */
  lemma NestedRoundTrip<T(!new)>(lists: seq<seq<T>>, inner: seq<seq<Indexed<T>>>, rows: seq<Indexed<seq<Indexed<T>>>>)
    requires |inner| == |lists|
    requires forall i :: 0 <= i < |inner| ==> RowsOf(inner[i], lists[i])
    requires RowsOf(rows, inner)
    ensures Nested(rows) == lists
  {
    EnumerateRoundTrip(inner, rows);
    var outer := Items(SortRows(rows));
    assert outer == inner;
    forall i | 0 <= i < |outer|
      ensures Items(SortRows(outer[i])) == lists[i]
    {
      EnumerateRoundTrip(lists[i], inner[i]);
    }
  }

  /** Each list numbered on its own. */
  function EnumerateEach<T>(lists: seq<seq<T>>): (r: seq<seq<Indexed<T>>>)
    ensures |r| == |lists|
    ensures forall i :: 0 <= i < |r| ==> r[i] == Enumerate(lists[i])
  {
    seq(|lists|, i requires 0 <= i < |lists| => Enumerate(lists[i]))
  }

  /** What `save` writes for a list of lists: each element numbered within its list, each list numbered. */
  function EnumerateNested<T>(lists: seq<seq<T>>): seq<Indexed<seq<Indexed<T>>>> {
    Enumerate(EnumerateEach(lists))
  }

  /** A list of lists as `save` writes it reads back as the same list of lists. */
  lemma EnumerateNestedRoundTrip<T(!new)>(lists: seq<seq<T>>)
    ensures Nested(EnumerateNested(lists)) == lists
  {
    NestedRoundTrip(lists, EnumerateEach(lists), EnumerateNested(lists));
  }

  /** Lexicographic order of text, compared character by character as stored text compares. */
  predicate TextLe(a: string, b: string)
    decreases |a|
  {
    a == [] || (b != [] && (a[0] < b[0] || (a[0] == b[0] && TextLe(a[1..], b[1..]))))
  }

  lemma {:induction false} TextLeTotal(a: string, b: string)
    ensures TextLe(a, b) || TextLe(b, a)
    decreases |a|
  {
    if a != [] && b != [] && a[0] == b[0] {
      TextLeTotal(a[1..], b[1..]);
    }
  }

  lemma {:induction false} TextLeTransitive(a: string, b: string, c: string)
    requires TextLe(a, b) && TextLe(b, c)
    ensures TextLe(a, c)
    decreases |a|
  {
    if a != [] && b != [] && c != [] && a[0] == b[0] && b[0] == c[0] {
      TextLeTransitive(a[1..], b[1..], c[1..]);
    }
  }

  lemma {:induction false} TextLeAntisymmetric(a: string, b: string)
    requires TextLe(a, b) && TextLe(b, a)
    ensures a == b
    decreases |a|
  {
    if a != [] {
      TextLeAntisymmetric(a[1..], b[1..]);
      assert a == [a[0]] + a[1..];
      assert b == [b[0]] + b[1..];
    }
  }
}
