/**
 * The three `ORDER BY` clauses the repository issues (repository/country.go) and a sort
 * that realises them on the in-memory table: the order relation, its totality and
 * transitivity, and an insertion sort proved to return a sorted permutation.
 */
module Ordering {
  import opened Wrappers
  import opened Text
  import opened Models

  /** `name ASC`, `estimated_gdp DESC` and `estimated_gdp ASC`. */
  datatype Order = NameAsc | GdpDesc | GdpAsc

  /** The listing's `sort` argument: "gdp_desc" and "gdp_asc" choose a GDP order, every
      other value (the empty one included) the name order. */
  function OrderFor(sort: string): (o: Order)
    ensures o == GdpDesc <==> sort == "gdp_desc"
    ensures o == GdpAsc <==> sort == "gdp_asc"
    ensures o == NameAsc <==> sort != "gdp_desc" && sort != "gdp_asc"
  {
    if sort == "gdp_desc" then GdpDesc
    else if sort == "gdp_asc" then GdpAsc
    else NameAsc
  }

  /** SQL's order on a nullable number: NULL comes before every value. */
  predicate GdpAtMost(a: Option<real>, b: Option<real>) {
    a.None? || (b.Some? && a.value <= b.value)
  }

  /** `x` may come before `y` under order `o`. Names compare case-insensitively, as the
      table's default collation does. */
  predicate InOrder(o: Order, x: Country, y: Country) {
    match o
    case NameAsc => LexLe(ToLower(x.name), ToLower(y.name))
    case GdpAsc => GdpAtMost(x.estimatedGdp, y.estimatedGdp)
    case GdpDesc => GdpAtMost(y.estimatedGdp, x.estimatedGdp)
  }

  lemma InOrderTotal(o: Order, x: Country, y: Country)
    ensures InOrder(o, x, y) || InOrder(o, y, x)
  {
    if o == NameAsc {
      LexLeTotal(ToLower(x.name), ToLower(y.name));
    }
  }

  lemma InOrderTransitive(o: Order, x: Country, y: Country, z: Country)
    requires InOrder(o, x, y) && InOrder(o, y, z)
    ensures InOrder(o, x, z)
  {
    if o == NameAsc {
      LexLeTransitive(ToLower(x.name), ToLower(y.name), ToLower(z.name));
    }
  }

  /** Every row may come before every later row. */
  predicate Sorted(o: Order, s: seq<Country>) {
    forall i, j :: 0 <= i < j < |s| ==> InOrder(o, s[i], s[j])
  }

  /** Inserts `x` into a sorted sequence, in front of the first row it may precede. */
  function InsertInOrder(o: Order, x: Country, s: seq<Country>): (r: seq<Country>) {
    if |s| == 0 then [x]
    else if InOrder(o, x, s[0]) then [x] + s
    else [s[0]] + InsertInOrder(o, x, s[1..])
  }

  /** Insertion sort of the rows under `o`. */
  function SortRows(o: Order, s: seq<Country>): (r: seq<Country>) {
    if |s| == 0 then [] else InsertInOrder(o, s[0], SortRows(o, s[1..]))
  }

  lemma {:induction false} InsertInOrderCorrect(o: Order, x: Country, s: seq<Country>)
    requires Sorted(o, s)
    ensures Sorted(o, InsertInOrder(o, x, s))
    ensures multiset(InsertInOrder(o, x, s)) == multiset(s) + multiset{x}
    decreases |s|
  {
    if |s| == 0 {
    } else if InOrder(o, x, s[0]) {
      forall j | 1 <= j < |s| ensures InOrder(o, x, s[j]) {
        InOrderTransitive(o, x, s[0], s[j]);
      }
      PrependSmallest(o, x, s);
    } else {
      InOrderTotal(o, x, s[0]);
      var t := s[1..];
      InsertInOrderCorrect(o, x, t);
      AllAfter(o, s, x, InsertInOrder(o, x, t));
      PrependSmallest(o, s[0], InsertInOrder(o, x, t));
      assert s == [s[0]] + t;
    }
  }

  /** A row that may precede the head of a sorted sequence may precede all of it. */
  lemma PrependSmallest(o: Order, x: Country, s: seq<Country>)
    requires Sorted(o, s)
    requires forall j :: 0 <= j < |s| ==> InOrder(o, x, s[j])
    ensures Sorted(o, [x] + s)
  {
    var r := [x] + s;
    forall i, j | 0 <= i < j < |r| ensures InOrder(o, r[i], r[j]) {
      if i > 0 {
        assert r[i] == s[i - 1] && r[j] == s[j - 1];
      }
    }
  }

  /** The head of a sorted `s` may precede `x` and the rest of `s`, hence every row of a
      permutation of them. */
  lemma AllAfter(o: Order, s: seq<Country>, x: Country, r: seq<Country>)
    requires |s| > 0 && Sorted(o, s) && InOrder(o, s[0], x)
    requires multiset(r) == multiset(s[1..]) + multiset{x}
    ensures forall j :: 0 <= j < |r| ==> InOrder(o, s[0], r[j])
  {
    forall j | 0 <= j < |r| ensures InOrder(o, s[0], r[j]) {
      assert r[j] in multiset(r);
      if r[j] != x {
        assert r[j] in multiset(s[1..]);
        var k :| 0 <= k < |s[1..]| && s[1..][k] == r[j];
        assert s[k + 1] == r[j];
      }
    }
  }

  /** The sort returns a sorted permutation of its input. */
  lemma {:induction false} SortRowsCorrect(o: Order, s: seq<Country>)
    ensures Sorted(o, SortRows(o, s))
    ensures multiset(SortRows(o, s)) == multiset(s)
    decreases |s|
  {
    if |s| > 0 {
      SortRowsCorrect(o, s[1..]);
      InsertInOrderCorrect(o, s[0], SortRows(o, s[1..]));
      assert s == [s[0]] + s[1..];
    }
  }
}
