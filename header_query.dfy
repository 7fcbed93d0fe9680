/** The Header table as the resolvers see it: rows keyed by primary key, and
    the ORM's `filter(...)` / `.first()` / `[:n]` as functions over that map.
    A query scans primary keys in increasing order, which is the order the ORM
    uses for `.first()` on an unordered query set. */
module HeaderQuery {
  import opened Text

  datatype Option<T> = None | Some(value: T)

  /** One row of the Header table: the key, the seven free-text fields and the
      id of the owning user. */
  datatype Header = Header(
    id: int,
    name: string,
    description: string,
    imageUrl: string,
    email: string,
    phoneNumber: string,
    location: string,
    github: string,
    postedBy: int)

  /** Every row is stored under its own primary key. */
  predicate KeysMatch(table: map<int, Header>)
  {
    forall k :: k in table ==> table[k].id == k
  }

  /** The filters the resolvers build with `Q(...)` objects. */
  datatype Filter =
    | ById(id: int)                                    // Q(id=…)
    | PostedBy(owner: int)                             // Q(posted_by=…)
    | PostedByAndId(owner: int, id: int)               // Q(posted_by=…) & Q(id=…)
    | PostedByAndNameContains(owner: int, term: string) // Q(posted_by=…) & Q(name__icontains=…)

  predicate Admits(f: Filter, h: Header)
  {
    match f
    case ById(id) => h.id == id
    case PostedBy(owner) => h.postedBy == owner
    case PostedByAndId(owner, id) => h.postedBy == owner && h.id == id
    case PostedByAndNameContains(owner, term) => h.postedBy == owner && IContains(h.name, term)
  }

  /** The rows with key in [lo, hi) that the filter admits, in key order. */
  function Select(table: map<int, Header>, f: Filter, lo: int, hi: int): seq<Header>
    decreases hi - lo
  {
    if lo >= hi then []
    else (if lo in table && Admits(f, table[lo]) then [table[lo]] else []) + Select(table, f, lo + 1, hi)
  }

  predicate IdsIncreasing(rows: seq<Header>)
  {
    forall i, j :: 0 <= i < j < |rows| ==> rows[i].id < rows[j].id
  }

  /** A query returns exactly the admitted rows of its key range. */
  lemma {:induction false} SelectExact(table: map<int, Header>, f: Filter, lo: int, hi: int)
    requires KeysMatch(table)
    ensures forall h :: h in Select(table, f, lo, hi) <==>
      lo <= h.id < hi && h.id in table && table[h.id] == h && Admits(f, h)
    decreases hi - lo
  {
    if lo < hi {
      SelectExact(table, f, lo + 1, hi);
    }
  }

  /** A query lists its rows in strictly increasing key order, inside its range
      (so no row is listed twice). */
  lemma {:induction false} SelectInIdOrder(table: map<int, Header>, f: Filter, lo: int, hi: int)
    requires KeysMatch(table)
    ensures forall i :: 0 <= i < |Select(table, f, lo, hi)| ==> lo <= Select(table, f, lo, hi)[i].id < hi
    ensures IdsIncreasing(Select(table, f, lo, hi))
    decreases hi - lo
  {
    if lo < hi {
      SelectInIdOrder(table, f, lo + 1, hi);
      var rest := Select(table, f, lo + 1, hi);
      assert Select(table, f, lo, hi) ==
        (if lo in table && Admits(f, table[lo]) then [table[lo]] else []) + rest;
    }
  }

  /** Rows in strictly increasing key order, all keyed inside [lo, hi), are
      at most hi - lo many. */
  lemma {:induction false} IncreasingRowsBound(rows: seq<Header>, lo: int, hi: int)
    requires lo <= hi
    requires IdsIncreasing(rows)
    requires forall i :: 0 <= i < |rows| ==> lo <= rows[i].id < hi
    ensures |rows| <= hi - lo
  {
    if rows != [] {
      assert forall i :: 0 <= i < |rows[1..]| ==> rows[1..][i] == rows[i + 1];
      IncreasingRowsBound(rows[1..], rows[0].id + 1, hi);
    }
  }

  /** `.first()`: the first row of a query, or nothing. */
  function First(rows: seq<Header>): (r: Option<Header>)
    ensures r.None? <==> rows == []
    ensures r.Some? ==> r.value in rows
  {
    if rows == [] then None else Some(rows[0])
  }

  /** A filter that pins the key selects the row under that key, if admitted. */
  lemma FirstOfKeyQuery(table: map<int, Header>, f: Filter, lo: int, hi: int, id: int)
    requires KeysMatch(table)
    requires f.ById? || f.PostedByAndId?
    requires f.id == id
    ensures First(Select(table, f, lo, hi)) ==
      if lo <= id < hi && id in table && Admits(f, table[id]) then Some(table[id]) else None
  {
    var rows := Select(table, f, lo, hi);
    SelectExact(table, f, lo, hi);
    SelectInIdOrder(table, f, lo, hi);
    if rows != [] {
      assert rows[0] in rows;
    }
  }

  /** `rows[:n]` on an increasing query keeps the n rows with the lowest keys:
      whatever the prefix holds, it also holds every row with a smaller key. */
  lemma PrefixKeepsLowest(rows: seq<Header>, n: nat)
    requires n <= |rows|
    requires IdsIncreasing(rows)
    ensures forall x, y :: x in rows[..n] && y in rows && y.id < x.id ==> y in rows[..n]
  {
    forall x, y | x in rows[..n] && y in rows && y.id < x.id ensures y in rows[..n] {
      var i :| 0 <= i < n && rows[i] == x;
      var j :| 0 <= j < |rows| && rows[j] == y;
      assert rows[j].id < rows[i].id;
      assert rows[..n][j] == y;
    }
  }
}
