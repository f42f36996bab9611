/** The SQL text and the bind list that `Repository::query` of
    src/repository.rs prepares for a table and a set of `QueryOptions`.
    Running the statement on the database is not modelled. */
module Repository {
  import opened Outcomes
  import opened Numbers

  /** A repository over one table. */
  datatype Repository = Repository(tableName: string)

  /** `QueryOptions`. The filter map is a sequence of (column, value) pairs
      in the map's iteration order; both iterations over the map in `query`
      visit it in that same order. */
  datatype QueryOptions = QueryOptions(
    limit: Option<nat>,
    offset: Option<nat>,
    sortBy: Option<string>,
    sortOrder: Option<string>,
    filters: Option<seq<(string, string)>>)

  /** `Repository::new` */
  function New(tableName: string): (r: Repository)
    ensures r.tableName == tableName
  {
    Repository(tableName)
  }

  /** `Vec::join(sep)`: the parts with `sep` between neighbours. */
  function Join(parts: seq<string>, sep: string): string {
    if parts == [] then []
    else if |parts| == 1 then parts[0]
    else parts[0] + sep + Join(parts[1..], sep)
  }

  /** One `"{key} = ?"` condition per filter, in order. */
  function Conditions(filters: seq<(string, string)>): (conds: seq<string>)
    ensures |conds| == |filters|
    ensures forall i :: 0 <= i < |filters| ==> conds[i] == filters[i].0 + " = ?"
  {
    seq(|filters|, i requires 0 <= i < |filters| => filters[i].0 + " = ?")
  }

  function WhereClause(filters: Option<seq<(string, string)>>): string {
    match filters
    case None => ""
    case Some(fs) => " WHERE " + Join(Conditions(fs), " AND ")
  }

  function OrderClause(sortBy: Option<string>, sortOrder: Option<string>): string {
    match sortBy
    case None => ""
    case Some(column) => " ORDER BY " + column + " " + sortOrder.GetOr("ASC")
  }

  function LimitClause(limit: Option<nat>): string {
    match limit
    case None => ""
    case Some(n) => " LIMIT " + NatToString(n)
  }

  function OffsetClause(offset: Option<nat>): string {
    match offset
    case None => ""
    case Some(n) => " OFFSET " + NatToString(n)
  }

  /** The statement text: the SELECT, then the WHERE, ORDER BY, LIMIT and
      OFFSET clauses, each present or absent on its own. */
  function QueryText(repo: Repository, o: QueryOptions): string {
    "SELECT * FROM " + repo.tableName + WhereClause(o.filters) +
    OrderClause(o.sortBy, o.sortOrder) + LimitClause(o.limit) + OffsetClause(o.offset)
  }

  /** The values bound to the placeholders: the filter values in order. */
  function Binds(o: QueryOptions): (binds: seq<string>)
    ensures o.filters.None? ==> binds == []
    ensures o.filters.Some? ==> (|binds| == |o.filters.value| &&
      forall i :: 0 <= i < |binds| ==> binds[i] == o.filters.value[i].1)
  {
    match o.filters
    case None => []
    case Some(fs) => seq(|fs|, i requires 0 <= i < |fs| => fs[i].1)
  }

  /** `Repository::query` up to the database call: the statement text,
      grown clause by clause, and its bind list. */
  method Query(repo: Repository, o: QueryOptions) returns (sql: string, binds: seq<string>)
    ensures sql == QueryText(repo, o)
    ensures binds == Binds(o)
  {
    sql := "SELECT * FROM " + repo.tableName;
    ghost var prefix := sql;
    if o.filters.Some? {
      sql := sql + (" WHERE " + Join(Conditions(o.filters.value), " AND "));
    }
    assert sql == prefix + WhereClause(o.filters);
    prefix := sql;
    if o.sortBy.Some? {
      var order := if o.sortOrder.Some? then o.sortOrder.value else "ASC";
      sql := sql + (" ORDER BY " + o.sortBy.value + " " + order);
    }
    assert sql == prefix + OrderClause(o.sortBy, o.sortOrder);
    prefix := sql;
    if o.limit.Some? {
      sql := sql + (" LIMIT " + NatToString(o.limit.value));
    }
    assert sql == prefix + LimitClause(o.limit);
    prefix := sql;
    if o.offset.Some? {
      sql := sql + (" OFFSET " + NatToString(o.offset.value));
    }
    assert sql == prefix + OffsetClause(o.offset);
    binds := if o.filters.Some? then seq(|o.filters.value|, i requires 0 <= i < |o.filters.value| => o.filters.value[i].1) else [];
  }

  // ---------------------------------------------------------------------------
  // Properties

  /** Every statement selects all columns of the repository's table. */
  lemma StartsWithSelect(tableName: string, o: QueryOptions)
    ensures var sql := QueryText(New(tableName), o);
      |sql| >= 14 + |tableName| && sql[..14 + |tableName|] == "SELECT * FROM " + tableName
  {
    var prefix := "SELECT * FROM " + tableName;
    var rest := WhereClause(o.filters) + OrderClause(o.sortBy, o.sortOrder) +
      LimitClause(o.limit) + OffsetClause(o.offset);
    assert QueryText(New(tableName), o) == prefix + rest;
    PrefixOfAppend(prefix, rest);
  }

  lemma PrefixOfAppend(a: string, b: string)
    ensures |a + b| >= |a| && (a + b)[..|a|] == a
  {}

  /** Without options the statement is the bare SELECT, with nothing bound. */
  lemma NoOptions(repo: Repository)
    ensures QueryText(repo, QueryOptions(None, None, None, None, None)) == "SELECT * FROM " + repo.tableName
    ensures Binds(QueryOptions(None, None, None, None, None)) == []
  {}

  /** A sort order without a sort column adds nothing; a sort column
      without an order sorts ascending. */
  lemma SortDefaults(column: string, order: string)
    ensures OrderClause(None, Some(order)) == ""
    ensures OrderClause(Some(column), None) == OrderClause(Some(column), Some("ASC"))
  {}

  /** The OFFSET clause is written whether or not there is a LIMIT. */
  lemma OffsetWithoutLimit(repo: Repository, o: QueryOptions, n: nat)
    requires o.limit.None? && o.offset == Some(n)
    ensures QueryText(repo, o) ==
      "SELECT * FROM " + repo.tableName + WhereClause(o.filters) +
      OrderClause(o.sortBy, o.sortOrder) + " OFFSET " + NatToString(n)
  {}

  /** A filter map without entries still writes " WHERE ", with no
      condition after it. */
  lemma EmptyFiltersLeaveWhere(repo: Repository)
    ensures QueryText(repo, QueryOptions(None, None, None, None, Some([]))) ==
      "SELECT * FROM " + repo.tableName + " WHERE "
  {}

  /** The number of occurrences of `c` in `s`. */
  function Count(s: string, c: char): nat {
    if s == [] then 0 else (if s[0] == c then 1 else 0) + Count(s[1..], c)
  }

  lemma {:induction false} CountAppend(a: string, b: string, c: char)
    ensures Count(a + b, c) == Count(a, c) + Count(b, c)
  {
    if a == [] {
      assert a + b == b;
    } else {
      assert (a + b)[1..] == a[1..] + b;
      CountAppend(a[1..], b, c);
    }
  }

  /** Joined parts hold the placeholders of the parts, when the separator
      holds none. */
  lemma {:induction false} CountJoin(parts: seq<string>, sep: string, c: char)
    requires Count(sep, c) == 0 && forall i :: 0 <= i < |parts| ==> Count(parts[i], c) == 1
    ensures Count(Join(parts, sep), c) == |parts|
  {
    if |parts| > 1 {
      CountJoin(parts[1..], sep, c);
      CountAppend(parts[0], sep, c);
      CountAppend(parts[0] + sep, Join(parts[1..], sep), c);
    }
  }

  lemma {:induction false} NoMarkIn(s: string, c: char)
    requires forall i :: 0 <= i < |s| ==> s[i] != c
    ensures Count(s, c) == 0
  {
    if s != [] {
      NoMarkIn(s[1..], c);
    }
  }

  /** The WHERE clause holds one '?' per filter, when the columns hold none. */
  lemma WherePlaceholders(filters: Option<seq<(string, string)>>)
    requires filters.Some? ==> forall i :: 0 <= i < |filters.value| ==> Count(filters.value[i].0, '?') == 0
    ensures Count(WhereClause(filters), '?') == if filters.Some? then |filters.value| else 0
  {
    if filters.Some? {
      var conds := Conditions(filters.value);
      NoMarkIn(" = ", '?');
      assert Count("?", '?') == 1;
      forall i | 0 <= i < |conds| ensures Count(conds[i], '?') == 1 {
        assert conds[i] == filters.value[i].0 + " = " + "?";
        CountAppend(filters.value[i].0, " = ", '?');
        CountAppend(filters.value[i].0 + " = ", "?", '?');
      }
      NoMarkIn(" AND ", '?');
      CountJoin(conds, " AND ", '?');
      NoMarkIn(" WHERE ", '?');
      CountAppend(" WHERE ", Join(conds, " AND "), '?');
    }
  }

  /** The ORDER BY clause holds no '?' when the column and order hold none. */
  lemma OrderPlaceholders(sortBy: Option<string>, sortOrder: Option<string>)
    requires sortBy.Some? ==> Count(sortBy.value, '?') == 0
    requires sortOrder.Some? ==> Count(sortOrder.value, '?') == 0
    ensures Count(OrderClause(sortBy, sortOrder), '?') == 0
  {
    if sortBy.Some? {
      var column := sortBy.value;
      var dir := sortOrder.GetOr("ASC");
      NoMarkIn(" ORDER BY ", '?');
      NoMarkIn(" ", '?');
      NoMarkIn("ASC", '?');
      CountAppend(" ORDER BY ", column, '?');
      CountAppend(" ORDER BY " + column, " ", '?');
      CountAppend(" ORDER BY " + column + " ", dir, '?');
    }
  }

  /** A LIMIT or OFFSET clause holds no '?'. */
  lemma NumberClausePlaceholders(word: string, n: nat)
    requires forall i :: 0 <= i < |word| ==> word[i] != '?'
    ensures Count(word + NatToString(n), '?') == 0
  {
    NoMarkIn(word, '?');
    NoMarkIn(NatToString(n), '?');
    CountAppend(word, NatToString(n), '?');
  }

  lemma CountPieces(a: string, b: string, w: string, o: string, l: string, f: string, c: char)
    ensures Count(a + b + w + o + l + f, c) == Count(a, c) + Count(b, c) + Count(w, c) + Count(o, c) + Count(l, c) + Count(f, c)
  {
    CountAppend(a, b, c);
    CountAppend(a + b, w, c);
    CountAppend(a + b + w, o, c);
    CountAppend(a + b + w + o, l, c);
    CountAppend(a + b + w + o + l, f, c);
  }

  /** The placeholders of the statement are those of its clauses. */
  lemma StatementPlaceholders(repo: Repository, o: QueryOptions, n: nat)
    requires Count(repo.tableName, '?') == 0
    requires Count(WhereClause(o.filters), '?') == n
    requires Count(OrderClause(o.sortBy, o.sortOrder), '?') == 0
    requires Count(LimitClause(o.limit), '?') == 0
    requires Count(OffsetClause(o.offset), '?') == 0
    ensures Count(QueryText(repo, o), '?') == n
  {
    NoMarkIn("SELECT * FROM ", '?');
    CountPieces("SELECT * FROM ", repo.tableName, WhereClause(o.filters), OrderClause(o.sortBy, o.sortOrder),
                LimitClause(o.limit), OffsetClause(o.offset), '?');
  }

  /** The statement holds one '?' per bound value (when the table, column
      and order names hold none): the binds line up with the conditions. */
  lemma PlaceholdersMatchBinds(repo: Repository, o: QueryOptions)
    requires Count(repo.tableName, '?') == 0
    requires o.filters.Some? ==> forall i :: 0 <= i < |o.filters.value| ==> Count(o.filters.value[i].0, '?') == 0
    requires o.sortBy.Some? ==> Count(o.sortBy.value, '?') == 0
    requires o.sortOrder.Some? ==> Count(o.sortOrder.value, '?') == 0
    ensures Count(QueryText(repo, o), '?') == |Binds(o)|
  {
    var n := if o.filters.Some? then |o.filters.value| else 0;
    WherePlaceholders(o.filters);
    OrderPlaceholders(o.sortBy, o.sortOrder);
    if o.limit.Some? { NumberClausePlaceholders(" LIMIT ", o.limit.value); }
    if o.offset.Some? { NumberClausePlaceholders(" OFFSET ", o.offset.value); }
    StatementPlaceholders(repo, o, n);
  }
}
