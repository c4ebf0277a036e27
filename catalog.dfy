/**
 * The catalogue table `products` and the two SQL statements the reconciler
 * sends to it (main.go, lines 38-51): a SELECT of the `jumbo` rows whose
 * `normalized_name` is LIKE a pattern, and an UPDATE of `price` and
 * `list_price` by `id`.
 *
 * The table is an in-memory sequence of rows in stored order; a query
 * without ORDER BY is taken to return its rows in that order.
 */
module Catalog {

  /** The `source` tag the SELECT filters on. */
  const Jumbo: string := "jumbo"

  /** A row of the table, with prices in cents. */
  datatype Row = Row(id: int, source: string, normalizedName: string, image: string, price: int, listPrice: int)

  /** A statement issued to the table. */
  datatype Statement =
    | Select(pattern: string)
    | Update(id: int, price: int, listPrice: int)

  predicate IsPrefix(p: string, s: string) {
    |p| <= |s| && s[..|p|] == p
  }

  /**
   * `value LIKE pattern` for the patterns the reconciler builds: a trailing
   * `%` matches any rest; every other character of the pattern stands for itself.
   */
  function Like(value: string, pattern: string): (b: bool)
    ensures |pattern| > 0 && pattern[|pattern| - 1] == '%' ==>
              (b <==> |pattern| - 1 <= |value| && forall i :: 0 <= i < |pattern| - 1 ==> value[i] == pattern[i])
    ensures (|pattern| == 0 || pattern[|pattern| - 1] != '%') ==> (b <==> value == pattern)
  {
    if |pattern| > 0 && pattern[|pattern| - 1] == '%' then IsPrefix(pattern[..|pattern| - 1], value)
    else value == pattern
  }

  /** The WHERE clause of the SELECT: `source = 'jumbo' AND normalized_name LIKE $1`. */
  function Selects(row: Row, pattern: string): (b: bool)
    ensures b ==> row.source == Jumbo
    ensures pattern == "%" ==> (b <==> row.source == Jumbo)
  {
    row.source == Jumbo && Like(row.normalizedName, pattern)
  }

  /** The rows the SELECT returns, in stored order. */
  function SelectRows(rows: seq<Row>, pattern: string): (r: seq<Row>)
    ensures |r| <= |rows|
    ensures forall x :: x in r ==> x in rows && Selects(x, pattern)
    ensures forall x :: x in rows && Selects(x, pattern) ==> x in r
  {
    if rows == [] then []
    else if Selects(rows[0], pattern) then [rows[0]] + SelectRows(rows[1..], pattern)
    else SelectRows(rows[1..], pattern)
  }

  /** The SELECT keeps stored order: selecting from two stretches of the table is selecting from each in turn. */
  lemma {:induction false} SelectRowsAppend(a: seq<Row>, b: seq<Row>, pattern: string)
    ensures SelectRows(a + b, pattern) == SelectRows(a, pattern) + SelectRows(b, pattern)
  {
    if a == [] {
      assert a + b == b;
    } else {
      assert (a + b)[1..] == a[1..] + b;
      SelectRowsAppend(a[1..], b, pattern);
    }
  }

  /** The table after `UPDATE products SET price = $1, list_price = $2 WHERE id = $3`. */
  function SetPrice(rows: seq<Row>, id: int, price: int, listPrice: int): (r: seq<Row>)
    ensures |r| == |rows|
    ensures forall i :: 0 <= i < |rows| && rows[i].id == id ==> r[i] == rows[i].(price := price, listPrice := listPrice)
    ensures forall i :: 0 <= i < |rows| && rows[i].id != id ==> r[i] == rows[i]
  {
    if rows == [] then []
    else
      var head := if rows[0].id == id then rows[0].(price := price, listPrice := listPrice) else rows[0];
      [head] + SetPrice(rows[1..], id, price, listPrice)
  }

  /** A row without its prices: everything the SELECT looks at. */
  function Key(row: Row): Row {
    row.(price := 0, listPrice := 0)
  }

  /** Two tables that differ at most in prices. */
  predicate SameKeys(a: seq<Row>, b: seq<Row>) {
    |a| == |b| && forall i :: 0 <= i < |a| ==> Key(a[i]) == Key(b[i])
  }

  /** The UPDATE changes prices only. */
  lemma SetPriceKeepsKeys(rows: seq<Row>, id: int, price: int, listPrice: int)
    ensures SameKeys(rows, SetPrice(rows, id, price, listPrice))
  {
  }

  /** The SELECT does not look at prices: on two tables that differ only in prices it returns the same rows up to prices. */
  lemma {:induction false} SelectIgnoresPrices(a: seq<Row>, b: seq<Row>, pattern: string)
    requires SameKeys(a, b)
    ensures SameKeys(SelectRows(a, pattern), SelectRows(b, pattern))
  {
    if a != [] {
      assert Key(a[0]) == Key(b[0]);
      assert SameKeys(a[1..], b[1..]);
      SelectIgnoresPrices(a[1..], b[1..], pattern);
    }
  }

  /** Every row has an id of its own (the table's primary key). */
  predicate UniqueIds(rows: seq<Row>) {
    forall i, j :: 0 <= i < |rows| && 0 <= j < |rows| && rows[i].id == rows[j].id ==> i == j
  }

  /** With unique ids the UPDATE changes the one row with that id and nothing else. */
  lemma SetPriceChangesOneRow(rows: seq<Row>, k: nat, price: int, listPrice: int)
    requires UniqueIds(rows) && k < |rows|
    ensures var r := SetPrice(rows, rows[k].id, price, listPrice);
            r[k] == rows[k].(price := price, listPrice := listPrice)
            && forall i :: 0 <= i < |rows| && i != k ==> r[i] == rows[i]
  {
  }

  /** The table, as the reconciler sees it through its database client. */
  class Store {
    var rows: seq<Row>
    /** Every statement issued so far, in order. */
    ghost var log: seq<Statement>

    constructor (rows: seq<Row>)
      ensures this.rows == rows && log == []
    {
      this.rows := rows;
      log := [];
    }

    /** `client.query(selectByName, [pattern])` */
    method SelectByName(pattern: string) returns (res: seq<Row>)
      modifies this
      ensures res == SelectRows(rows, pattern)
      ensures rows == old(rows) && log == old(log) + [Select(pattern)]
    {
      res := SelectRows(rows, pattern);
      log := log + [Select(pattern)];
    }

    /** `client.query(updatePrice, [price, listPrice, id])` */
    method UpdatePrice(price: int, listPrice: int, id: int)
      modifies this
      ensures rows == SetPrice(old(rows), id, price, listPrice)
      ensures log == old(log) + [Update(id, price, listPrice)]
    {
      rows := SetPrice(rows, id, price, listPrice);
      log := log + [Update(id, price, listPrice)];
    }
  }
}
