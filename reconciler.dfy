/**
 * The reconciliation loop of `run` (main.go, lines 56-99): for each scraped
 * product, the token-dropping prefix search with the image gate; a matched
 * row whose price differs gets the product's price and list price; the
 * counters `updated`, `skipped` and `comparisons` are accumulated.
 *
 * `Step` and `Reconcile` specify the loop on values; the method `Run` is the
 * loop itself, over the table of a `Store`, and is proved to do what they say.
 */
module Reconciler {

  import opened Wrappers
  import opened Normalizer
  import opened Catalog
  import opened Matching

  /** A scraped listing: `{Name, Image, Price, ListPrice}`, prices in cents. */
  datatype Product = Product(name: string, image: string, price: int, listPrice: int)

  datatype Counters = Counters(updated: nat, skipped: nat, comparisons: nat)

  /** The table, the statements issued so far and the counters. */
  datatype State = State(rows: seq<Row>, log: seq<Statement>, counters: Counters)

  /** A run starts on a table with nothing issued and the counters at zero. */
  function Start(rows: seq<Row>): State {
    State(rows, [], Counters(0, 0, 0))
  }

  /**
   * The tokens of a product name: `normalize(p.Name).split("+")`. They join
   * back to the key, hold no `+`, and none is empty unless the key is.
   */
  function Tokens(name: string): (r: seq<string>)
    ensures |r| >= 1 && Join(r) == Normalize(name)
    ensures forall t :: t in r ==> '+' !in t
    ensures Normalize(name) == [] <==> r == [""]
    ensures Normalize(name) != [] ==> forall t :: t in r ==> t != ""
  {
    var key := Normalize(name);
    TokensOfNormalized(key);
    JoinSplit(key);
    Split(key)
  }

  /**
   * The search for one product on a table. An accepted row is a `jumbo` row
   * of the table with the product's image whose key starts with the product's
   * first `tokens` tokens.
   */
  function Search(rows: seq<Row>, p: Product): (r: Resolution)
    ensures r.accepted.Some? ==>
              && r.accepted.value in rows && r.accepted.value.source == Jumbo && r.accepted.value.image == p.image
              && 1 <= r.tokens <= |Tokens(p.name)|
              && IsPrefix(Join(Tokens(p.name)[..r.tokens]), r.accepted.value.normalizedName)
    ensures |r.queries| <= |Tokens(p.name)|
  {
    var parts := Tokens(p.name);
    var r := Resolve(rows, parts, p.image);
    ResolveAccepts(rows, parts, p.image);
    if r.accepted.Some? then
      FirstAtShape(rows, parts, r.tokens, p.image, r.accepted.value);
      r
    else
      r
  }

  /**
   * What the loop body does with an accepted row: when its price differs from
   * the product's, the UPDATE of the row's id to the product's price and list
   * price; otherwise nothing.
   */
  function Write(rows: seq<Row>, log: seq<Statement>, p: Product, row: Row): (w: (seq<Row>, seq<Statement>))
    ensures SameKeys(rows, w.0)
    ensures forall i :: 0 <= i < |rows| && rows[i].id != row.id ==> w.0[i] == rows[i]
    ensures row.price == p.price ==> w == (rows, log)
    ensures row.price != p.price ==> w.1 == log + [Update(row.id, p.price, p.listPrice)]
    ensures row.price != p.price ==>
              forall i :: 0 <= i < |rows| && rows[i].id == row.id ==> w.0[i] == rows[i].(price := p.price, listPrice := p.listPrice)
  {
    SetPriceKeepsKeys(rows, row.id, p.price, p.listPrice);
    if row.price != p.price then
      (SetPrice(rows, row.id, p.price, p.listPrice), log + [Update(row.id, p.price, p.listPrice)])
    else
      (rows, log)
  }

  /**
   * The effect of a search result `r` for `p` on the state: the write for an
   * accepted row, and the counters. The product is counted once, as updated
   * exactly when a row was accepted and as skipped otherwise; the rows keep
   * their ids, names and images, and a miss writes nothing.
   */
  function Apply(st: State, p: Product, r: Resolution): (fin: State)
    ensures fin.counters.updated + fin.counters.skipped == st.counters.updated + st.counters.skipped + 1
    ensures fin.counters.updated == st.counters.updated + 1 <==> r.accepted.Some?
    ensures fin.counters.comparisons == st.counters.comparisons + r.examined
    ensures SameKeys(st.rows, fin.rows)
    ensures r.accepted.None? ==> fin.rows == st.rows && fin.log == st.log + r.queries
  {
    var comparisons := st.counters.comparisons + r.examined;
    match r.accepted
    case None =>
      State(st.rows, st.log + r.queries, st.counters.(skipped := st.counters.skipped + 1, comparisons := comparisons))
    case Some(row) =>
      var written := Write(st.rows, st.log + r.queries, p, row);
      State(written.0, written.1, st.counters.(updated := st.counters.updated + 1, comparisons := comparisons))
  }

  /**
   * One product through the loop body: it is counted once, as updated exactly
   * when its search accepts a row, which costs at least one comparison, and
   * the rows keep their ids, names and images.
   */
  function Step(st: State, p: Product): (fin: State)
    ensures fin.counters.updated + fin.counters.skipped == st.counters.updated + st.counters.skipped + 1
    ensures fin.counters.updated == st.counters.updated + 1 <==> Search(st.rows, p).accepted.Some?
    ensures fin.counters.comparisons - st.counters.comparisons >= fin.counters.updated - st.counters.updated
    ensures SameKeys(st.rows, fin.rows)
  {
    Apply(st, p, Search(st.rows, p))
  }

  /**
   * The products, in order, through the loop body: `updated + skipped` grows
   * by the number of products, `comparisons` by at least as much as
   * `updated`, and the rows keep their ids, names and images.
   */
  function Reconcile(st: State, products: seq<Product>): (fin: State)
    ensures fin.counters.updated + fin.counters.skipped == st.counters.updated + st.counters.skipped + |products|
    ensures fin.counters.comparisons - st.counters.comparisons >= fin.counters.updated - st.counters.updated
    ensures SameKeys(st.rows, fin.rows)
    decreases |products|
  {
    if products == [] then st
    else
      var mid := Reconcile(st, products[..|products| - 1]);
      var fin := Step(mid, products[|products| - 1]);
      SameKeysTransitive(st.rows, mid.rows, fin.rows);
      fin
  }

  /* ---------------- properties of the loop ---------------- */

  /** Every statement a search issues is a SELECT. */
  lemma SearchSelectsOnly(rows: seq<Row>, p: Product)
    ensures forall i :: 0 <= i < |Search(rows, p).queries| ==> Search(rows, p).queries[i].Select?
  {
    ResolveQueries(rows, Tokens(p.name), p.image);
  }

  /**
   * What one product does to the table and the log: its SELECTs, then, only
   * when the search accepted a row whose price differs from the product's, one
   * UPDATE of that row's id to the product's prices; every row with another id
   * is left as it was, and the ids, names and images of all rows are kept.
   */
  lemma StepEffect(st: State, p: Product)
    ensures var r, fin := Search(st.rows, p), Step(st, p);
            && SameKeys(st.rows, fin.rows)
            && (forall i :: 0 <= i < |st.rows| && (r.accepted.None? || st.rows[i].id != r.accepted.value.id) ==> fin.rows[i] == st.rows[i])
            && (r.accepted.Some? && r.accepted.value.price != p.price ==>
                  fin.log == st.log + r.queries + [Update(r.accepted.value.id, p.price, p.listPrice)])
            && (r.accepted.None? || r.accepted.value.price == p.price ==> fin.rows == st.rows && fin.log == st.log + r.queries)
  {
    var r := Search(st.rows, p);
    if r.accepted.Some? {
      SetPriceKeepsKeys(st.rows, r.accepted.value.id, p.price, p.listPrice);
    }
  }

  lemma SameKeysTransitive(a: seq<Row>, b: seq<Row>, c: seq<Row>)
    requires SameKeys(a, b) && SameKeys(b, c)
    ensures SameKeys(a, c)
  {
  }

  /** The number of products whose search on `rows` accepts a row. */
  function Matched(rows: seq<Row>, products: seq<Product>): (n: nat)
    ensures n <= |products|
    decreases |products|
  {
    if products == [] then 0
    else Matched(rows, products[..|products| - 1]) + (if Search(rows, products[|products| - 1]).accepted.Some? then 1 else 0)
  }

  /**
   * `updated` counts exactly the products whose search on the table as it was
   * before the run accepts a row, and `skipped` the others: the UPDATEs of
   * earlier products change prices only, which no search looks at.
   */
  lemma {:induction false} ReconcileMatched(st: State, products: seq<Product>)
    ensures var d := Reconcile(st, products).counters;
            && d.updated == st.counters.updated + Matched(st.rows, products)
            && d.skipped == st.counters.skipped + |products| - Matched(st.rows, products)
    decreases |products|
  {
    if products != [] {
      var init, last := products[..|products| - 1], products[|products| - 1];
      var mid := Reconcile(st, init);
      ReconcileMatched(st, init);
      TargetIgnoresPrices(st.rows, mid.rows, last);
    }
  }

  /* ---------------- running twice ---------------- */

  /** The id of the row the search for `p` accepts, if any. */
  function Target(rows: seq<Row>, p: Product): Option<int> {
    match Search(rows, p).accepted
    case None => None
    case Some(row) => Some(row.id)
  }

  /** The search result does not depend on prices, so neither does the accepted id. */
  lemma TargetIgnoresPrices(a: seq<Row>, b: seq<Row>, p: Product)
    requires SameKeys(a, b)
    ensures Target(a, p) == Target(b, p)
  {
    ResolveIgnoresPrices(a, b, Tokens(p.name), p.image);
  }

  /** Products whose searches accept the same row carry the same price. */
  predicate ConsistentPrices(rows: seq<Row>, products: seq<Product>) {
    forall p, q :: p in products && q in products && Target(rows, p).Some? && Target(rows, p) == Target(rows, q) ==> p.price == q.price
  }

  /** Every product's accepted row already carries the product's price. */
  predicate Settled(rows: seq<Row>, products: seq<Product>) {
    forall p :: p in products && Search(rows, p).accepted.Some? ==> Search(rows, p).accepted.value.price == p.price
  }

  lemma SameKeysUnique(a: seq<Row>, b: seq<Row>)
    requires SameKeys(a, b) && UniqueIds(a)
    ensures UniqueIds(b)
  {
    forall i, j | 0 <= i < |b| && 0 <= j < |b| && b[i].id == b[j].id ensures i == j {
      assert Key(a[i]).id == Key(b[i]).id && Key(a[j]).id == Key(b[j]).id;
    }
  }

  /** Under unique ids, a row of the table is the row at the index that carries its id. */
  lemma RowAtId(rows: seq<Row>, row: Row, i: nat)
    requires UniqueIds(rows) && row in rows && i < |rows| && rows[i].id == row.id
    ensures rows[i] == row
  {
  }

  /** After the step for `q` accepted the row with id `x`, every row with that id carries `q`'s price. */
  lemma AcceptedRepriced(st: State, q: Product)
    requires UniqueIds(st.rows) && Search(st.rows, q).accepted.Some?
    ensures var x, next := Search(st.rows, q).accepted.value.id, Step(st, q).rows;
            forall i :: 0 <= i < |next| && next[i].id == x ==> next[i].price == q.price
  {
    var row := Search(st.rows, q).accepted.value;
    var next := Step(st, q).rows;
    forall i | 0 <= i < |next| && next[i].id == row.id ensures next[i].price == q.price {
      if row.price == q.price {
        RowAtId(st.rows, row, i);
      } else {
        SetPriceKeepsKeys(st.rows, row.id, q.price, q.listPrice);
        assert st.rows[i].id == row.id;
      }
    }
  }

  /** A product settled before the step for `q` stays settled when its row has another id than the one `q` accepted. */
  lemma OtherRowSettled(cur: seq<Row>, next: seq<Row>, x: int, p: Product)
    requires UniqueIds(cur) && SameKeys(cur, next)
    requires forall i :: 0 <= i < |cur| && cur[i].id != x ==> next[i] == cur[i]
    requires Search(cur, p).accepted.Some? ==> Search(cur, p).accepted.value.price == p.price
    requires Search(next, p).accepted.Some? && Search(next, p).accepted.value.id != x
    ensures Search(next, p).accepted.value.price == p.price
  {
    var rp := Search(next, p).accepted.value;
    var i :| 0 <= i < |next| && next[i] == rp;
    TargetIgnoresPrices(cur, next, p);
    var rc := Search(cur, p).accepted.value;
    var j :| 0 <= j < |cur| && cur[j] == rc;
    assert cur[i] == rc;
  }

  /** After the step for `q`, a product `p` whose searches agree with `q`'s on prices has its accepted row at its price. */
  lemma StepSettlesOne(rows: seq<Row>, st: State, q: Product, p: Product)
    requires UniqueIds(rows) && SameKeys(rows, st.rows)
    requires Target(rows, p).Some? && Target(rows, p) == Target(rows, q) ==> p.price == q.price
    requires p != q && Search(st.rows, p).accepted.Some? ==> Search(st.rows, p).accepted.value.price == p.price
    ensures Search(Step(st, q).rows, p).accepted.Some? ==> Search(Step(st, q).rows, p).accepted.value.price == p.price
  {
    var cur, next := st.rows, Step(st, q).rows;
    StepEffect(st, q);
    SameKeysTransitive(rows, cur, next);
    SameKeysUnique(rows, cur);
    if Search(next, p).accepted.Some? {
      var rp := Search(next, p).accepted.value;
      TargetIgnoresPrices(cur, next, p);
      if Search(cur, q).accepted.Some? && rp.id == Search(cur, q).accepted.value.id {
        RepricedRowSettled(rows, st, q, p);
      } else if Search(cur, q).accepted.Some? {
        assert p != q;
        OtherRowSettled(cur, next, Search(cur, q).accepted.value.id, p);
      }
    }
  }

  /** When `p` is accepted on the row the step for `q` accepted, that row now has `q`'s price, which is `p`'s. */
  lemma RepricedRowSettled(rows: seq<Row>, st: State, q: Product, p: Product)
    requires UniqueIds(rows) && SameKeys(rows, st.rows) && SameKeys(rows, Step(st, q).rows)
    requires Target(rows, p).Some? && Target(rows, p) == Target(rows, q) ==> p.price == q.price
    requires Search(st.rows, q).accepted.Some? && Search(Step(st, q).rows, p).accepted.Some?
    requires Search(Step(st, q).rows, p).accepted.value.id == Search(st.rows, q).accepted.value.id
    ensures Search(Step(st, q).rows, p).accepted.value.price == p.price
  {
    var next := Step(st, q).rows;
    var rp := Search(next, p).accepted.value;
    SameKeysUnique(rows, st.rows);
    TargetIgnoresPrices(rows, next, p);
    TargetIgnoresPrices(rows, st.rows, q);
    AcceptedRepriced(st, q);
    var i :| 0 <= i < |next| && next[i] == rp;
    assert Target(rows, p) == Target(rows, q);
  }


  /** One more product processed on a settled table, all of whose searches agree on prices, leaves it settled. */
  lemma StepSettles(rows: seq<Row>, st: State, done: seq<Product>, q: Product)
    requires UniqueIds(rows) && SameKeys(rows, st.rows) && ConsistentPrices(rows, done + [q])
    requires Settled(st.rows, done)
    ensures SameKeys(rows, Step(st, q).rows) && Settled(Step(st, q).rows, done + [q])
  {
    SameKeysTransitive(rows, st.rows, Step(st, q).rows);
    assert q in done + [q];
    forall p | p in done + [q] ensures Search(Step(st, q).rows, p).accepted.Some? ==> Search(Step(st, q).rows, p).accepted.value.price == p.price {
      assert p != q ==> p in done;
      StepSettlesOne(rows, st, q, p);
    }
  }

  /** Agreement on prices among some products carries over to fewer of them. */
  lemma ConsistentFewer(rows: seq<Row>, products: seq<Product>, fewer: seq<Product>)
    requires ConsistentPrices(rows, products)
    requires forall p :: p in fewer ==> p in products
    ensures ConsistentPrices(rows, fewer)
  {
  }

  /** A run from the start leaves the table settled for its products when their prices are consistent and ids unique. */
  lemma {:induction false} RunSettles(rows: seq<Row>, products: seq<Product>)
    requires UniqueIds(rows) && ConsistentPrices(rows, products)
    ensures var cur := Reconcile(Start(rows), products).rows;
            SameKeys(rows, cur) && Settled(cur, products)
    decreases |products|
  {
    if products != [] {
      var init, last := products[..|products| - 1], products[|products| - 1];
      assert products == init + [last];
      ConsistentFewer(rows, products, init);
      RunSettles(rows, init);
      StepSettles(rows, Reconcile(Start(rows), init), init, last);
    }
  }

  /** `after` has the rows of `before` and extends its log with SELECTs only. */
  predicate ReadsOnly(before: State, after: State) {
    && after.rows == before.rows && |before.log| <= |after.log| && after.log[..|before.log|] == before.log
    && forall k :: |before.log| <= k < |after.log| ==> after.log[k].Select?
  }

  lemma ReadsOnlyTransitive(a: State, b: State, c: State)
    requires ReadsOnly(a, b) && ReadsOnly(b, c)
    ensures ReadsOnly(a, c)
  {
    forall k | |a.log| <= k < |c.log| ensures c.log[k].Select? {
      if k < |b.log| {
        assert c.log[k] == c.log[..|b.log|][k];
      }
    }
    assert c.log[..|a.log|] == c.log[..|b.log|][..|a.log|];
  }

  /** A search result of SELECTs only whose accepted row, if any, has `p`'s price, leads to no write. */
  lemma ApplyReadsOnly(st: State, p: Product, r: Resolution)
    requires r.accepted.Some? ==> r.accepted.value.price == p.price
    requires forall i :: 0 <= i < |r.queries| ==> r.queries[i].Select?
    ensures ReadsOnly(st, Apply(st, p, r))
  {
    var fin := Apply(st, p, r);
    assert fin.log == st.log + r.queries;
    assert fin.log[..|st.log|] == st.log;
  }

  /** On a table where `p`'s accepted row already has `p`'s price, the step for `p` only reads. */
  lemma SettledStepReadsOnly(st: State, p: Product)
    requires Settled(st.rows, [p])
    ensures ReadsOnly(st, Step(st, p))
  {
    assert p in [p];
    SearchSelectsOnly(st.rows, p);
    ApplyReadsOnly(st, p, Search(st.rows, p));
  }

  /** On a settled table a run writes nothing: the rows stay as they are and every statement it issues is a SELECT. */
  lemma {:induction false} SettledRunReadsOnly(st: State, products: seq<Product>)
    requires Settled(st.rows, products)
    ensures ReadsOnly(st, Reconcile(st, products))
    decreases |products|
  {
    if products != [] {
      var init, last := products[..|products| - 1], products[|products| - 1];
      assert last in products;
      assert forall p :: p in init ==> p in products;
      SettledRunReadsOnly(st, init);
      var mid := Reconcile(st, init);
      SettledStepReadsOnly(mid, last);
      ReadsOnlyTransitive(st, mid, Reconcile(st, products));
    }
  }

  /**
   * Running the same listing twice: when ids are unique and products whose
   * searches accept the same row carry the same price, the second run issues
   * no UPDATE and leaves the table as the first run left it.
   */
  lemma RerunWritesNothing(rows: seq<Row>, products: seq<Product>)
    requires UniqueIds(rows) && ConsistentPrices(rows, products)
    ensures var first := Reconcile(Start(rows), products);
            var second := Reconcile(Start(first.rows), products);
            second.rows == first.rows && forall s :: s in second.log ==> s.Select?
  {
    RunSettles(rows, products);
    var first := Reconcile(Start(rows), products);
    SettledRunReadsOnly(Start(first.rows), products);
    var second := Reconcile(Start(first.rows), products);
    forall s | s in second.log ensures s.Select? {
      var k :| 0 <= k < |second.log| && second.log[k] == s;
    }
  }

  /** A search result with `seen` rows examined and the statements `asked` issued before it. */
  function Extend(seen: nat, asked: seq<Statement>, r: Resolution): Resolution {
    r.(examined := seen + r.examined, queries := asked + r.queries)
  }

  /** A round whose SELECT returned a row with the image accepts the first such row. */
  lemma RoundAccepts(rows: seq<Row>, parts: seq<string>, image: string, cands: seq<Row>, j: nat)
    requires parts != [] && cands == SelectRows(rows, Pattern(parts))
    requires j < |cands| && cands[j].image == image
    requires forall t :: 0 <= t < j ==> cands[t].image != image
    ensures Resolve(rows, parts, image) == Resolution(Some(cands[j]), |parts|, j + 1, [Select(Pattern(parts))])
  {
  }

  /** A round whose SELECT returned no row with the image goes on with one token fewer. */
  lemma RoundMisses(rows: seq<Row>, parts: seq<string>, image: string, cands: seq<Row>)
    requires parts != [] && cands == SelectRows(rows, Pattern(parts))
    requires forall t :: 0 <= t < |cands| ==> cands[t].image != image
    ensures Resolve(rows, parts, image) == Extend(|cands|, [Select(Pattern(parts))], Resolve(rows, DropLast(parts), image))
  {
  }

  lemma ExtendTwice(a: nat, qa: seq<Statement>, b: nat, qb: seq<Statement>, r: Resolution)
    ensures Extend(a, qa, Extend(b, qb, r)) == Extend(a + b, qa + qb, r)
  {
    assert qa + (qb + r.queries) == (qa + qb) + r.queries;
  }

  /** The effect of a search that accepted a row after `seen` rows and the statements `asked` of earlier rounds. */
  lemma ApplyAccepted(st: State, p: Product, seen: nat, asked: seq<Statement>, r: Resolution)
    requires r.accepted.Some?
    ensures var fin := Apply(st, p, Extend(seen, asked, r));
            var written := Write(st.rows, st.log + asked + r.queries, p, r.accepted.value);
            && fin.rows == written.0 && fin.log == written.1
            && fin.counters == st.counters.(updated := st.counters.updated + 1, comparisons := st.counters.comparisons + seen + r.examined)
  {
    assert st.log + (asked + r.queries) == st.log + asked + r.queries;
  }

  /** The `for (const row of res.rows)` loop of one round: the image gate, and the write for the row it accepts. */
  method ScanRound(store: Store, p: Product, res: seq<Row>, updated0: nat, comparisons0: nat)
    returns (matched: bool, updated: nat, comparisons: nat)
    modifies store
    ensures matched <==> FirstWithImage(res, p.image).Some?
    ensures !matched ==> && store.rows == old(store.rows) && store.log == old(store.log)
                         && updated == updated0 && comparisons == comparisons0 + |res|
    ensures matched ==> var j := FirstWithImage(res, p.image).value;
                        && (store.rows, store.log) == Write(old(store.rows), old(store.log), p, res[j])
                        && updated == updated0 + 1 && comparisons == comparisons0 + j + 1
  {
    matched, updated, comparisons := false, updated0, comparisons0;
    var j := 0;
    while j < |res|
      invariant j <= |res|
      invariant forall t :: 0 <= t < j ==> res[t].image != p.image
      invariant store.rows == old(store.rows) && store.log == old(store.log)
      invariant updated == updated0 && comparisons == comparisons0 + j
    {
      comparisons := comparisons + 1;
      var row := res[j];
      if row.image == p.image {
        if row.price != p.price {
          store.UpdatePrice(p.price, p.listPrice, row.id);
        }
        updated := updated + 1;
        matched := true;
        break;
      }
      j := j + 1;
    }
  }

  /**
   * One round of the `while` loop: the SELECT of the prefix `parts`, then the
   * image gate over the rows it returned. Either the round accepts the row the
   * search accepts with all of `parts`, or it hands over, with `seen` rows
   * examined, to the search with one token fewer.
   */
  method Round(store: Store, p: Product, parts: seq<string>, updated0: nat, comparisons0: nat)
    returns (matched: bool, updated: nat, comparisons: nat, ghost seen: nat)
    requires parts != []
    modifies store
    ensures var r := Resolve(old(store.rows), parts, p.image);
            matched ==> && r.accepted.Some? && r.queries == [Select(Pattern(parts))]
                        && (store.rows, store.log) == Write(old(store.rows), old(store.log) + r.queries, p, r.accepted.value)
                        && updated == updated0 + 1 && comparisons == comparisons0 + r.examined
    ensures !matched ==> && Resolve(old(store.rows), parts, p.image) == Extend(seen, [Select(Pattern(parts))], Resolve(old(store.rows), DropLast(parts), p.image))
                         && store.rows == old(store.rows) && store.log == old(store.log) + [Select(Pattern(parts))]
                         && updated == updated0 && comparisons == comparisons0 + seen
  {
    ghost var rows := store.rows;
    var search := Join(parts) + "%";
    var res := store.SelectByName(search);
    matched, updated, comparisons := ScanRound(store, p, res, updated0, comparisons0);
    seen := |res|;
    if matched {
      RoundAccepts(rows, parts, p.image, res, FirstWithImage(res, p.image).value);
    } else {
      RoundMisses(rows, parts, p.image, res);
    }
  }

  /**
   * One pass of the `while` loop of `run`, with the rounds before it given as
   * ghost `seen` and `asked`: either the round accepts a row and the state is
   * the one the whole search leads to, or it extends `seen` and `asked` by
   * its own round, leaving the rest of the search to the remaining tokens.
   */
  method LookupRound(store: Store, p: Product, parts: seq<string>, updated0: nat, comparisons0: nat,
                     ghost before: State, ghost seen: nat, ghost asked: seq<Statement>)
    returns (matched: bool, updated: nat, comparisons: nat, ghost seen': nat, ghost asked': seq<Statement>)
    requires parts != []
    requires store.rows == before.rows && store.log == before.log + asked
    requires updated0 == before.counters.updated && comparisons0 == before.counters.comparisons + seen
    modifies store
    ensures var fin := Apply(before, p, Extend(seen, asked, Resolve(before.rows, parts, p.image)));
            matched ==> store.rows == fin.rows && store.log == fin.log && Counters(updated, before.counters.skipped, comparisons) == fin.counters
    ensures !matched ==>
              && store.rows == before.rows && store.log == before.log + asked'
              && updated == updated0 && comparisons == before.counters.comparisons + seen'
              && Extend(seen, asked, Resolve(before.rows, parts, p.image)) == Extend(seen', asked', Resolve(before.rows, DropLast(parts), p.image))
  {
    ghost var more: nat;
    matched, updated, comparisons, more := Round(store, p, parts, updated0, comparisons0);
    if matched {
      ApplyAccepted(before, p, seen, asked, Resolve(before.rows, parts, p.image));
      seen', asked' := seen, asked;
    } else {
      ghost var q := [Select(Pattern(parts))];
      ExtendTwice(seen, asked, more, q, Resolve(before.rows, DropLast(parts), p.image));
      assert before.log + asked + q == before.log + (asked + q);
      seen', asked' := seen + more, asked + q;
    }
  }

  /**
   * The `while` loop of the body of `run`: rounds over ever shorter prefixes
   * of `parts`, until a row is accepted or no token is left; `skipped` is
   * counted after the loop when nothing was accepted.
   */
  method Lookup(store: Store, p: Product, parts0: seq<string>, updated0: nat, skipped0: nat, comparisons0: nat)
    returns (updated: nat, skipped: nat, comparisons: nat)
    modifies store
    ensures var fin := Apply(State(old(store.rows), old(store.log), Counters(updated0, skipped0, comparisons0)), p,
                             Resolve(old(store.rows), parts0, p.image));
            store.rows == fin.rows && store.log == fin.log && Counters(updated, skipped, comparisons) == fin.counters
  {
    updated, skipped, comparisons := updated0, skipped0, comparisons0;
    ghost var before := State(store.rows, store.log, Counters(updated, skipped, comparisons));
    ghost var whole := Resolve(before.rows, parts0, p.image);
    ghost var fin := Apply(before, p, whole);
    var parts := parts0;
    var matched := false;
    ghost var seen: nat := 0;
    ghost var asked: seq<Statement> := [];
    while |parts| > 0 && !matched
      invariant !matched ==>
        && store.rows == before.rows && store.log == before.log + asked
        && updated == updated0 && comparisons == comparisons0 + seen
        && whole == Extend(seen, asked, Resolve(before.rows, parts, p.image))
      invariant matched ==> store.rows == fin.rows && store.log == fin.log && Counters(updated, skipped, comparisons) == fin.counters
      invariant skipped == skipped0
      decreases |parts|
    {
      matched, updated, comparisons, seen, asked := LookupRound(store, p, parts, updated, comparisons, before, seen, asked);
      parts := DropLast(parts);
    }
    if !matched {
      assert whole == Resolution(None, 0, seen, asked);
      skipped := skipped + 1;
    }
  }

  /** The body of the loop of `run` for one product `p`. */
  method Process(store: Store, p: Product, updated0: nat, skipped0: nat, comparisons0: nat)
    returns (updated: nat, skipped: nat, comparisons: nat)
    modifies store
    ensures var fin := Step(State(old(store.rows), old(store.log), Counters(updated0, skipped0, comparisons0)), p);
            store.rows == fin.rows && store.log == fin.log && Counters(updated, skipped, comparisons) == fin.counters
  {
    var parts := Tokens(p.name);
    updated, skipped, comparisons := Lookup(store, p, parts, updated0, skipped0, comparisons0);
  }

  /** A run over one more product is a step further. */
  lemma ReconcileNext(st: State, products: seq<Product>, n: nat)
    requires n < |products|
    ensures Reconcile(st, products[..n + 1]) == Step(Reconcile(st, products[..n]), products[n])
  {
    assert products[..n + 1][..n] == products[..n];
  }

  /** The loop of `run`. */
  method Run(store: Store, products: seq<Product>) returns (updated: nat, skipped: nat, comparisons: nat)
    modifies store
    ensures var fin := Reconcile(State(old(store.rows), old(store.log), Counters(0, 0, 0)), products);
            store.rows == fin.rows && store.log == fin.log && Counters(updated, skipped, comparisons) == fin.counters
  {
    ghost var start := State(store.rows, store.log, Counters(0, 0, 0));
    updated, skipped, comparisons := 0, 0, 0;
    for n := 0 to |products|
      invariant State(store.rows, store.log, Counters(updated, skipped, comparisons)) == Reconcile(start, products[..n])
    {
      ReconcileNext(start, products, n);
      updated, skipped, comparisons := Process(store, products[n], updated, skipped, comparisons);
    }
    assert products[..|products|] == products;
  }
}
