# Catalogue price reconciler: a verified Dafny model

This project models the core of a catalogue price reconciler. The reconciler takes a scraped list of
retail listings (name, image URL, price, list price). It matches each listing against the `products`
table of a catalogue database. When the matched row's price differs from the listing's, it writes
the new price and list price back to that row.

The source is `main.go`, whose text is JavaScript for Node with the `pg` client. The model covers
three things:

- **`normalize`** (`normalizer.dfy`, module `Normalizer`). It folds a product name into a key of
  `+`-joined tokens. The steps are:
  - lower-case the name;
  - decompose accented letters (NFD) and drop the combining marks;
  - map `ñ` to `n`;
  - turn every run of white space into `+`;
  - squeeze runs of `+` into one;
  - drop a `+` at either end.

  Each step is a function. `Normalize` is their composition and is proved to produce a key of the
  normal shape. It is also proved idempotent, and to keep the letters of the name in order.
- **The two SQL statements** (`catalog.dfy`, module `Catalog`). These are the SELECT of `jumbo` rows
  whose `normalized_name` is LIKE a pattern, and the UPDATE of `price`/`list_price` by `id`. Both
  are specified as functions on a sequence of rows. They are also the two methods of a `Store` class,
  which holds the table and a ghost log of every statement issued.
- **The loop of `run`** (`matching.dfy`, module `Matching`, and `reconciler.dfy`, module
  `Reconciler`). This is the token-dropping prefix search with the image gate. For each product:
  - the normalized name is split on `+`;
  - each round asks the SELECT for the joined tokens followed by `%`;
  - the first returned row whose image equals the product's image is accepted;
  - if none is, the last token is popped and the search goes round again, until no token is left.

  An accepted row whose price differs gets the UPDATE. `updated`, `skipped` and `comparisons` are
  counted.

  `Resolve`, `Step` and `Reconcile` specify the loop on values. The methods `ScanRound`, `Round`,
  `Lookup`, `Process` and `Run` are the loop itself: they act on a `Store`, with `while`/`for` loops,
  the `matched` flag and the `break`. Each is proved to leave the table, the statement log and the
  counters exactly as the specification says.

The main results are:

- `Normalize` always yields a key with no capital, no accented letter, no combining mark, no white
  space, no `++` and no `+` at either end. It is idempotent, and the empty name gives the empty key.
- The search issues its SELECTs longest prefix first, dropping exactly one token per round. It
  issues at most one SELECT per token, and exactly one (`%`) for a name whose key is empty.
- An accepted row comes from the table and is a `jumbo` row. Its normalized name starts with the
  tokens of the round that accepted it, and its image equals the product's. It is the first such row
  the SELECT returned, and no round with more tokens returned a row with that image. When nothing is
  accepted, no round returned a row with the image.
- A product issues an UPDATE only when its accepted row's price differs. That UPDATE names the row's
  id with the product's prices. Rows with other ids are unchanged, and ids, names and images never
  change.
- Each product counts once, as updated or as skipped, so `updated + skipped` is the number of
  products. `updated` is exactly the number of products whose search on the original table accepts a
  row, and `comparisons >= updated`.
- Running the same listing a second time, on the table the first run left, issues no UPDATE and
  changes nothing. This holds when ids are unique and products that land on the same row carry the
  same price.

## Model

| member | source | states |
|---|---|---|
| Normalizer.Normalize | main.go:14-23 | the key has only folded characters (no capital, accented letter, combining mark or white space), no `++`, no `+` at either end; the empty name gives the empty key |
| Normalizer.NormalizeKeepsLetters | main.go:14-23 | the key holds, in order, exactly the characters other than white space and `+` that the first four steps leave of the name |
| Normalizer.NormalizeIdempotent | main.go:14-23 | normalizing a key again gives the same key |
| Normalizer.NormalizeFixesNormalized | main.go:14-23 | every string of the key's shape passes every step unchanged, so it is its own key |
| Normalizer.Lower | main.go:16 | the result is never a capital; a capital is changed and every other character is kept |
| Normalizer.LowerAll | main.go:16 | same length, character-wise lower-casing, no capital left; a string without capitals is unchanged |
| Normalizer.Decomposition | main.go:17 | an accented letter decomposes into a base letter a-z and a combining mark, exactly for the letters of the table |
| Normalizer.Decompose | main.go:17 | one character becomes two, a base letter a-z and a combining mark, exactly when it is decomposable, and otherwise stays itself |
| Normalizer.DecomposeAll | main.go:17 | no decomposable letter is left; every character is an input character, a base letter or a mark; a string without accented letters is unchanged |
| Normalizer.DecomposeAllAppend | main.go:17 | decomposition works character by character: it distributes over concatenation and maps one character to its `Decompose` |
| Normalizer.StripMarks | main.go:18 | exactly the non-mark characters of the input remain, and no mark; never longer; a string without marks is unchanged |
| Normalizer.StripMarksAppend | main.go:18 | stripping distributes over concatenation, drops a single mark and keeps a single other character |
| Normalizer.ReplaceEnye | main.go:19 | every `ñ` becomes `n` and nothing else changes; no `ñ` is left |
| Normalizer.SkipRun | main.go:20-21 | drops exactly the longest leading run of the given kind |
| Normalizer.SkipRunAppend | main.go:20-21 | skipping a run crosses from one string into the next only when the whole first string is run |
| Normalizer.ReplaceRuns | main.go:20-21 | empty iff the input is; a leading run becomes `+` and a leading other character is kept; characters kept are non-run input characters; with plus runs no `++` is left |
| Normalizer.ReplaceRunsOneRun | main.go:20-21 | a whole run, of any length, becomes exactly one `+` |
| Normalizer.ReplaceRunsAppend | main.go:20-21 | the step distributes over a concatenation that does not cut a run in two |
| Normalizer.ReplaceRunsFixes | main.go:20-21 | a string whose run characters are each a single `+` is unchanged |
| Normalizer.ReplaceRunsLetters | main.go:20-21 | the characters other than white space and `+` are kept in order, and the result is never longer |
| Normalizer.TrimPlus | main.go:22 | the input is the result with at most one `+` put back at each end where it had one; without `++` no `+` is left at either end and none doubled; a string without edge `+` is unchanged |
| Normalizer.TrimPlusLetters | main.go:22 | trimming keeps every character other than white space and `+`, in order |
| Catalog.Like | main.go:41-42 | with a trailing `%`, the value matches iff it starts with the rest of the pattern; without one, iff it equals the pattern |
| Catalog.Selects | main.go:41-42 | only `jumbo` rows pass; with the pattern `%` exactly the `jumbo` rows pass |
| Catalog.SelectRows | main.go:38-43 | the result holds exactly the table rows that are `jumbo` and LIKE the pattern, and is no longer than the table |
| Catalog.SelectRowsAppend | main.go:38-43 | the SELECT keeps stored order: selecting from two stretches of the table selects from each in turn |
| Catalog.SelectIgnoresPrices | main.go:38-43 | on tables that differ only in prices the SELECT returns the same rows up to prices |
| Catalog.SetPrice | main.go:45-51 | rows with the id get the new price and list price, all other rows are unchanged, the length is kept |
| Catalog.SetPriceKeepsKeys | main.go:45-51 | the UPDATE changes prices only |
| Catalog.SetPriceChangesOneRow | main.go:45-51 | with unique ids, the UPDATE changes exactly the one row with that id |
| Catalog.Store.SelectByName | main.go:38-43 | the method returns exactly the rows `SelectRows` gives for the pattern, leaves the table as it was and appends the SELECT to the log |
| Catalog.Store.UpdatePrice | main.go:45-51 | the method sets the table to `SetPrice` of the old table for the id and prices and appends the UPDATE to the log |
| Matching.Split | main.go:58 | at least one piece, and no piece contains `+` |
| Matching.Join | main.go:62 | the result starts with the first piece, followed by `+` when there are more pieces, and has at least one character per separator |
| Matching.JoinSplit | main.go:58 | joining the pieces of a split with `+` gives back the string |
| Matching.SplitJoin | main.go:58 | splitting a join of `+`-free pieces gives back the pieces |
| Matching.TokensNonEmpty | main.go:57-58 | without `++` or a trailing `+`, every token but a leading one is non-empty |
| Matching.TokensOfNormalized | main.go:57-58 | a non-empty key splits into non-empty tokens; the empty key into the one empty token |
| Matching.Pattern | main.go:62 | the pattern is the joined tokens followed by one `%` |
| Matching.JoinPrefix | main.go:62 | the pattern of fewer tokens is a prefix of the pattern of more |
| Matching.SelectsPattern | main.go:38-43 | a row passes the round's WHERE clause iff it is `jumbo` and its name starts with the joined tokens |
| Matching.FirstWithImage | main.go:66-70 | the index of the first row whose image equals the product's; none iff no row has it |
| Matching.FirstWithImageIgnoresPrices | main.go:66-70 | the image gate does not look at prices |
| Matching.DropLast | main.go:92 | one token fewer, the others kept in order |
| Matching.Resolve | main.go:61-93 | the accepted row, if any, is a table row and at least one row was examined; a row is accepted iff the accepting round had at least one token; the SELECTs issued are one per round run: all the tokens' rounds without a match, down to the accepting round with one |
| Matching.ResolveQueries | main.go:61-93 | round i asks for the pattern of the first n-i tokens: longest first, one token fewer per round |
| Matching.ResolveAccepts | main.go:61-93 | an accepted row is the first row with the image the SELECT returned at its round, and no round with more tokens had one |
| Matching.ResolveExhausts | main.go:61-93 | with nothing accepted, no round at any prefix length returned a row with the image |
| Matching.FirstAtShape | main.go:64-70 | an accepted row is a `jumbo` table row with the product's image, and its name starts with the round's tokens |
| Matching.ResolveIgnoresPrices | main.go:61-93 | on tables that differ only in prices the search takes the same rounds and accepts the same row up to prices |
| Matching.EmptyKeyOneRound | main.go:57-62 | a key of `""` gets one round with pattern `%`, which accepts iff some `jumbo` row has the image |
| Reconciler.Tokens | main.go:57-58 | the tokens join back to the key, hold no `+`, and are non-empty unless the key is empty, which gives the one token `""` |
| Reconciler.Search | main.go:57-93 | an accepted row is a `jumbo` table row with the product's image whose name starts with the product's first tokens; at most one SELECT per token |
| Reconciler.SearchSelectsOnly | main.go:61-93 | the search itself issues SELECTs only |
| Reconciler.Write | main.go:71-76 | with equal prices nothing changes; otherwise the UPDATE is logged and the rows with the id get the product's prices; rows with other ids and all keys are unchanged |
| Reconciler.Apply | main.go:66-98 | the product counts once: as updated exactly when a row was accepted, as skipped otherwise; `comparisons` grows by the rows examined; keys are kept; a miss writes nothing |
| Reconciler.Step | main.go:56-99 | the product counts once, as updated exactly when its search accepts a row; `comparisons` grows by at least as much as `updated`; keys are kept |
| Reconciler.StepEffect | main.go:71-76 | the UPDATE happens only for an accepted row whose price differs and names its id with the product's prices; rows with other ids and all keys are unchanged |
| Reconciler.Reconcile | main.go:56-99 | over a run, `updated + skipped` grows by the number of products, `comparisons` by at least as much as `updated`, and keys are kept |
| Reconciler.AcceptedRepriced | main.go:71-76 | after a product is processed, the rows with the accepted id carry the product's price |
| Reconciler.Matched | main.go:85 | the number of products whose search accepts a row is at most the number of products |
| Reconciler.ReconcileMatched | main.go:85-96 | `updated` counts exactly the products whose search on the table before the run accepts a row; `skipped` counts the rest |
| Reconciler.TargetIgnoresPrices | main.go:61-93 | the id a product's search accepts does not depend on prices |
| Reconciler.StepSettlesOne | main.go:64-76 | after one product is processed, another whose row carries its price keeps that, and a product landing on the same row with the same price finds its price there |
| Reconciler.StepSettles | main.go:64-76 | processing one more product keeps the table settled for the products seen so far |
| Reconciler.RunSettles | main.go:56-99 | with unique ids and consistent prices, after a run every product's accepted row carries that product's price |
| Reconciler.SettledRunReadsOnly | main.go:56-99 | on a settled table a run changes no row and issues only SELECTs |
| Reconciler.RerunWritesNothing | main.go:64-76 | running the same products again on the table the first run produced issues no UPDATE and leaves the table unchanged |
| Reconciler.ScanRound | main.go:66-89 | the inner `for` with `break`: matched iff a returned row has the image; otherwise nothing is written and `comparisons` grows by the number of rows; if matched, the write of the accepted row and `comparisons` grows by its position plus one |
| Reconciler.Round | main.go:62-92 | one SELECT plus image gate: either accepts the search's row with its write, or hands over to the search with one token fewer |
| Reconciler.LookupRound | main.go:61-93 | one pass of the `while` loop: either it ends the search with the state the whole search leads to, or it records its round and leaves the rest of the search to one token fewer |
| Reconciler.Lookup | main.go:59-98 | the `while` loop over shrinking prefixes leaves table, log and counters as the specification of the search result says |
| Reconciler.Process | main.go:57-98 | one product through the loop body: table, log and counters become those of `Step` |
| Reconciler.Run | main.go:56-99 | the loop over all products: table, log and counters become those of `Reconcile` from zero counters |

## Left out

- The product list is an input sequence of `{Name, Image, Price, ListPrice}`. The scraper (`scrapers/jumbo.go`: HTTP fetch, JSON parsing, filtering of malformed items) is not part of this model.
- Connection pool, SSL choice, the `DATABASE_URL` check and `process.exit`, client release and `pool.end` are configuration and resource handling. They are not modelled.
- Console logging and the final summary printout are not modelled. The counters they print are.
- `async`/`await` is not modelled. Every query is a synchronous call on the `Store`. A query never fails, so the error path of `run` (an exception leaving the loop) is not modelled.
- Normalizer.Lower covers only ASCII and Latin-1 capitals (U+0041-005A, U+00C0-00DE without U+00D7). Every other character passes unchanged. `toLowerCase` on the rest of Unicode, including its one-to-many mappings, is left out.
- Normalizer.DecomposeAll decomposes only the accented lower-case Latin-1 letters. Canonical decomposition of the rest of Unicode is left out.
- Normalizer.ReplaceEnye is kept as the source has it. Within the modelled table it never fires, because `ñ` has already been decomposed to `n` plus U+0303 and the mark stripped.
- Prices are integers (say, cents) compared exactly. `Number()` conversion of strings or floats, including `NaN`, is left out.
- Catalog.Like gives meaning only to a trailing `%`. A `%` or `_` inside a token (the normalizer keeps both) would be a wildcard in SQL. Here it matches itself literally. PostgreSQL's LIKE also takes `\` as its default escape character: a backslash in a key would make the next character literal, and a key ending in `\` would turn the trailing `%` into a literal `%`. The model does not treat `\` specially.
- Catalog.SelectRows returns rows in stored order. SQL leaves the order of a SELECT without ORDER BY unspecified, and the first-match-wins rule depends on it.
- Catalog.Store.SelectByName returns whole rows, where the SELECT returns only `id`, `name`, `image` and `price`. The loop reads no other column, and `name` is used only for log lines.
- Catalog.Row has no display `name` column and no `updated_at` column. The `NOW()` timestamp the UPDATE writes is left out, as a clock value.
- The UPDATE matches by `id` alone, with no `source` condition, as `main.go` writes it. It is modelled that way, so with duplicate ids it changes every row with that id. `main.go` has no image-first or exact-name lookup, writes no change records, keeps no price-change counter and puts no `source` condition on the UPDATE; the model has none of these either.
- Reconciler.RerunWritesNothing assumes unique ids, and that products whose searches accept the same row carry the same price. Without the second assumption the later product's price wins in the first run, and the second run writes again.
