/**
 * The token-dropping prefix search of the reconciler (main.go, lines 57-93):
 * the normalized name is split on `+`; the SELECT is asked for the rows
 * whose normalized name starts with all the tokens joined by `+`; the first
 * returned row whose image equals the product's image is accepted; if none
 * is, the last token is dropped and the search is repeated, until no token
 * is left.
 */
module Matching {

  import opened Wrappers
  import opened Normalizer
  import opened Catalog

  /* ---------------- tokens ---------------- */

  /** `s.split("+")`: the pieces between the `+` signs, one more piece than there are signs. */
  function Split(s: string): (r: seq<string>)
    ensures |r| >= 1
    ensures forall t :: t in r ==> '+' !in t
  {
    if s == [] then [""]
    else
      var rest := Split(s[1..]);
      if s[0] == '+' then [""] + rest
      else [[s[0]] + rest[0]] + rest[1..]
  }

  /** `parts.join("+")`: the pieces with a `+` between each two. */
  function Join(parts: seq<string>): (r: string)
    ensures parts != [] ==> IsPrefix(parts[0], r)
    ensures |parts| > 1 ==> IsPrefix(parts[0] + "+", r)
    ensures |r| >= |parts| - 1
  {
    if parts == [] then ""
    else if |parts| == 1 then parts[0]
    else parts[0] + "+" + Join(parts[1..])
  }

  /** `parts.join("+") + "%"`: the LIKE pattern of one round. */
  function Pattern(parts: seq<string>): (r: string)
    ensures |r| == |Join(parts)| + 1 && r[|r| - 1] == '%' && IsPrefix(Join(parts), r)
  {
    Join(parts) + "%"
  }

  lemma JoinCons(a: string, parts: seq<string>)
    requires parts != []
    ensures Join([a] + parts) == a + "+" + Join(parts)
  {
    assert ([a] + parts)[1..] == parts;
  }

  /** Splitting and joining again gives back the string. */
  lemma {:induction false} JoinSplit(s: string)
    ensures Join(Split(s)) == s
  {
    if s != [] {
      var rest := Split(s[1..]);
      JoinSplit(s[1..]);
      if s[0] == '+' {
        JoinCons("", rest);
        assert s == "+" + s[1..];
      } else {
        if |rest| == 1 {
          assert Split(s) == [[s[0]] + rest[0]];
        } else {
          var x, tail := [s[0]] + rest[0], Join(rest[1..]);
          assert Split(s) == [x] + rest[1..];
          assert rest == [rest[0]] + rest[1..];
          JoinCons(x, rest[1..]);
          JoinCons(rest[0], rest[1..]);
          ConcatAssoc([s[0]], rest[0], "+");
          ConcatAssoc([s[0]], rest[0] + "+", tail);
          assert s == [s[0]] + s[1..];
        }
      }
    }
  }

  /** A piece without `+` is split into itself. */
  lemma {:induction false} SplitPlain(t: string)
    requires '+' !in t
    ensures Split(t) == [t]
  {
    if t != [] {
      assert t[1..] <= t[1..];
      assert '+' !in t[1..] by {
        forall c | c in t[1..] ensures c != '+' { assert c in t; }
      }
      SplitPlain(t[1..]);
      assert [t[0]] + t[1..] == t;
    }
  }

  /** A piece without `+` followed by `+` and a rest is split into the piece and the rest's pieces. */
  lemma {:induction false} SplitPiece(t: string, rest: string)
    requires '+' !in t
    ensures Split(t + "+" + rest) == [t] + Split(rest)
  {
    if t == [] {
      assert t + "+" + rest == "+" + rest;
      assert ("+" + rest)[1..] == rest;
    } else {
      var s := t + "+" + rest;
      assert s[1..] == t[1..] + "+" + rest;
      assert '+' !in t[1..] by {
        forall c | c in t[1..] ensures c != '+' { assert c in t; }
      }
      SplitPiece(t[1..], rest);
      assert [t[0]] + t[1..] == t;
    }
  }

  /** Joining pieces without `+` and splitting again gives back the pieces. */
  lemma {:induction false} SplitJoin(parts: seq<string>)
    requires parts != []
    requires forall t :: t in parts ==> '+' !in t
    ensures Split(Join(parts)) == parts
  {
    if |parts| == 1 {
      SplitPlain(parts[0]);
    } else {
      SplitJoin(parts[1..]);
      SplitPiece(parts[0], Join(parts[1..]));
      assert [parts[0]] + parts[1..] == parts;
    }
  }

  /**
   * Without a doubled `+` and without a trailing `+`, every token but the first
   * is non-empty, and so is the first when the string does not start with `+`.
   */
  lemma {:induction false} TokensNonEmpty(s: string)
    requires NoDoublePlus(s)
    requires s == [] || s[|s| - 1] != '+'
    ensures forall i :: 1 <= i < |Split(s)| ==> Split(s)[i] != ""
    ensures s != [] && s[0] != '+' ==> Split(s)[0] != ""
  {
    if s != [] {
      var tail := s[1..];
      assert NoDoublePlus(tail) by {
        forall i | 0 < i < |tail| ensures !(tail[i - 1] == '+' && tail[i] == '+') {
          assert !(s[i] == '+' && s[i + 1] == '+');
        }
      }
      TokensNonEmpty(tail);
      if s[0] == '+' {
        assert |s| > 1;
        assert tail[0] != '+' by { assert !(s[1 - 1] == '+' && s[1] == '+'); }
      }
    }
  }

  /** The tokens of a non-empty normalized key are all non-empty; the empty key has the one empty token. */
  lemma TokensOfNormalized(s: string)
    requires IsNormalized(s)
    ensures s == [] ==> Split(s) == [""]
    ensures s != [] ==> forall t :: t in Split(s) ==> t != ""
  {
    TokensNonEmpty(s);
  }

  /** Joining the first k tokens gives a prefix of joining them all: a shorter search pattern. */
  lemma {:induction false} JoinPrefix(parts: seq<string>, k: nat)
    requires 1 <= k <= |parts|
    ensures IsPrefix(Join(parts[..k]), Join(parts))
  {
    if k < |parts| {
      if k == 1 {
        assert parts[..1] == [parts[0]];
      } else {
        JoinPrefix(parts[1..], k - 1);
        assert parts[..k][1..] == parts[1..][..k - 1];
      }
    } else {
      assert parts[..k] == parts;
    }
  }

  /** A row is selected by the pattern of some tokens exactly when it is a `jumbo` row whose name starts with the joined tokens. */
  lemma SelectsPattern(row: Row, parts: seq<string>)
    ensures Selects(row, Pattern(parts)) <==> row.source == Jumbo && IsPrefix(Join(parts), row.normalizedName)
  {
    var p := Pattern(parts);
    assert p[..|p| - 1] == Join(parts);
  }

  /* ---------------- one round: the image gate ---------------- */

  /** The first returned row whose image equals `image` (`row.image === p.Image`), as an index into the result. */
  function FirstWithImage(cands: seq<Row>, image: string): (r: Option<nat>)
    ensures r.Some? ==> r.value < |cands| && cands[r.value].image == image
    ensures r.Some? ==> forall j :: 0 <= j < r.value ==> cands[j].image != image
    ensures r.None? ==> forall j :: 0 <= j < |cands| ==> cands[j].image != image
  {
    if cands == [] then None
    else if cands[0].image == image then Some(0)
    else match FirstWithImage(cands[1..], image)
      case Some(j) => Some(j + 1)
      case None => None
  }

  /** The image gate does not look at prices. */
  lemma {:induction false} FirstWithImageIgnoresPrices(a: seq<Row>, b: seq<Row>, image: string)
    requires SameKeys(a, b)
    ensures FirstWithImage(a, image) == FirstWithImage(b, image)
  {
    if a != [] {
      assert Key(a[0]) == Key(b[0]);
      assert SameKeys(a[1..], b[1..]);
      FirstWithImageIgnoresPrices(a[1..], b[1..], image);
    }
  }

  /* ---------------- the rounds ---------------- */

  /**
   * The outcome of the search for one product: the accepted row if any, the
   * number of tokens of the round that accepted it (0 if none did), the rows
   * examined (what `comparisons` grows by) and the SELECTs issued.
   */
  datatype Resolution = Resolution(accepted: Option<Row>, tokens: nat, examined: nat, queries: seq<Statement>)

  /** `parts.pop()` */
  function DropLast(parts: seq<string>): (r: seq<string>)
    requires parts != []
    ensures |r| == |parts| - 1 && forall i :: 0 <= i < |r| ==> r[i] == parts[i]
  {
    parts[..|parts| - 1]
  }

  /** The search for one product on a table, starting with the tokens `parts`. */
  function Resolve(rows: seq<Row>, parts: seq<string>, image: string): (r: Resolution)
    decreases |parts|
    ensures r.tokens <= |parts|
    ensures r.accepted.Some? <==> r.tokens > 0
    ensures r.accepted.Some? ==> r.accepted.value in rows && r.examined >= 1
    ensures |r.queries| == if r.accepted.Some? then |parts| - r.tokens + 1 else |parts|
  {
    if parts == [] then Resolution(None, 0, 0, [])
    else
      var pattern := Pattern(parts);
      var cands := SelectRows(rows, pattern);
      match FirstWithImage(cands, image)
      case Some(j) => Resolution(Some(cands[j]), |parts|, j + 1, [Select(pattern)])
      case None =>
        var rest := Resolve(rows, DropLast(parts), image);
        rest.(examined := |cands| + rest.examined, queries := [Select(pattern)] + rest.queries)
  }

  /** No row the pattern of the first k tokens selects has the image. */
  predicate NoImageAt(rows: seq<Row>, parts: seq<string>, k: nat, image: string)
    requires k <= |parts|
  {
    FirstWithImage(SelectRows(rows, Pattern(parts[..k])), image).None?
  }

  /** `row` is the first row with the image among those the pattern of the first k tokens selects. */
  predicate FirstAt(rows: seq<Row>, parts: seq<string>, k: nat, image: string, row: Row)
    requires k <= |parts|
  {
    var cands := SelectRows(rows, Pattern(parts[..k]));
    FirstWithImage(cands, image).Some? && row == cands[FirstWithImage(cands, image).value]
  }

  /** Round i asks for the first |parts| - i tokens: longest first, one token fewer each round. */
  predicate LongestFirst(queries: seq<Statement>, parts: seq<string>) {
    forall i :: 0 <= i < |queries| && i <= |parts| ==> queries[i] == Select(Pattern(parts[..|parts| - i]))
  }

  /** The SELECTs of a search are issued longest first. */
  lemma {:induction false} ResolveQueries(rows: seq<Row>, parts: seq<string>, image: string)
    ensures LongestFirst(Resolve(rows, parts, image).queries, parts)
  {
    if parts != [] {
      var r := Resolve(rows, parts, image);
      if FirstWithImage(SelectRows(rows, Pattern(parts)), image).None? {
        var rest := Resolve(rows, DropLast(parts), image);
        ResolveQueries(rows, DropLast(parts), image);
        assert r.queries == [Select(Pattern(parts))] + rest.queries;
        LongestFirstCons(parts, rest.queries);
      } else {
        assert r.queries == [Select(Pattern(parts))] + [];
        LongestFirstCons(parts, []);
      }
    }
  }

  /** Asking for all the tokens, then longest first without the last one, is longest first. */
  lemma LongestFirstCons(parts: seq<string>, rest: seq<Statement>)
    requires parts != [] && LongestFirst(rest, DropLast(parts))
    ensures LongestFirst([Select(Pattern(parts))] + rest, parts)
  {
    var queries := [Select(Pattern(parts))] + rest;
    forall i | 0 <= i < |queries| && i <= |parts| ensures queries[i] == Select(Pattern(parts[..|parts| - i])) {
      if i == 0 {
        assert parts[..|parts|] == parts;
      } else {
        assert queries[i] == rest[i - 1];
        assert DropLast(parts)[..|DropLast(parts)| - (i - 1)] == parts[..|parts| - i];
      }
    }
  }

  /**
   * An accepted row is the first row with the image that the SELECT returns in
   * the round of `tokens` tokens, and no round with more tokens had one.
   */
  lemma {:induction false} ResolveAccepts(rows: seq<Row>, parts: seq<string>, image: string)
    ensures var r := Resolve(rows, parts, image);
            r.accepted.Some? ==>
              && 1 <= r.tokens <= |parts|
              && FirstAt(rows, parts, r.tokens, image, r.accepted.value)
              && forall k :: r.tokens < k <= |parts| ==> NoImageAt(rows, parts, k, image)
  {
    if parts != [] {
      var r := Resolve(rows, parts, image);
      var cands := SelectRows(rows, Pattern(parts));
      assert parts[..|parts|] == parts;
      match FirstWithImage(cands, image)
      case Some(j) =>
        assert r == Resolution(Some(cands[j]), |parts|, j + 1, [Select(Pattern(parts))]);
        assert FirstAt(rows, parts, |parts|, image, cands[j]);
      case None =>
        var shorter := DropLast(parts);
        ResolveAccepts(rows, shorter, image);
        var rest := Resolve(rows, shorter, image);
        assert r.accepted == rest.accepted && r.tokens == rest.tokens;
        if rest.accepted.Some? {
          AcceptsLonger(rows, parts, rest.tokens, image, rest.accepted.value);
        }
    }
  }

  /** Dropping the last token keeps what a round of the shorter search found, and the full round found nothing. */
  lemma AcceptsLonger(rows: seq<Row>, parts: seq<string>, t: nat, image: string, row: Row)
    requires parts != [] && 1 <= t <= |parts| - 1
    requires NoImageAt(rows, parts, |parts|, image)
    requires FirstAt(rows, DropLast(parts), t, image, row)
    requires forall k :: t < k <= |parts| - 1 ==> NoImageAt(rows, DropLast(parts), k, image)
    ensures FirstAt(rows, parts, t, image, row)
    ensures forall k :: t < k <= |parts| ==> NoImageAt(rows, parts, k, image)
  {
    var shorter := DropLast(parts);
    assert shorter[..t] == parts[..t];
    forall k | t < k <= |parts| ensures NoImageAt(rows, parts, k, image) {
      if k < |parts| {
        assert shorter[..k] == parts[..k];
        assert NoImageAt(rows, shorter, k, image);
      }
    }
  }

  /** With no accepted row, no round had a row with the image. */
  lemma {:induction false} ResolveExhausts(rows: seq<Row>, parts: seq<string>, image: string)
    ensures Resolve(rows, parts, image).accepted.None? ==>
              forall k :: 1 <= k <= |parts| ==> NoImageAt(rows, parts, k, image)
  {
    if parts != [] && Resolve(rows, parts, image).accepted.None? {
      assert parts[..|parts|] == parts;
      assert NoImageAt(rows, parts, |parts|, image);
      ResolveExhausts(rows, DropLast(parts), image);
      NoImageLonger(rows, parts, image);
    }
  }

  /** No image in the full round and none in any round without the last token: none in any round. */
  lemma NoImageLonger(rows: seq<Row>, parts: seq<string>, image: string)
    requires parts != [] && NoImageAt(rows, parts, |parts|, image)
    requires forall k :: 1 <= k <= |parts| - 1 ==> NoImageAt(rows, DropLast(parts), k, image)
    ensures forall k :: 1 <= k <= |parts| ==> NoImageAt(rows, parts, k, image)
  {
    forall k | 1 <= k < |parts| ensures NoImageAt(rows, parts, k, image) {
      assert DropLast(parts)[..k] == parts[..k];
      assert NoImageAt(rows, DropLast(parts), k, image);
    }
  }


  /**
   * What the first row with the image in a round is: a `jumbo` row whose
   * normalized name starts with the round's tokens and whose image is exactly
   * the product's image.
   */
  lemma FirstAtShape(rows: seq<Row>, parts: seq<string>, k: nat, image: string, row: Row)
    requires k <= |parts| && FirstAt(rows, parts, k, image, row)
    ensures row in rows && row.source == Jumbo && row.image == image
    ensures IsPrefix(Join(parts[..k]), row.normalizedName)
    ensures 1 <= k ==> IsPrefix(Join(parts[..k]), Join(parts))
  {
    SelectsPattern(row, parts[..k]);
    if 1 <= k {
      JoinPrefix(parts, k);
    }
  }

  /** The search does not look at prices: on tables that differ only in prices it takes the same rounds and accepts the same row up to prices. */
  lemma {:induction false} ResolveIgnoresPrices(a: seq<Row>, b: seq<Row>, parts: seq<string>, image: string)
    requires SameKeys(a, b)
    ensures var ra, rb := Resolve(a, parts, image), Resolve(b, parts, image);
            && ra.tokens == rb.tokens && ra.examined == rb.examined && ra.queries == rb.queries
            && ra.accepted.Some? == rb.accepted.Some?
            && (ra.accepted.Some? ==> Key(ra.accepted.value) == Key(rb.accepted.value))
  {
    if parts != [] {
      var pattern := Pattern(parts);
      SelectIgnoresPrices(a, b, pattern);
      FirstWithImageIgnoresPrices(SelectRows(a, pattern), SelectRows(b, pattern), image);
      ResolveIgnoresPrices(a, b, DropLast(parts), image);
    }
  }

  /** A name that normalizes to the empty key gets one round, with the pattern `%`, which every `jumbo` row passes. */
  lemma EmptyKeyOneRound(rows: seq<Row>, image: string)
    ensures var r := Resolve(rows, Split(Normalize("")), image);
            && r.queries == [Select("%")]
            && (r.accepted.Some? <==> exists i :: 0 <= i < |rows| && rows[i].source == Jumbo && rows[i].image == image)
  {
    assert Split(Normalize("")) == [""];
    EmptyTokenRound(rows, image);
  }

  /** The search for the single empty token. */
  lemma EmptyTokenRound(rows: seq<Row>, image: string)
    ensures var r := Resolve(rows, [""], image);
            && r.queries == [Select("%")]
            && (r.accepted.Some? <==> exists i :: 0 <= i < |rows| && rows[i].source == Jumbo && rows[i].image == image)
  {
    var parts: seq<string> := [""];
    assert Pattern(parts) == "%";
    assert DropLast(parts) == [];
    var cands := SelectRows(rows, "%");
    var r := Resolve(rows, parts, image);
    assert r.queries == [Select("%")];
    if i :| 0 <= i < |rows| && rows[i].source == Jumbo && rows[i].image == image {
      assert Selects(rows[i], "%");
      assert rows[i] in cands;
      var j :| 0 <= j < |cands| && cands[j] == rows[i];
      assert FirstWithImage(cands, image).Some?;
    }
    if r.accepted.Some? {
      var x := r.accepted.value;
      assert x in cands && x.image == image;
      var i :| 0 <= i < |rows| && rows[i] == x;
    }
  }

}
