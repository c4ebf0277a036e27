/**
 * The name normalizer of the price reconciler (`normalize` in main.go).
 *
 * It folds a free-text product name into a key of `+`-joined tokens:
 * lower-case it, decompose accented letters into a base letter and a
 * combining mark (Unicode NFD), drop the combining marks, map `ñ` to `n`,
 * replace every run of white space by `+`, squeeze every run of `+` into one
 * and drop a `+` at either end.  Each step is a function of its own, and the
 * normalizer is their composition.
 *
 * Lower-casing and decomposition are modelled over an explicit table: the
 * ASCII capitals and the Latin-1 capitals, and the accented lower-case
 * Latin-1 letters; every other character is left as it is.
 */
module Normalizer {

  import opened Wrappers

  /* ---------------- character classes ---------------- */

  /** The capitals of the modelled alphabet: A-Z and the Latin-1 capitals (U+00C0-U+00DE without the sign U+00D7). */
  predicate IsUpper(c: char) {
    ('A' <= c <= 'Z') || ('\U{C0}' <= c <= '\U{DE}' && c != '\U{D7}')
  }

  /** The combining diacritical marks, U+0300-U+036F: the character class the third step removes. */
  predicate IsMark(c: char) {
    '\U{300}' <= c <= '\U{36F}'
  }

  /** What `\s` matches in an ECMAScript regular expression: the white-space and line-terminator characters. */
  predicate IsSpace(c: char) {
    c == '\t' || c == '\n' || c == '\U{B}' || c == '\U{C}' || c == '\r' || c == ' '
    || c == '\U{A0}' || c == '\U{1680}' || ('\U{2000}' <= c <= '\U{200A}')
    || c == '\U{2028}' || c == '\U{2029}' || c == '\U{202F}' || c == '\U{205F}'
    || c == '\U{3000}' || c == '\U{FEFF}'
  }

  /** The two kinds of run the normalizer squeezes into one `+`: white space (`/\s+/`) and plus signs (`/\++/`). */
  datatype RunKind = WhiteSpace | PlusSigns

  predicate InRun(kind: RunKind, c: char) {
    match kind
    case WhiteSpace => IsSpace(c)
    case PlusSigns => c == '+'
  }

  /** The small n with tilde, which line 19 of the source maps to `n`. */
  const Enye: char := '\U{F1}'

  /** Lower-casing of one character (`toLowerCase`): a capital moves to its small letter, 32 code points on. */
  function Lower(c: char): (r: char)
    ensures !IsUpper(r)
    ensures !IsUpper(c) ==> r == c
    ensures IsUpper(c) ==> r != c
  {
    if IsUpper(c) then (c as int + 32) as char else c
  }

  /** The accented lower-case Latin-1 letters that NFD decomposes (the table below). */
  predicate IsDecomposable(c: char) {
    ('\U{E0}' <= c <= '\U{E5}') || c == '\U{E7}' || ('\U{E8}' <= c <= '\U{EF}') || c == '\U{F1}'
    || ('\U{F2}' <= c <= '\U{F6}') || ('\U{F9}' <= c <= '\U{FD}') || c == '\U{FF}'
  }

  /**
   * Canonical decomposition (NFD) of the accented lower-case Latin-1 letters:
   * the base letter and the combining mark; None for a character NFD leaves alone.
   */
  function Decomposition(c: char): (r: Option<(char, char)>)
    ensures r.Some? ==> 'a' <= r.value.0 <= 'z' && IsMark(r.value.1)
    ensures r.Some? <==> IsDecomposable(c)
  {
    match c
    case '\U{E0}' => Some(('a', '\U{300}'))
    case '\U{E1}' => Some(('a', '\U{301}'))
    case '\U{E2}' => Some(('a', '\U{302}'))
    case '\U{E3}' => Some(('a', '\U{303}'))
    case '\U{E4}' => Some(('a', '\U{308}'))
    case '\U{E5}' => Some(('a', '\U{30A}'))
    case '\U{E7}' => Some(('c', '\U{327}'))
    case '\U{E8}' => Some(('e', '\U{300}'))
    case '\U{E9}' => Some(('e', '\U{301}'))
    case '\U{EA}' => Some(('e', '\U{302}'))
    case '\U{EB}' => Some(('e', '\U{308}'))
    case '\U{EC}' => Some(('i', '\U{300}'))
    case '\U{ED}' => Some(('i', '\U{301}'))
    case '\U{EE}' => Some(('i', '\U{302}'))
    case '\U{EF}' => Some(('i', '\U{308}'))
    case '\U{F1}' => Some(('n', '\U{303}'))
    case '\U{F2}' => Some(('o', '\U{300}'))
    case '\U{F3}' => Some(('o', '\U{301}'))
    case '\U{F4}' => Some(('o', '\U{302}'))
    case '\U{F5}' => Some(('o', '\U{303}'))
    case '\U{F6}' => Some(('o', '\U{308}'))
    case '\U{F9}' => Some(('u', '\U{300}'))
    case '\U{FA}' => Some(('u', '\U{301}'))
    case '\U{FB}' => Some(('u', '\U{302}'))
    case '\U{FC}' => Some(('u', '\U{308}'))
    case '\U{FD}' => Some(('y', '\U{301}'))
    case '\U{FF}' => Some(('y', '\U{308}'))
    case _ => None
  }

  /** A character that no step of the normalizer changes or removes. */
  predicate IsFolded(c: char) {
    !IsUpper(c) && !IsDecomposable(c) && !IsMark(c) && !IsSpace(c)
  }

  /* ---------------- properties of the key ---------------- */

  predicate AllFolded(s: string) {
    forall c :: c in s ==> IsFolded(c)
  }

  /** No two adjacent `+`. */
  predicate NoDoublePlus(s: string) {
    forall i :: 0 < i < |s| ==> !(s[i - 1] == '+' && s[i] == '+')
  }

  /** The first or the last character is a `+`. */
  predicate EdgePlus(s: string) {
    |s| > 0 && (s[0] == '+' || s[|s| - 1] == '+')
  }

  /** The shape of every key the normalizer produces. */
  predicate IsNormalized(s: string) {
    AllFolded(s) && NoDoublePlus(s) && !EdgePlus(s)
  }

  /* ---------------- the steps ---------------- */

  /** `.toLowerCase()` */
  function LowerAll(s: string): (r: string)
    ensures |r| == |s|
    ensures forall i :: 0 <= i < |s| ==> r[i] == Lower(s[i])
    ensures forall c :: c in r ==> !IsUpper(c)
    ensures (forall c :: c in s ==> !IsUpper(c)) ==> r == s
  {
    if s == [] then [] else [Lower(s[0])] + LowerAll(s[1..])
  }

  /** The NFD form of one character: its base letter and mark, or the character itself. */
  function Decompose(c: char): (r: string)
    ensures 1 <= |r| <= 2
    ensures |r| == 2 <==> IsDecomposable(c)
    ensures |r| == 2 ==> 'a' <= r[0] <= 'z' && IsMark(r[1])
    ensures |r| == 1 ==> r == [c]
  {
    match Decomposition(c)
    case Some(d) => [d.0, d.1]
    case None => [c]
  }

  /** `.normalize("NFD")` over the modelled table. */
  function DecomposeAll(s: string): (r: string)
    ensures forall c :: c in r ==> !IsDecomposable(c)
    ensures forall c :: c in r ==> c in s || ('a' <= c <= 'z') || IsMark(c)
    ensures (forall c :: c in s ==> !IsDecomposable(c)) ==> r == s
  {
    if s == [] then [] else Decompose(s[0]) + DecomposeAll(s[1..])
  }

  /** The removal of the combining marks, `.replace(/[\u0300-\u036f]/g, "")`. */
  function StripMarks(s: string): (r: string)
    ensures |r| <= |s|
    ensures forall c :: c in r ==> c in s && !IsMark(c)
    ensures forall c :: c in s && !IsMark(c) ==> c in r
    ensures (forall c :: c in s ==> !IsMark(c)) ==> r == s
  {
    if s == [] then []
    else if IsMark(s[0]) then StripMarks(s[1..])
    else [s[0]] + StripMarks(s[1..])
  }

  /** `.replace(/ñ/g, "n")` */
  function ReplaceEnye(s: string): (r: string)
    ensures |r| == |s|
    ensures forall i :: 0 <= i < |s| ==> r[i] == (if s[i] == Enye then 'n' else s[i])
    ensures Enye !in r
    ensures Enye !in s ==> r == s
  {
    if s == [] then [] else [if s[0] == Enye then 'n' else s[0]] + ReplaceEnye(s[1..])
  }

  /** The longest prefix of `s` whose characters all belong to the run kind `kind` is dropped. */
  function SkipRun(s: string, kind: RunKind): (r: string)
    ensures |r| <= |s| && r == s[|s| - |r|..]
    ensures r == [] || !InRun(kind, r[0])
    ensures forall i :: 0 <= i < |s| - |r| ==> InRun(kind, s[i])
  {
    if s != [] && InRun(kind, s[0]) then SkipRun(s[1..], kind) else s
  }

  /**
   * Every maximal run of characters of the kind `kind` becomes one `+`:
   * `.replace(/\s+/g, "+")` with `WhiteSpace`, `.replace(/\++/g, "+")` with `PlusSigns`.
   */
  function ReplaceRuns(s: string, kind: RunKind): (r: string)
    decreases |s|
    ensures s == [] <==> r == []
    ensures s != [] && InRun(kind, s[0]) ==> r[0] == '+'
    ensures s != [] && !InRun(kind, s[0]) ==> r[0] == s[0]
    ensures forall c :: c in r ==> c == '+' || (c in s && !InRun(kind, c))
    ensures InRun(kind, '+') ==> NoDoublePlus(r)
  {
    if s == [] then []
    else if InRun(kind, s[0]) then "+" + ReplaceRuns(SkipRun(s[1..], kind), kind)
    else [s[0]] + ReplaceRuns(s[1..], kind)
  }

  /** `.replace(/^\+|\+$/g, "")`: one `+` at the start and one at the end are dropped. */
  function TrimPlus(s: string): (r: string)
    ensures forall c :: c in r ==> c in s
    ensures NoDoublePlus(s) ==> NoDoublePlus(r) && !EdgePlus(r)
    ensures !EdgePlus(s) ==> r == s
    ensures |s| > 0 && s[0] == '+' && (|s| == 1 || s[|s| - 1] != '+') ==> s == "+" + r
    ensures |s| > 1 && s[0] == '+' && s[|s| - 1] == '+' ==> s == "+" + r + "+"
    ensures |s| > 0 && s[0] != '+' && s[|s| - 1] == '+' ==> s == r + "+"
  {
    var t := if |s| > 0 && s[0] == '+' then s[1..] else s;
    assert forall i :: 0 <= i < |t| ==> t[i] == s[i + |s| - |t|];
    if |t| > 0 && t[|t| - 1] == '+' then t[..|t| - 1] else t
  }

  /* ---------------- the normalizer ---------------- */

  /** The first four steps leave only small, undecomposed letters and no combining mark. */
  lemma UnaccentedFolded(s: string)
    ensures forall c :: c in ReplaceEnye(StripMarks(DecomposeAll(LowerAll(s)))) ==>
              !IsUpper(c) && !IsDecomposable(c) && !IsMark(c)
  {
    var stripped := StripMarks(DecomposeAll(LowerAll(s)));
    forall c | c in ReplaceEnye(stripped) ensures !IsUpper(c) && !IsDecomposable(c) && !IsMark(c) {
      if c != 'n' {
        assert c in stripped;
      }
    }
  }

  /** Replacing white space by `+` turns a string of such characters into a folded one. */
  lemma SpacedFolded(u: string)
    requires forall c :: c in u ==> !IsUpper(c) && !IsDecomposable(c) && !IsMark(c)
    ensures AllFolded(ReplaceRuns(u, WhiteSpace))
  {
  }

  /** `normalize(str)`: the steps in the order of the source. */
  function Normalize(s: string): (r: string)
    ensures IsNormalized(r)
    ensures s == [] ==> r == []
  {
    var unaccented := ReplaceEnye(StripMarks(DecomposeAll(LowerAll(s))));
    UnaccentedFolded(s);
    SpacedFolded(unaccented);
    var squeezed := ReplaceRuns(ReplaceRuns(unaccented, WhiteSpace), PlusSigns);
    SqueezedFolded(ReplaceRuns(unaccented, WhiteSpace));
    TrimmedNormalized(squeezed);
    TrimPlus(squeezed)
  }

  /** Squeezing the `+` runs of a folded string keeps it folded and leaves no `++`. */
  lemma SqueezedFolded(t: string)
    requires AllFolded(t)
    ensures AllFolded(ReplaceRuns(t, PlusSigns)) && NoDoublePlus(ReplaceRuns(t, PlusSigns))
  {
    forall c | c in ReplaceRuns(t, PlusSigns) ensures IsFolded(c) {
      assert c == '+' || c in t;
    }
  }

  /** Trimming a folded string without `++` gives a key. */
  lemma TrimmedNormalized(t: string)
    requires AllFolded(t) && NoDoublePlus(t)
    ensures IsNormalized(TrimPlus(t))
  {
    forall c | c in TrimPlus(t) ensures IsFolded(c) {
      assert c in t;
    }
  }

  /** A folded string without white space passes the white-space step unchanged. */
  lemma SpacesFixFolded(t: string)
    requires AllFolded(t)
    ensures ReplaceRuns(t, WhiteSpace) == t
  {
    forall i | 0 <= i < |t| ensures !IsSpace(t[i]) {
      assert t[i] in t;
    }
    ReplaceRunsFixes(t, WhiteSpace);
  }

  /** A string without a doubled `+` passes the squeezing step unchanged. */
  lemma PlusesFixSingle(t: string)
    requires NoDoublePlus(t)
    ensures ReplaceRuns(t, PlusSigns) == t
  {
    forall i | 0 <= i < |t| && InRun(PlusSigns, t[i])
      ensures t[i] == '+' && (i + 1 < |t| ==> !InRun(PlusSigns, t[i + 1]))
    {
      if i + 1 < |t| {
        assert !(t[i + 1 - 1] == '+' && t[i + 1] == '+');
      }
    }
    ReplaceRunsFixes(t, PlusSigns);
  }

  /** A string in which every character of the run is a `+` standing alone is left as it is. */
  lemma {:induction false} ReplaceRunsFixes(s: string, kind: RunKind)
    requires forall i :: 0 <= i < |s| && InRun(kind, s[i]) ==> s[i] == '+' && (i + 1 < |s| ==> !InRun(kind, s[i + 1]))
    ensures ReplaceRuns(s, kind) == s
    decreases |s|
  {
    if s != [] {
      var rest := s[1..];
      forall i | 0 <= i < |rest| && InRun(kind, rest[i])
        ensures rest[i] == '+' && (i + 1 < |rest| ==> !InRun(kind, rest[i + 1]))
      {
        assert rest[i] == s[i + 1];
        if i + 1 < |rest| {
          assert rest[i + 1] == s[i + 2];
        }
      }
      ReplaceRunsFixes(rest, kind);
      assert s == [s[0]] + rest;
      if InRun(kind, s[0]) {
        assert s[0] == '+';
        assert rest == [] || !InRun(kind, rest[0]) by {
          if rest != [] {
            assert rest[0] == s[1];
          }
        }
        assert SkipRun(rest, kind) == rest;
        assert ReplaceRuns(s, kind) == "+" + ReplaceRuns(rest, kind);
      } else {
        assert ReplaceRuns(s, kind) == [s[0]] + ReplaceRuns(rest, kind);
      }
    }
  }

  /** A key already in normal form passes through every step unchanged. */
  lemma NormalizeFixesNormalized(t: string)
    requires IsNormalized(t)
    ensures Normalize(t) == t
  {
    assert LowerAll(t) == t;
    assert DecomposeAll(t) == t;
    assert StripMarks(t) == t;
    assert Enye !in t by {
      if Enye in t {
        assert IsDecomposable(Enye);
      }
    }
    assert ReplaceEnye(t) == t;
    SpacesFixFolded(t);
    PlusesFixSingle(t);
  }

  /** Normalizing twice is normalizing once. */
  lemma NormalizeIdempotent(s: string)
    ensures Normalize(Normalize(s)) == Normalize(s)
  {
    NormalizeFixesNormalized(Normalize(s));
  }

  /* ---------------- what the key keeps ---------------- */

  /** The characters of a string other than white space and `+`, in order: the letters of its words. */
  function Letters(s: string): string {
    if s == [] then []
    else (if IsSpace(s[0]) || s[0] == '+' then [] else [s[0]]) + Letters(s[1..])
  }

  lemma {:induction false} LettersAppend(a: string, b: string)
    ensures Letters(a + b) == Letters(a) + Letters(b)
  {
    if a == [] {
      assert a + b == b;
    } else {
      assert (a + b)[1..] == a[1..] + b;
      LettersAppend(a[1..], b);
    }
  }

  /** NFD distributes over concatenation: each character is replaced by its own decomposition, in place. */
  lemma {:induction false} DecomposeAllAppend(a: string, b: string)
    ensures DecomposeAll(a + b) == DecomposeAll(a) + DecomposeAll(b)
    ensures |a| == 1 ==> DecomposeAll(a) == Decompose(a[0])
  {
    if a == [] {
      assert a + b == b;
    } else {
      assert (a + b)[0] == a[0];
      assert (a + b)[1..] == a[1..] + b;
      DecomposeAllAppend(a[1..], b);
      ConcatAssoc(Decompose(a[0]), DecomposeAll(a[1..]), DecomposeAll(b));
      if |a| == 1 {
        assert a[1..] == [];
      }
    }
  }

  /** Removing the marks distributes over concatenation: each mark is dropped and every other character kept, in place. */
  lemma {:induction false} StripMarksAppend(a: string, b: string)
    ensures StripMarks(a + b) == StripMarks(a) + StripMarks(b)
    ensures |a| == 1 ==> StripMarks(a) == if IsMark(a[0]) then [] else a
  {
    if a == [] {
      assert a + b == b;
    } else {
      assert (a + b)[0] == a[0];
      assert (a + b)[1..] == a[1..] + b;
      StripMarksAppend(a[1..], b);
      if !IsMark(a[0]) {
        ConcatAssoc([a[0]], StripMarks(a[1..]), StripMarks(b));
      }
      if |a| == 1 {
        assert a[1..] == [];
      }
    }
  }

  /** Skipping a run across a concatenation: past `a` into `b` only when all of `a` is in the run. */
  lemma {:induction false} SkipRunAppend(a: string, b: string, kind: RunKind)
    ensures SkipRun(a + b, kind) == if SkipRun(a, kind) == [] then SkipRun(b, kind) else SkipRun(a, kind) + b
  {
    if a == [] {
      assert a + b == b;
    } else {
      assert (a + b)[0] == a[0];
      if InRun(kind, a[0]) {
        assert (a + b)[1..] == a[1..] + b;
        assert SkipRun(a + b, kind) == SkipRun(a[1..] + b, kind);
        assert SkipRun(a, kind) == SkipRun(a[1..], kind);
        SkipRunAppend(a[1..], b, kind);
      } else {
        assert SkipRun(a + b, kind) == a + b;
        assert SkipRun(a, kind) == a;
      }
    }
  }

  /** A string wholly in the run is skipped entirely. */
  lemma {:induction false} SkipRunAll(s: string, kind: RunKind)
    requires forall i :: 0 <= i < |s| ==> InRun(kind, s[i])
    ensures SkipRun(s, kind) == []
  {
    if s != [] {
      assert InRun(kind, s[0]);
      assert forall i :: 0 <= i < |s[1..]| ==> InRun(kind, s[1..][i]) by {
        forall i | 0 <= i < |s[1..]| ensures InRun(kind, s[1..][i]) {
          assert s[1..][i] == s[i + 1];
        }
      }
      SkipRunAll(s[1..], kind);
    }
  }

  /** A whole run, however long, becomes a single `+`. */
  lemma {:induction false} ReplaceRunsOneRun(s: string, kind: RunKind)
    requires s != [] && forall i :: 0 <= i < |s| ==> InRun(kind, s[i])
    ensures ReplaceRuns(s, kind) == "+"
  {
    assert forall i :: 0 <= i < |s[1..]| ==> InRun(kind, s[1..][i]) by {
      forall i | 0 <= i < |s[1..]| ensures InRun(kind, s[1..][i]) {
        assert s[1..][i] == s[i + 1];
      }
    }
    SkipRunAll(s[1..], kind);
  }

  lemma ConcatAssoc(x: string, y: string, z: string)
    ensures x + (y + z) == (x + y) + z
  {
  }

  /** When the run takes all of `s`, its last character is in the run. */
  lemma RunToEnd(s: string, kind: RunKind)
    requires s != [] && SkipRun(s, kind) == []
    ensures InRun(kind, s[|s| - 1])
  {
    var i := |s| - 1;
    assert 0 <= i < |s| - |SkipRun(s, kind)|;
  }

  /**
   * Replacing runs distributes over a concatenation that does not cut a run
   * in two: together with `ReplaceRunsOneRun` and the identity on single
   * characters outside the run, this determines the step completely.
   */
  lemma {:induction false} ReplaceRunsAppend(a: string, b: string, kind: RunKind)
    requires a == [] || b == [] || !InRun(kind, a[|a| - 1]) || !InRun(kind, b[0])
    ensures ReplaceRuns(a + b, kind) == ReplaceRuns(a, kind) + ReplaceRuns(b, kind)
    decreases |a|, 2
  {
    if a == [] {
      assert a + b == b;
    } else if b == [] {
      assert a + b == a;
    } else if InRun(kind, a[0]) {
      ReplaceRunsAppendRun(a, b, kind);
    } else {
      var ab := a + b;
      assert ab[1..] == a[1..] + b;
      assert ab[0] == a[0];
      ReplaceRunsAppend(a[1..], b, kind);
      calc {
        ReplaceRuns(ab, kind);
        [a[0]] + ReplaceRuns(a[1..] + b, kind);
        [a[0]] + (ReplaceRuns(a[1..], kind) + ReplaceRuns(b, kind));
        { ConcatAssoc([a[0]], ReplaceRuns(a[1..], kind), ReplaceRuns(b, kind)); }
        ([a[0]] + ReplaceRuns(a[1..], kind)) + ReplaceRuns(b, kind);
        ReplaceRuns(a, kind) + ReplaceRuns(b, kind);
      }
    }
  }

  /** The case of `ReplaceRunsAppend` where `a` starts with a run. */
  lemma {:induction false} ReplaceRunsAppendRun(a: string, b: string, kind: RunKind)
    requires a != [] && b != [] && InRun(kind, a[0])
    requires !InRun(kind, a[|a| - 1]) || !InRun(kind, b[0])
    ensures ReplaceRuns(a + b, kind) == ReplaceRuns(a, kind) + ReplaceRuns(b, kind)
    decreases |a|, 1
  {
    var ab := a + b;
    assert ab[1..] == a[1..] + b;
    assert ab[0] == a[0];
    assert ReplaceRuns(ab, kind) == "+" + ReplaceRuns(SkipRun(a[1..] + b, kind), kind);
    SkipRunAppend(a[1..], b, kind);
    if SkipRun(a[1..], kind) == [] {
      RunThenRest(a, b, kind);
    } else {
      RunThenMore(a, b, kind);
    }
  }

  /** A run that ends inside `a`, followed by the rest of `a` and then `b`. */
  lemma {:induction false} RunThenMore(a: string, b: string, kind: RunKind)
    requires a != [] && b != [] && InRun(kind, a[0])
    requires !InRun(kind, a[|a| - 1]) || !InRun(kind, b[0])
    requires SkipRun(a[1..], kind) != []
    requires ReplaceRuns(a + b, kind) == "+" + ReplaceRuns(SkipRun(a[1..], kind) + b, kind)
    ensures ReplaceRuns(a + b, kind) == ReplaceRuns(a, kind) + ReplaceRuns(b, kind)
    decreases |a|, 0
  {
    var t := SkipRun(a[1..], kind);
    assert t[|t| - 1] == a[|a| - 1];
    ReplaceRunsAppend(t, b, kind);
    ConcatAssoc("+", ReplaceRuns(t, kind), ReplaceRuns(b, kind));
  }

  /** A string that is one whole run, followed by a string that does not continue it. */
  lemma RunThenRest(a: string, b: string, kind: RunKind)
    requires a != [] && b != [] && InRun(kind, a[0]) && SkipRun(a[1..], kind) == []
    requires !InRun(kind, a[|a| - 1]) || !InRun(kind, b[0])
    requires ReplaceRuns(a + b, kind) == "+" + ReplaceRuns(SkipRun(a[1..] + b, kind), kind)
    requires SkipRun(a[1..] + b, kind) == SkipRun(b, kind)
    ensures ReplaceRuns(a + b, kind) == ReplaceRuns(a, kind) + ReplaceRuns(b, kind)
  {
    if |a| > 1 {
      RunToEnd(a[1..], kind);
      assert a[|a| - 1] == a[1..][|a| - 2];
    }
    assert SkipRun(b, kind) == b;
    assert ReplaceRuns(a, kind) == "+";
  }

  lemma {:induction false} SkipRunLetters(s: string, kind: RunKind)
    ensures Letters(SkipRun(s, kind)) == Letters(s)
  {
    if s != [] && InRun(kind, s[0]) {
      SkipRunLetters(s[1..], kind);
      assert Letters(s) == Letters(s[1..]) by {
        assert IsSpace(s[0]) || s[0] == '+';
      }
    }
  }

  /** Replacing runs keeps the letters, in order, and never lengthens the string. */
  lemma {:induction false} ReplaceRunsLetters(s: string, kind: RunKind)
    ensures Letters(ReplaceRuns(s, kind)) == Letters(s)
    ensures |ReplaceRuns(s, kind)| <= |s|
    decreases |s|
  {
    if s != [] {
      var r := ReplaceRuns(s, kind);
      if InRun(kind, s[0]) {
        var t := SkipRun(s[1..], kind);
        ReplaceRunsLetters(t, kind);
        SkipRunLetters(s[1..], kind);
        assert r[1..] == ReplaceRuns(t, kind);
      } else {
        ReplaceRunsLetters(s[1..], kind);
        assert r[1..] == ReplaceRuns(s[1..], kind);
      }
    }
  }

  lemma TrimPlusLetters(s: string)
    ensures Letters(TrimPlus(s)) == Letters(s)
  {
    var r := TrimPlus(s);
    LettersAppend("+", r);
    LettersAppend(r, "+");
    LettersAppend("+" + r, "+");
  }

  /**
   * The key keeps the letters of the name: after lower-casing and removing
   * the accents, the name and its key have the same characters other than
   * white space and `+`, in the same order.
   */
  lemma NormalizeKeepsLetters(s: string)
    ensures Letters(Normalize(s)) == Letters(ReplaceEnye(StripMarks(DecomposeAll(LowerAll(s)))))
  {
    var u := ReplaceEnye(StripMarks(DecomposeAll(LowerAll(s))));
    var spaced := ReplaceRuns(u, WhiteSpace);
    ReplaceRunsLetters(u, WhiteSpace);
    ReplaceRunsLetters(spaced, PlusSigns);
    TrimPlusLetters(ReplaceRuns(spaced, PlusSigns));
  }
}
