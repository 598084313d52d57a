/**
 Search: `score_match`, the fixed ladder of match scores, and `filter_items`,
 which narrows the catalog to a folder subtree and a file-name prefix and,
 for a non-empty query, keeps the matching items best-first.
 */
module Ranking {
  import opened Text
  import opened Paths
  import opened Sorting
  import opened Catalog

  // ---------------------------------------------------------------------------
  // Query tokens
  // ---------------------------------------------------------------------------

  /** The class `[\s_\-\.]` the query is split on. */
  predicate IsTokenSeparator(c: char) {
    IsSpace(c) || c == '_' || c == '-' || c == '.'
  }

  /** Index of the first separator of `s`, or `|s|`. */
  function FirstSeparator(s: string): (i: nat)
    ensures i <= |s|
    ensures forall j :: 0 <= j < i ==> !IsTokenSeparator(s[j])
    ensures i < |s| ==> IsTokenSeparator(s[i])
    decreases |s|
  {
    if s == [] || IsTokenSeparator(s[0]) then 0
    else
      var i := 1 + FirstSeparator(s[1..]);
      assert forall j :: 1 <= j < i ==> s[j] == s[1..][j - 1];
      i
  }

  /** End of the run of separators that starts at `i`. */
  function SeparatorRunEnd(s: string, i: nat): (j: nat)
    requires i <= |s|
    ensures i <= j <= |s|
    ensures forall k :: i <= k < j ==> IsTokenSeparator(s[k])
    ensures j == |s| || !IsTokenSeparator(s[j])
    decreases |s| - i
  {
    if i < |s| && IsTokenSeparator(s[i]) then SeparatorRunEnd(s, i + 1) else i
  }

  /** `re.split(r"[\s_\-\.]+", q)`: the pieces between maximal separator runs,
      with an empty piece where the query starts or ends with a separator. */
  function Tokens(q: string): (tokens: seq<string>)
    ensures |tokens| >= 1
    ensures forall t, k :: t in tokens && 0 <= k < |t| ==> !IsTokenSeparator(t[k])
    decreases |q|
  {
    var i := FirstSeparator(q);
    if i == |q| then [q]
    else
      var j := SeparatorRunEnd(q, i);
      [q[..i]] + Tokens(q[j..])
  }

  /** The maximal separator runs of `q`, in order: what `Tokens` splits at. */
  function SeparatorRuns(q: string): seq<string>
    decreases |q|
  {
    var i := FirstSeparator(q);
    if i == |q| then []
    else
      var j := SeparatorRunEnd(q, i);
      [q[i..j]] + SeparatorRuns(q[j..])
  }

  predicate NoSeparator(t: string) {
    forall k :: 0 <= k < |t| ==> !IsTokenSeparator(t[k])
  }

  predicate AllSeparators(s: string) {
    forall k :: 0 <= k < |s| ==> IsTokenSeparator(s[k])
  }

  /** `tokens[0] + runs[0] + tokens[1] + … + tokens[n]`. */
  function Interleave(tokens: seq<string>, runs: seq<string>): string
    requires |tokens| == |runs| + 1
    decreases |runs|
  {
    if runs == [] then tokens[0] else tokens[0] + runs[0] + Interleave(tokens[1..], runs[1..])
  }

  /** `q` is `tokens` joined by `runs`: the tokens hold no separator, every
      run is a non-empty stretch of separators, and only the first and the
      last token may be empty (so every run is maximal). */
  predicate SplitsInto(q: string, tokens: seq<string>, runs: seq<string>) {
    && |tokens| == |runs| + 1
    && (forall i :: 0 <= i < |tokens| ==> NoSeparator(tokens[i]))
    && (forall i :: 0 < i < |tokens| - 1 ==> tokens[i] != "")
    && (forall i :: 0 <= i < |runs| ==> runs[i] != "" && AllSeparators(runs[i]))
    && Interleave(tokens, runs) == q
  }

  /** One more token and run in front of a split. */
  lemma SplitsIntoCons(q: string, i: nat, j: nat, tokens: seq<string>, runs: seq<string>)
    requires i < j <= |q|
    requires SplitsInto(q[j..], tokens, runs)
    requires NoSeparator(q[..i]) && AllSeparators(q[i..j])
    requires |tokens| >= 2 ==> tokens[0] != ""
    ensures SplitsInto(q, [q[..i]] + tokens, [q[i..j]] + runs)
  {
    var ts, rs := [q[..i]] + tokens, [q[i..j]] + runs;
    assert q[..i] + q[i..j] + q[j..] == q;
    assert ts[1..] == tokens && rs[1..] == runs;
    assert forall i :: 0 < i < |ts| ==> ts[i] == tokens[i - 1];
    assert forall i :: 0 < i < |rs| ==> rs[i] == runs[i - 1];
  }

  /** Dropping the first token and run of a split leaves a split of the rest. */
  lemma SplitsIntoTail(q: string, tokens: seq<string>, runs: seq<string>)
    requires SplitsInto(q, tokens, runs) && runs != []
    ensures SplitsInto(Interleave(tokens[1..], runs[1..]), tokens[1..], runs[1..])
    ensures q == tokens[0] + runs[0] + Interleave(tokens[1..], runs[1..])
  {
    var ts, rs := tokens[1..], runs[1..];
    assert forall i :: 0 <= i < |ts| ==> ts[i] == tokens[i + 1];
    assert forall i :: 0 <= i < |rs| ==> rs[i] == runs[i + 1];
  }

  /** A split starts with its first token. */
  lemma InterleaveStarts(tokens: seq<string>, runs: seq<string>)
    requires |tokens| == |runs| + 1
    ensures HasPrefix(Interleave(tokens, runs), tokens[0])
  {
    if runs != [] {
      var rest := Interleave(tokens[1..], runs[1..]);
      assert (tokens[0] + runs[0] + rest)[..|tokens[0]|] == tokens[0];
    }
  }

  /** Text that starts with a non-separator starts with a non-empty token. */
  lemma TokensHeadNonEmpty(s: string)
    requires s != [] && !IsTokenSeparator(s[0])
    ensures Tokens(s)[0] != ""
  {
    var i := FirstSeparator(s);
    assert i > 0;
    assert Tokens(s)[0] == s[..i];
  }

  /** `re.split` with a `+` pattern: the query is its tokens joined by its
      maximal separator runs. */
  lemma {:induction false} TokensSplit(q: string)
    ensures SplitsInto(q, Tokens(q), SeparatorRuns(q))
    decreases |q|
  {
    var i := FirstSeparator(q);
    if i == |q| {
      assert Tokens(q) == [q] && SeparatorRuns(q) == [];
    } else {
      var j := SeparatorRunEnd(q, i);
      var rest := q[j..];
      TokensSplit(rest);
      var tokens := Tokens(rest);
      if rest == [] {
        assert tokens == [rest];
      } else {
        TokensHeadNonEmpty(rest);
      }
      SplitsIntoCons(q, i, j, tokens, SeparatorRuns(rest));
    }
  }

  /** Where a split's first token ends and its first run ends. */
  lemma SplitBounds(q: string, tokens: seq<string>, runs: seq<string>)
    requires SplitsInto(q, tokens, runs) && runs != []
    ensures FirstSeparator(q) == |tokens[0]|
    ensures SeparatorRunEnd(q, |tokens[0]|) == |tokens[0]| + |runs[0]|
  {
    SplitsIntoTail(q, tokens, runs);
    var t, run, rest := tokens[0], runs[0], Interleave(tokens[1..], runs[1..]);
    assert NoSeparator(t) && AllSeparators(run) && run != [];
    assert forall k :: 0 <= k < |t| ==> q[k] == t[k];
    assert forall k :: 0 <= k < |run| ==> q[|t| + k] == run[k];
    InterleaveStarts(tokens[1..], runs[1..]);
    FirstSeparatorIs(q, |t|);
    var e := |t| + |run|;
    if tokens[1] == "" {
      assert |tokens| == 2 && rest == "";
    } else {
      assert q[e] == rest[0] == tokens[1][0];
    }
    SeparatorRunEndIs(q, |t|, e);
  }

  /** `FirstSeparator` is the first separator's index. */
  lemma {:induction false} FirstSeparatorIs(s: string, i: nat)
    requires i <= |s|
    requires forall k :: 0 <= k < i ==> !IsTokenSeparator(s[k])
    requires i < |s| ==> IsTokenSeparator(s[i])
    ensures FirstSeparator(s) == i
    decreases i
  {
    if i > 0 {
      FirstSeparatorIs(s[1..], i - 1);
    }
  }

  /** `SeparatorRunEnd` is where the run of separators stops. */
  lemma {:induction false} SeparatorRunEndIs(s: string, i: nat, j: nat)
    requires i <= j <= |s|
    requires forall k :: i <= k < j ==> IsTokenSeparator(s[k])
    requires j == |s| || !IsTokenSeparator(s[j])
    ensures SeparatorRunEnd(s, i) == j
    decreases j - i
  {
    if i < j {
      SeparatorRunEndIs(s, i + 1, j);
    }
  }

  /** One step of `Tokens` and `SeparatorRuns`, given where the first token
      and the first run end. */
  lemma SplitStep(q: string, tokens: seq<string>, runs: seq<string>, rest: string)
    requires |tokens| == |runs| + 1 && runs != []
    requires q == tokens[0] + runs[0] + rest && runs[0] != []
    requires FirstSeparator(q) == |tokens[0]|
    requires SeparatorRunEnd(q, |tokens[0]|) == |tokens[0]| + |runs[0]|
    requires tokens[1..] == Tokens(rest) && runs[1..] == SeparatorRuns(rest)
    ensures tokens == Tokens(q) && runs == SeparatorRuns(q)
  {
    var i, j := |tokens[0]|, |tokens[0]| + |runs[0]|;
    assert q[..i] == tokens[0] && q[i..j] == runs[0] && q[j..] == rest;
    assert tokens == [tokens[0]] + tokens[1..];
    assert runs == [runs[0]] + runs[1..];
  }

  /** Text without separators is a single token. */
  lemma SplitsIntoOne(q: string, tokens: seq<string>, runs: seq<string>)
    requires SplitsInto(q, tokens, runs) && runs == []
    ensures tokens == Tokens(q) && runs == SeparatorRuns(q)
  {
    assert q == tokens[0] && NoSeparator(q);
    FirstSeparatorIs(q, |q|);
  }

  /** The split is unique: any way of writing `q` as tokens joined by
      maximal separator runs is the one `re.split` gives. */
  lemma {:induction false} SplitsIntoUnique(q: string, tokens: seq<string>, runs: seq<string>)
    requires SplitsInto(q, tokens, runs)
    ensures tokens == Tokens(q) && runs == SeparatorRuns(q)
    decreases |runs|
  {
    if runs == [] {
      SplitsIntoOne(q, tokens, runs);
    } else {
      SplitsIntoTail(q, tokens, runs);
      SplitBounds(q, tokens, runs);
      var rest := Interleave(tokens[1..], runs[1..]);
      SplitsIntoUnique(rest, tokens[1..], runs[1..]);
      SplitStep(q, tokens, runs, rest);
    }
  }

  /** The characters of `s` that are not separators, in order. */
  function TokenChars(s: string): string
    decreases |s|
  {
    if s == [] then [] else (if IsTokenSeparator(s[0]) then [] else [s[0]]) + TokenChars(s[1..])
  }

  function Concat(parts: seq<string>): string
    decreases |parts|
  {
    if parts == [] then [] else parts[0] + Concat(parts[1..])
  }

  lemma {:induction false} TokenCharsAppend(a: string, b: string)
    ensures TokenChars(a + b) == TokenChars(a) + TokenChars(b)
    decreases |a|
  {
    if a != [] {
      assert (a + b)[0] == a[0];
      assert (a + b)[1..] == a[1..] + b;
      TokenCharsAppend(a[1..], b);
    } else {
      assert a + b == b;
    }
  }

  lemma {:induction false} TokenCharsOfPlain(s: string)
    requires forall k :: 0 <= k < |s| ==> !IsTokenSeparator(s[k])
    ensures TokenChars(s) == s
    decreases |s|
  {
    if s != [] {
      TokenCharsOfPlain(s[1..]);
    }
  }

  lemma {:induction false} TokenCharsOfSeparators(s: string)
    requires forall k :: 0 <= k < |s| ==> IsTokenSeparator(s[k])
    ensures TokenChars(s) == []
    decreases |s|
  {
    if s != [] {
      TokenCharsOfSeparators(s[1..]);
    }
  }

  /** Splitting loses only separators: the tokens, run together, are the
      query with every separator removed. */
  lemma {:induction false} TokensKeepText(q: string)
    ensures Concat(Tokens(q)) == TokenChars(q)
    decreases |q|
  {
    var i := FirstSeparator(q);
    if i == |q| {
      TokenCharsOfPlain(q);
      assert Tokens(q) == [q];
      assert Concat([q]) == q + Concat([]);
    } else {
      var j := SeparatorRunEnd(q, i);
      TokensKeepText(q[j..]);
      assert Tokens(q) == [q[..i]] + Tokens(q[j..]);
      ConcatCons(q[..i], Tokens(q[j..]));
      TokenCharsSplit(q, i, j);
    }
  }

  lemma ConcatCons(head: string, rest: seq<string>)
    ensures Concat([head] + rest) == head + Concat(rest)
  {
    assert ([head] + rest)[1..] == rest;
  }

  /** A word, then a separator run, then the rest. */
  lemma {:induction false} TokenCharsSplit(q: string, i: nat, j: nat)
    requires i <= j <= |q|
    requires forall k :: 0 <= k < i ==> !IsTokenSeparator(q[k])
    requires forall k :: i <= k < j ==> IsTokenSeparator(q[k])
    ensures TokenChars(q) == q[..i] + TokenChars(q[j..])
    decreases j
  {
    if j > 0 {
      var t := q[1..];
      assert forall k :: 0 <= k < |t| ==> t[k] == q[k + 1];
      TokenCharsSplit(t, if i > 0 then i - 1 else 0, j - 1);
      assert t[j - 1..] == q[j..];
      if i > 0 {
        assert q[..i] == [q[0]] + t[..i - 1];
      }
    }
  }

  // ---------------------------------------------------------------------------
  // score_match
  // ---------------------------------------------------------------------------

  function NonEmptyCount(tokens: seq<string>): nat
    decreases |tokens|
  {
    if tokens == [] then 0 else (if tokens[0] == "" then 0 else 1) + NonEmptyCount(tokens[1..])
  }

  /** A non-empty token the lowered file name holds. */
  function NameHit(f: string): string -> bool {
    t => t != "" && Contains(f, t)
  }

  /** A non-empty token only the lowered relative path holds. */
  function PathOnlyHit(f: string, r: string): string -> bool {
    t => t != "" && !Contains(f, t) && Contains(r, t)
  }

  /** The token tier: per non-empty token, 120 when the lowered file name
      holds it, else 60 when the lowered relative path does. */
  function TokenScore(tokens: seq<string>, f: string, r: string): (score: int)
    ensures 0 <= score <= 120 * NonEmptyCount(tokens)
    ensures score % 60 == 0
    decreases |tokens|
  {
    if tokens == [] then 0
    else
      var t := tokens[0];
      var here := if t == "" then 0 else if Contains(f, t) then 120 else if Contains(r, t) then 60 else 0;
      here + TokenScore(tokens[1..], f, r)
  }

  /** The token tier counted: 120 for every non-empty token the lowered file
      name holds, plus 60 for every other non-empty token the lowered
      relative path holds, repeated tokens counting each time. */
  lemma {:induction false} TokenScoreCounts(tokens: seq<string>, f: string, r: string)
    ensures TokenScore(tokens, f, r) == 120 * |Where(tokens, NameHit(f))| + 60 * |Where(tokens, PathOnlyHit(f, r))|
    decreases |tokens|
  {
    if tokens != [] {
      TokenScoreCounts(tokens[1..], f, r);
      WhereLength(tokens, NameHit(f));
      WhereLength(tokens, PathOnlyHit(f, r));
      var t := tokens[0];
      assert NameHit(f)(t) == (t != "" && Contains(f, t));
      assert PathOnlyHit(f, r)(t) == (t != "" && !Contains(f, t) && Contains(r, t));
    }
  }

  /** The query the way `score_match` compares it. */
  function Needle(q: string): string {
    Strip(Lower(q))
  }

  predicate ExactTier(q: string, filename: string) {
    Needle(q) != [] && Needle(q) == Lower(filename)
  }

  predicate FilenameTier(q: string, filename: string) {
    Needle(q) != [] && Needle(q) != Lower(filename) && Contains(Lower(filename), Needle(q))
  }

  predicate RelpathTier(q: string, filename: string, relpath: string) {
    Needle(q) != [] && !Contains(Lower(filename), Needle(q)) && Contains(Lower(relpath), Needle(q))
  }

  predicate TokenTier(q: string, filename: string, relpath: string) {
    Needle(q) != [] && !Contains(Lower(filename), Needle(q)) && !Contains(Lower(relpath), Needle(q))
  }

  /** `score_match`. */
  function ScoreMatch(q: string, filename: string, relpath: string): (score: int)
    ensures Needle(q) == [] ==> score == 0
    ensures ExactTier(q, filename) ==> score == 1000
    ensures FilenameTier(q, filename) ==> score == 800 - (|filename| - |Needle(q)|) && score <= 799
    ensures RelpathTier(q, filename, relpath) ==> score == 500 - (|relpath| - |Needle(q)|) && score <= 500
    ensures TokenTier(q, filename, relpath) ==>
      score == TokenScore(Tokens(Needle(q)), Lower(filename), Lower(relpath))
    ensures TokenTier(q, filename, relpath) ==>
      0 <= score <= 120 * NonEmptyCount(Tokens(Needle(q))) && score % 60 == 0
  {
    var q := Needle(q);
    if q == [] then 0
    else
      var f := Lower(filename);
      var r := Lower(relpath);
      if q == f then 1000
      else if Contains(f, q) then
        ContainsLength(f, q);
        800 - (|f| - |q|)
      else if Contains(r, q) then
        ContainsLength(r, q);
        500 - (|r| - |q|)
      else TokenScore(Tokens(q), f, r)
  }

  /** The four tiers split every non-empty query. */
  lemma TiersCover(q: string, filename: string, relpath: string)
    requires Needle(q) != []
    ensures ExactTier(q, filename) || FilenameTier(q, filename)
      || RelpathTier(q, filename, relpath) || TokenTier(q, filename, relpath)
  {
    if ExactTier(q, filename) {
    } else if Contains(Lower(filename), Needle(q)) {
      assert FilenameTier(q, filename);
    }
  }

  /** An exact name match outranks every substring match of the same query. */
  lemma ExactOutranksSubstrings(q: string, exact: string, f: string, fRel: string)
    requires ExactTier(q, exact)
    requires FilenameTier(q, f) || RelpathTier(q, f, fRel)
    ensures ScoreMatch(q, exact, exact) > ScoreMatch(q, f, fRel)
  {
  }

  /** Within the file-name tier the closer length wins: of two names holding
      the query, the shorter scores higher. */
  lemma ShorterNameRanksHigher(q: string, f1: string, r1: string, f2: string, r2: string)
    requires FilenameTier(q, f1) && FilenameTier(q, f2)
    requires |f1| < |f2|
    ensures ScoreMatch(q, f1, r1) > ScoreMatch(q, f2, r2)
  {
  }

  /** The file-name tier does not always beat the relative-path tier: a
      file-name match ranks below a path-only match exactly when its name is
      more than 300 characters longer than the other's path. */
  lemma LongNameBelowPath(q: string, f1: string, r1: string, f2: string, r2: string)
    requires FilenameTier(q, f1) && RelpathTier(q, f2, r2)
    ensures ScoreMatch(q, f1, r1) < ScoreMatch(q, f2, r2) <==> |f1| > |r2| + 300
  {
  }

  /** `n` copies of the one-character word `[c]`, separated by single spaces. */
  function SpacedCopies(c: char, n: nat): (s: string)
    requires n >= 1
    ensures |s| == 2 * n - 1
    ensures s[0] == c && s[|s| - 1] == c
    ensures forall i :: 0 <= i < |s| ==> s[i] == c || s[i] == ' '
    decreases n
  {
    if n == 1 then [c] else [c, ' '] + SpacedCopies(c, n - 1)
  }

  /** `n` copies of the word `[c]`. */
  function Words(c: char, n: nat): (ws: seq<string>)
    ensures |ws| == n
    ensures forall k :: 0 <= k < n ==> ws[k] == [c]
  {
    if n == 0 then [] else [[c]] + Words(c, n - 1)
  }

  /** The query `SpacedCopies(c, n)` splits into its `n` words. */
  lemma {:induction false} TokensOfCopies(c: char, n: nat)
    requires n >= 1 && !IsTokenSeparator(c)
    ensures Tokens(SpacedCopies(c, n)) == Words(c, n)
    decreases n
  {
    if n == 1 {
      assert FirstSeparator([c]) == 1;
    } else {
      var rest := SpacedCopies(c, n - 1);
      TokensOfCopies(c, n - 1);
      assert SpacedCopies(c, n) == [c, ' '] + rest;
      assert !IsTokenSeparator(rest[0]);
      TokensLetterSpace(c, rest);
    }
  }

  /** Lowered and stripped, the query `SpacedCopies(c, n)` is itself. */
  lemma NeedleOfCopies(c: char, n: nat)
    requires n >= 1 && !IsTokenSeparator(c) && !('A' <= c <= 'Z')
    ensures Needle(SpacedCopies(c, n)) == SpacedCopies(c, n)
  {
    var q := SpacedCopies(c, n);
    LowerOfLowercase(q);
    StripFixed(q);
  }

  /** Outside the three substring tiers the score is the token tier's. */
  lemma TokenTierScore(q: string, filename: string, relpath: string)
    requires TokenTier(q, filename, relpath)
    ensures ScoreMatch(q, filename, relpath) == TokenScore(Tokens(Needle(q)), Lower(filename), Lower(relpath))
  {
    if Needle(q) == Lower(filename) {
      ContainsSelf(Lower(filename));
    }
  }

  /** A query of `n >= 2` copies of a one-letter word scores `120 * n`
      against the file named by that letter alone. */
  lemma CopiesScore(c: char, n: nat)
    requires n >= 2 && !IsTokenSeparator(c) && !('A' <= c <= 'Z')
    ensures ScoreMatch(SpacedCopies(c, n), [c], [c]) == 120 * n
  {
    CopiesInTokenTier(c, n);
    TokensOfCopies(c, n);
    LetterWordsScore(c, n);
  }

  /** No substring tier applies to the copies against the one-letter name. */
  lemma CopiesInTokenTier(c: char, n: nat)
    requires n >= 2 && !IsTokenSeparator(c) && !('A' <= c <= 'Z')
    ensures ScoreMatch(SpacedCopies(c, n), [c], [c]) == TokenScore(Tokens(SpacedCopies(c, n)), [c], [c])
  {
    NeedleOfCopies(c, n);
    LowerOfLowercase([c]);
    LongerQueryScore(SpacedCopies(c, n), [c]);
  }

  /** A lower-case query longer than a lower-case name is in the token tier for it. */
  lemma LongerQueryScore(q: string, f: string)
    requires q != [] && Needle(q) == q && Lower(f) == f && |q| > |f|
    ensures ScoreMatch(q, f, f) == TokenScore(Tokens(q), f, f)
  {
    if Contains(f, q) {
      ContainsLength(f, q);
    }
    TokenTierScore(q, f, f);
  }

  /** Every copy of the one-letter word is found in the one-letter name. */
  lemma LetterWordsScore(c: char, n: nat)
    ensures TokenScore(Words(c, n), [c], [c]) == 120 * n
  {
    var w := [c];
    ContainsSelf(w);
    var ws := Words(c, n);
    forall k | 0 <= k < |ws| ensures ws[k] != "" && Contains(w, ws[k]) {
      assert ws[k] == w;
    }
    TokenScoreAll(ws, w, w);
  }

  /** The ladder is not strict at the top: a query of nine copies of one
      letter scores 1080 against the file named by that letter alone, above
      the 1000 of the file whose name is the whole query
      (`ExactQueryScores1000`). */
  lemma TokenTierCanExceedExact(c: char)
    requires !IsTokenSeparator(c) && !('A' <= c <= 'Z')
    ensures ScoreMatch(SpacedCopies(c, 9), [c], [c]) == 1080
  {
    CopiesScore(c, 9);
  }

  /** A file named exactly like the (lower-case, stripped) query scores 1000. */
  lemma ExactQueryScores1000(q: string)
    requires q != [] && Needle(q) == q
    ensures ScoreMatch(q, q, q) == 1000
  {
    assert Lower(q) == q by {
      assert Lower(Lower(q)) == Lower(q);
      assert Strip(Lower(q)) == q;
    }
  }

  lemma LowerOfLowercase(s: string)
    requires forall i :: 0 <= i < |s| ==> !('A' <= s[i] <= 'Z')
    ensures Lower(s) == s
  {
  }

  /** A letter, a space, then more: the letter is the first token. */
  lemma TokensLetterSpace(c: char, rest: string)
    requires !IsTokenSeparator(c)
    requires rest == [] || !IsTokenSeparator(rest[0])
    ensures Tokens([c, ' '] + rest) == [[c]] + Tokens(rest)
  {
    var s := [c, ' '] + rest;
    assert s[0] == c && s[1] == ' ';
    assert FirstSeparator(s) == 1;
    assert SeparatorRunEnd(s, 2) == 2;
    assert SeparatorRunEnd(s, 1) == 2;
    assert s[..1] == [c];
    assert s[2..] == rest;
  }

  /** Non-empty tokens that all occur in the file name score 120 each. */
  lemma {:induction false} TokenScoreAll(tokens: seq<string>, f: string, r: string)
    requires forall k :: 0 <= k < |tokens| ==> tokens[k] != "" && Contains(f, tokens[k])
    ensures TokenScore(tokens, f, r) == 120 * |tokens|
    decreases |tokens|
  {
    if tokens != [] {
      TokenScoreAll(tokens[1..], f, r);
    }
  }

  // ---------------------------------------------------------------------------
  // filter_items
  // ---------------------------------------------------------------------------

  /** The folder-subtree test: the folder itself or anything below it. */
  predicate InScope(folder: string, scope: string) {
    folder == scope || HasPrefix(folder, scope + "/")
  }

  function ItemScore(q: string, it: Item): int {
    ScoreMatch(q, it.filename, it.relpath)
  }

  /** The sort key of a search for `q`. */
  function ScoreKey(q: string): Item -> int {
    (it: Item) => ItemScore(q, it)
  }

  /** The folder condition of `filter_items` for a non-empty scope. */
  function UnderFolder(scope: string): Item -> bool {
    (it: Item) => InScope(it.folder, scope)
  }

  /** The `starts_with` condition of `filter_items` for a lowered prefix. */
  function NameStartsWith(prefix: string): Item -> bool {
    (it: Item) => HasPrefix(Lower(it.filename), prefix)
  }

  /** The two filters of `filter_items` that apply whatever the query: the
      folder subtree of the normalised `folder` and the lowered, stripped
      file-name prefix. An absent prefix is passed as `""`, which the source
      treats alike. */
  function Selected(items: seq<Item>, folder: string, startsWith: string): seq<Item> {
    var scope := SafeNorm(folder);
    var scoped := if scope != "" then Where(items, UnderFolder(scope)) else items;
    var prefix := Lower(Strip(startsWith));
    if startsWith != "" && prefix != "" then Where(scoped, NameStartsWith(prefix)) else scoped
  }

  /** Whether `it` passes both filters. */
  predicate Passes(it: Item, folder: string, startsWith: string) {
    && (SafeNorm(folder) == "" || InScope(it.folder, SafeNorm(folder)))
    && (Lower(Strip(startsWith)) == "" || HasPrefix(Lower(it.filename), Lower(Strip(startsWith))))
  }

  /** The filters keep every occurrence of what passes and drop the rest. */
  lemma SelectedCounts(items: seq<Item>, folder: string, startsWith: string)
    ensures forall it :: multiset(Selected(items, folder, startsWith))[it] ==
                         (if Passes(it, folder, startsWith) then multiset(items)[it] else 0)
  {
    var scope := SafeNorm(folder);
    var scoped := if scope != "" then Where(items, UnderFolder(scope)) else items;
    var prefix := Lower(Strip(startsWith));
    assert startsWith == "" ==> prefix == "";
  }

  /** The ranking branch of `filter_items`: the positive scorers, best first. */
  function Rank(selected: seq<Item>, q: string): (r: seq<Item>)
    ensures forall i :: 0 <= i < |r| ==> ItemScore(q, r[i]) > 0
    ensures SortedDesc(r, ScoreKey(q))
    ensures forall k :: KeyFilter(r, ScoreKey(q), k) ==
                        (if k > 0 then KeyFilter(selected, ScoreKey(q), k) else [])
    ensures forall it :: multiset(r)[it] == (if ItemScore(q, it) > 0 then multiset(selected)[it] else 0)
  {
    RankByPositive(selected, ScoreKey(q))
  }

  /** `filter_items` over the catalog `items`. */
  function FilterItems(items: seq<Item>, q: string, folder: string, startsWith: string): (r: seq<Item>)
    ensures Strip(q) == "" ==> r == Selected(items, folder, startsWith)
    ensures Strip(q) != "" ==> r == Rank(Selected(items, folder, startsWith), Strip(q))
    ensures forall it :: multiset(r)[it] ==
                         (if Passes(it, folder, startsWith) && (Strip(q) == "" || ItemScore(Strip(q), it) > 0)
                          then multiset(items)[it] else 0)
  {
    var q := Strip(q);
    var selected := Selected(items, folder, startsWith);
    if q == "" then
      SelectedCounts(items, folder, startsWith);
      selected
    else
      RankedCounts(items, q, folder, startsWith);
      Rank(selected, q)
  }

  /** The ranking branch keeps every occurrence of what passes and scores
      above zero, and drops the rest. */
  lemma RankedCounts(items: seq<Item>, q: string, folder: string, startsWith: string)
    ensures forall it :: multiset(Rank(Selected(items, folder, startsWith), q))[it] ==
                         (if Passes(it, folder, startsWith) && ItemScore(q, it) > 0 then multiset(items)[it] else 0)
  {
    SelectedCounts(items, folder, startsWith);
  }

  /** Both filters, for a normalised scope and a lowered prefix (`""` for
      either means that filter is off). */
  function PassingWith(scope: string, prefix: string): Item -> bool {
    (it: Item) =>
      (scope == "" || InScope(it.folder, scope)) && (prefix == "" || HasPrefix(Lower(it.filename), prefix))
  }

  /** The condition `Passes(it, folder, startsWith)`. */
  function PassesFilters(folder: string, startsWith: string): Item -> bool {
    PassingWith(SafeNorm(folder), Lower(Strip(startsWith)))
  }

  /** Filtering on the folder and then on the prefix keeps, in order, the
      items that pass both. */
  lemma FiltersInOrder(items: seq<Item>, scope: string, prefix: string)
    ensures var scoped := if scope != "" then Where(items, UnderFolder(scope)) else items;
      (if prefix != "" then Where(scoped, NameStartsWith(prefix)) else scoped) ==
      Where(items, PassingWith(scope, prefix))
  {
    var passes := PassingWith(scope, prefix);
    if scope != "" {
      if prefix != "" {
        WhereWhere(items, UnderFolder(scope), NameStartsWith(prefix));
        WhereAgree(items, Both(UnderFolder(scope), NameStartsWith(prefix)), passes);
      } else {
        WhereAgree(items, UnderFolder(scope), passes);
      }
    } else if prefix != "" {
      WhereAgree(items, NameStartsWith(prefix), passes);
    } else {
      WhereAll(items, passes);
    }
  }

  /** The filters keep the items that pass, in catalog order. */
  lemma SelectedInOrder(items: seq<Item>, folder: string, startsWith: string)
    ensures Selected(items, folder, startsWith) == Where(items, PassesFilters(folder, startsWith))
  {
    var prefix := Lower(Strip(startsWith));
    assert startsWith == "" ==> prefix == "";
    FiltersInOrder(items, SafeNorm(folder), prefix);
  }

  /** The order of the result. For an empty query it is the items that pass
      the filters, in catalog order. Otherwise the items of each positive
      score are the items that pass with that score, in catalog order (the
      sort is stable), and no item scores zero or less. */
  lemma FilterItemsInOrder(items: seq<Item>, q: string, folder: string, startsWith: string)
    ensures Strip(q) == "" ==>
      FilterItems(items, q, folder, startsWith) == Where(items, PassesFilters(folder, startsWith))
    ensures Strip(q) != "" ==> forall k ::
      KeyFilter(FilterItems(items, q, folder, startsWith), ScoreKey(Strip(q)), k) ==
      (if k > 0 then Where(items, Both(PassesFilters(folder, startsWith), HasKey(ScoreKey(Strip(q)), k))) else [])
  {
    SelectedInOrder(items, folder, startsWith);
    var selected := Selected(items, folder, startsWith);
    var passes := PassesFilters(folder, startsWith);
    if Strip(q) != "" {
      var key := ScoreKey(Strip(q));
      var r := Rank(selected, Strip(q));
      assert FilterItems(items, q, folder, startsWith) == r;
      forall k
        ensures KeyFilter(r, key, k) == (if k > 0 then Where(items, Both(passes, HasKey(key, k))) else [])
      {
        if k > 0 {
          KeyFilterIsWhere(selected, key, k);
          WhereWhere(items, passes, HasKey(key, k));
        }
      }
    }
  }

  /** The same, as subsequences of the catalog: without a query the result
      is one, and with a query so is each run of equal scores. */
  lemma FilterItemsSubsequence(items: seq<Item>, q: string, folder: string, startsWith: string)
    ensures Strip(q) == "" ==> IsSubsequence(FilterItems(items, q, folder, startsWith), items)
    ensures Strip(q) != "" ==> forall k ::
      IsSubsequence(KeyFilter(FilterItems(items, q, folder, startsWith), ScoreKey(Strip(q)), k), items)
  {
    FilterItemsInOrder(items, q, folder, startsWith);
    var passes := PassesFilters(folder, startsWith);
    var r := FilterItems(items, q, folder, startsWith);
    if Strip(q) == "" {
      WhereSubsequence(items, passes);
    } else {
      var key := ScoreKey(Strip(q));
      forall k
        ensures IsSubsequence(KeyFilter(r, key, k), items)
      {
        if k > 0 {
          WhereSubsequence(items, Both(passes, HasKey(key, k)));
        } else {
          EmptySubsequence(items);
        }
      }
    }
  }

  /** Membership in the result, stated without the sort: an item of the
      catalog is returned exactly when it lies in the folder subtree, its name
      starts with the prefix, and (for a non-empty query) it scores above 0. */
  lemma FilterItemsMembers(items: seq<Item>, q: string, folder: string, startsWith: string, it: Item)
    ensures it in FilterItems(items, q, folder, startsWith) <==>
      && it in items
      && (SafeNorm(folder) == "" || InScope(it.folder, SafeNorm(folder)))
      && (Lower(Strip(startsWith)) == "" || HasPrefix(Lower(it.filename), Lower(Strip(startsWith))))
      && (Strip(q) == "" || ItemScore(Strip(q), it) > 0)
  {
    var r := FilterItems(items, q, folder, startsWith);
    assert it in r <==> it in multiset(r);
    assert it in items <==> it in multiset(items);
  }

  /** Filtering by an item's own folder finds the item. */
  lemma OwnFolderFindsItem(items: seq<Item>, i: nat)
    requires i < |items| && WellFormed(items[i])
    ensures items[i] in FilterItems(items, "", items[i].folder, "")
  {
    var it := items[i];
    SafeNormFixedPoints(it.folder);
    assert Strip("") == "";
    assert Lower("") == "";
    FilterItemsMembers(items, "", it.folder, "", it);
  }
}
