/**
 * Column-header normalisation (`to_snake`, src/cleaning_pipeline.py:25-30).
 *
 * The Python function is a chain of string operations:
 *   strip -> replace '/', '-', '.' by ' ' -> every char that is neither
 *   alphanumeric nor ' ' becomes '_' -> replace("__", "_") -> lower ->
 *   split on whitespace -> drop empty pieces -> join with '_'.
 * Characters are classified with ASCII semantics.
 */
module SnakeCase {

  /** Python's `str.isspace` restricted to ASCII: space, \t \n \v \f \r and 0x1C..0x1F. */
  predicate IsSpace(c: char) {
    var n := c as int;
    n == 32 || 9 <= n <= 13 || 28 <= n <= 31
  }

  /** Python's `str.isalnum` restricted to ASCII. */
  predicate IsAlnum(c: char) {
    'a' <= c <= 'z' || 'A' <= c <= 'Z' || '0' <= c <= '9'
  }

  /** The characters a normalised header may contain. */
  predicate IsSnakeChar(c: char) {
    'a' <= c <= 'z' || '0' <= c <= '9' || c == '_'
  }

  /** A separator that `to_snake` turns into a word break. */
  predicate IsSeparator(c: char) {
    c == ' ' || c == '/' || c == '-' || c == '.'
  }

  function LowerChar(c: char): char {
    if 'A' <= c <= 'Z' then (c as int + 32) as char else c
  }

  // ---------------------------------------------------------------------
  // The individual steps
  // ---------------------------------------------------------------------

  /** `lstrip()`: the suffix left after removing every leading whitespace character. */
  function StripLeft(s: string): (r: string)
    ensures |r| <= |s| && r == s[|s| - |r|..]
    ensures r == [] || !IsSpace(r[0])
    ensures forall i :: 0 <= i < |s| - |r| ==> IsSpace(s[i])
  {
    if s != [] && IsSpace(s[0]) then StripLeft(s[1..]) else s
  }

  /** `rstrip()`: the prefix left after removing every trailing whitespace character. */
  function StripRight(s: string): (r: string)
    ensures |r| <= |s| && r == s[..|r|]
    ensures r == [] || !IsSpace(r[|r| - 1])
    ensures forall i :: |r| <= i < |s| ==> IsSpace(s[i])
  {
    if s != [] && IsSpace(s[|s| - 1]) then StripRight(s[..|s| - 1]) else s
  }

  /** `strip()` */
  function Strip(s: string): string {
    StripRight(StripLeft(s))
  }

  /** `s.replace(from, to)` for one-character `from` and `to`. */
  function ReplaceChar(s: string, from: char, to: char): string {
    seq(|s|, i requires 0 <= i < |s| => if s[i] == from then to else s[i])
  }

  /** `.replace("/", " ").replace("-", " ").replace(".", " ")` */
  function SeparatorsToSpaces(s: string): string {
    ReplaceChar(ReplaceChar(ReplaceChar(s, '/', ' '), '-', ' '), '.', ' ')
  }

  /** `"".join(ch if ch.isalnum() or ch == " " else "_" for ch in s)` */
  function Sanitize(s: string): string {
    seq(|s|, i requires 0 <= i < |s| => if IsAlnum(s[i]) || s[i] == ' ' then s[i] else '_')
  }

  /**
   * `s.replace("__", "_")`: one left-to-right pass that rewrites each
   * non-overlapping occurrence of "__" to "_".
   */
  function CollapseUnderscores(s: string): string
    decreases |s|
  {
    if |s| >= 2 && s[0] == '_' && s[1] == '_' then "_" + CollapseUnderscores(s[2..])
    else if s == [] then []
    else [s[0]] + CollapseUnderscores(s[1..])
  }

  /** `lower()` */
  function Lower(s: string): string {
    seq(|s|, i requires 0 <= i < |s| => LowerChar(s[i]))
  }

  /** Length of the longest prefix of `s` without whitespace. */
  function WordLength(s: string): (n: nat)
    ensures n <= |s|
    ensures forall i :: 0 <= i < n ==> !IsSpace(s[i])
    ensures n == |s| || IsSpace(s[n])
  {
    if s == [] || IsSpace(s[0]) then 0 else 1 + WordLength(s[1..])
  }

  /** `split()` with no argument: the maximal runs of non-whitespace characters. */
  function Words(s: string): seq<string>
    decreases |s|
  {
    if s == [] then []
    else if IsSpace(s[0]) then Words(s[1..])
    else
      var n := WordLength(s);
      [s[..n]] + Words(s[n..])
  }

  /** `[p for p in parts if p]` */
  function DropEmpty(parts: seq<string>): seq<string> {
    if parts == [] then []
    else if parts[0] == [] then DropEmpty(parts[1..])
    else [parts[0]] + DropEmpty(parts[1..])
  }

  /** `sep.join(parts)` for a one-character separator. */
  function Join(sep: char, parts: seq<string>): string {
    if parts == [] then []
    else if |parts| == 1 then parts[0]
    else parts[0] + [sep] + Join(sep, parts[1..])
  }

  /** `to_snake(s)` */
  function ToSnake(s: string): string {
    var spaced := SeparatorsToSpaces(Strip(s));
    var collapsed := CollapseUnderscores(Sanitize(spaced));
    Join('_', DropEmpty(Words(Lower(collapsed))))
  }

  /** `df.columns = [to_snake(c) for c in df.columns]` (line 48) */
  function SnakeHeaders(headers: seq<string>): seq<string> {
    seq(|headers|, k requires 0 <= k < |headers| => ToSnake(headers[k]))
  }

  /** One name per header, each made of lower-case letters, digits and '_' only. */
  lemma SnakeHeadersCharset(headers: seq<string>)
    ensures |SnakeHeaders(headers)| == |headers|
    ensures forall k :: 0 <= k < |headers| ==> forall c :: c in SnakeHeaders(headers)[k] ==> IsSnakeChar(c)
  {
    forall k | 0 <= k < |headers| ensures forall c :: c in SnakeHeaders(headers)[k] ==> IsSnakeChar(c) {
      ToSnakeCharset(headers[k]);
    }
  }

  // ---------------------------------------------------------------------
  // Character-set properties
  // ---------------------------------------------------------------------

  /** Characters that may remain after sanitising: alphanumerics, ' ' and '_'. */
  predicate IsCleanChar(c: char) {
    IsAlnum(c) || c == ' ' || c == '_'
  }

  /** The "__" pass introduces no character that was not already there. */
  lemma {:induction false} CollapseKeepsChars(s: string)
    ensures forall c :: c in CollapseUnderscores(s) ==> c in s
    decreases |s|
  {
    if |s| >= 2 && s[0] == '_' && s[1] == '_' {
      CollapseKeepsChars(s[2..]);
      assert forall c :: c in s[2..] ==> c in s;
    } else if s != [] {
      CollapseKeepsChars(s[1..]);
      assert forall c :: c in s[1..] ==> c in s;
    }
  }

  /** Every word of `split()` is non-empty, free of whitespace and made of characters of the input. */
  lemma {:induction false} WordsShape(s: string)
    ensures forall w :: w in Words(s) ==> w != [] && forall c :: c in w ==> c in s && !IsSpace(c)
    decreases |s|
  {
    if s == [] {
    } else if IsSpace(s[0]) {
      WordsShape(s[1..]);
      assert forall c :: c in s[1..] ==> c in s;
    } else {
      var n := WordLength(s);
      WordsShape(s[n..]);
      assert forall c :: c in s[n..] ==> c in s;
      assert forall c :: c in s[..n] ==> c in s && !IsSpace(c);
    }
  }

  /** A leading word followed by whitespace (or nothing) is the first word `split()` returns. */
  lemma WordsFirst(w: string, rest: string)
    requires w != [] && forall i :: 0 <= i < |w| ==> !IsSpace(w[i])
    requires rest == [] || IsSpace(rest[0])
    ensures Words(w + rest) == [w] + Words(rest)
  {
    var s := w + rest;
    var n := WordLength(s);
    assert s[..|w|] == w && s[|w|..] == rest;
    assert forall i :: 0 <= i < |w| ==> s[i] == w[i];
    assert n == |w|;
    assert s[..n] == w && s[n..] == rest;
  }

  /** `split()` finds no word exactly when the string is all whitespace. */
  lemma {:induction false} WordsEmptyIff(s: string)
    ensures Words(s) == [] <==> forall i :: 0 <= i < |s| ==> IsSpace(s[i])
    decreases |s|
  {
    if s != [] && IsSpace(s[0]) {
      WordsEmptyIff(s[1..]);
      assert forall i :: 1 <= i < |s| ==> s[i] == s[1..][i - 1];
    }
  }

  /** Dropping empty pieces keeps exactly the non-empty ones, in order. */
  lemma {:induction false} DropEmptyKeepsNonEmpty(parts: seq<string>)
    requires forall w :: w in parts ==> w != []
    ensures DropEmpty(parts) == parts
  {
    if parts != [] {
      assert parts[0] in parts;
      assert forall w :: w in parts[1..] ==> w in parts;
      DropEmptyKeepsNonEmpty(parts[1..]);
    }
  }

  /** Joining snake-case words with '_' gives a snake-case string. */
  lemma {:induction false} JoinSnake(parts: seq<string>)
    requires forall w :: w in parts ==> forall c :: c in w ==> IsSnakeChar(c)
    ensures forall c :: c in Join('_', parts) ==> IsSnakeChar(c)
  {
    if parts != [] {
      assert parts[0] in parts;
    }
    if |parts| > 1 {
      assert forall w :: w in parts[1..] ==> w in parts;
      JoinSnake(parts[1..]);
    }
  }

  /** Joining non-empty words gives the empty string exactly when there are none. */
  lemma JoinEmptyIff(parts: seq<string>)
    requires forall w :: w in parts ==> w != []
    ensures Join('_', parts) == [] <==> parts == []
  {
    if |parts| > 1 {
      assert |Join('_', parts)| >= |parts[0]|;
    } else if |parts| == 1 {
      assert parts[0] in parts;
    }
  }

  /**
   * For every input, the header produced by `to_snake` consists only of
   * lower-case letters, digits and '_'; in particular it has no space.
   */
  lemma ToSnakeCharset(s: string)
    ensures forall c :: c in ToSnake(s) ==> IsSnakeChar(c)
  {
    var sanitized := Sanitize(SeparatorsToSpaces(Strip(s)));
    assert forall c :: c in sanitized ==> IsCleanChar(c);
    var collapsed := CollapseUnderscores(sanitized);
    CollapseKeepsChars(sanitized);
    var lowered := Lower(collapsed);
    assert forall c :: c in lowered ==> IsSnakeChar(c) || c == ' ' by {
      forall c | c in lowered ensures IsSnakeChar(c) || c == ' ' {
        var i :| 0 <= i < |lowered| && lowered[i] == c;
        assert collapsed[i] in collapsed;
      }
    }
    var words := Words(lowered);
    WordsShape(lowered);
    DropEmptyKeepsNonEmpty(words);
    JoinSnake(words);
  }

  // ---------------------------------------------------------------------
  // When the header vanishes
  // ---------------------------------------------------------------------

  predicate AllSpace(s: string) {
    forall i :: 0 <= i < |s| ==> IsSpace(s[i])
  }

  lemma AllSpaceCons(c: char, rest: string)
    ensures AllSpace([c] + rest) <==> IsSpace(c) && AllSpace(rest)
  {
    var s := [c] + rest;
    assert forall i :: 1 <= i < |s| ==> s[i] == rest[i - 1];
    if IsSpace(c) && AllSpace(rest) {
      forall i | 0 <= i < |s| ensures IsSpace(s[i]) {
        if i > 0 { assert s[i] == rest[i - 1]; }
      }
    }
    if AllSpace(s) {
      assert IsSpace(s[0]);
      forall i | 0 <= i < |rest| ensures IsSpace(rest[i]) {
        assert rest[i] == s[i + 1];
      }
    }
  }

  /** The "__" pass leaves a string all-whitespace exactly when it was all-whitespace. */
  lemma {:induction false} CollapseAllSpaceIff(s: string)
    ensures AllSpace(CollapseUnderscores(s)) <==> AllSpace(s)
    decreases |s|
  {
    if |s| >= 2 && s[0] == '_' && s[1] == '_' {
      assert CollapseUnderscores(s)[0] == '_';
    } else if s != [] {
      var rest := CollapseUnderscores(s[1..]);
      CollapseAllSpaceIff(s[1..]);
      assert CollapseUnderscores(s) == [s[0]] + rest;
      AllSpaceCons(s[0], rest);
      AllSpaceCons(s[0], s[1..]);
      assert s == [s[0]] + s[1..];
    }
  }

  /**
   * `to_snake` yields the empty header exactly when what is left after
   * stripping consists only of separators (' ', '/', '-', '.').
   */
  lemma ToSnakeEmptyIff(s: string)
    ensures ToSnake(s) == [] <==> forall i :: 0 <= i < |Strip(s)| ==> IsSeparator(Strip(s)[i])
  {
    var t := Strip(s);
    var sanitized := Sanitize(SeparatorsToSpaces(t));
    SanitizedAllSpaceIff(t);
    var collapsed := CollapseUnderscores(sanitized);
    CollapseAllSpaceIff(sanitized);
    LowerAllSpaceIff(collapsed);
    EmptyAfterCollapseIff(collapsed);
    ToSnakeSteps(s, sanitized, collapsed, Words(Lower(collapsed)));
  }

  /** After sanitising, a character is whitespace exactly when it was a separator. */
  lemma SanitizedAllSpaceIff(t: string)
    ensures AllSpace(Sanitize(SeparatorsToSpaces(t))) <==> forall i :: 0 <= i < |t| ==> IsSeparator(t[i])
  {
    var sanitized := Sanitize(SeparatorsToSpaces(t));
    assert |sanitized| == |t|;
    forall i | 0 <= i < |t| ensures IsSpace(sanitized[i]) <==> IsSeparator(t[i]) {
    }
  }

  lemma LowerAllSpaceIff(s: string)
    ensures AllSpace(Lower(s)) <==> AllSpace(s)
  {
    forall i | 0 <= i < |s| ensures IsSpace(Lower(s)[i]) <==> IsSpace(s[i]) {
      LowerCharSpace(s[i]);
    }
  }

  /** The steps after the "__" pass give the empty header exactly on all-whitespace input. */
  lemma EmptyAfterCollapseIff(collapsed: string)
    ensures Join('_', DropEmpty(Words(Lower(collapsed)))) == [] <==> AllSpace(Lower(collapsed))
  {
    var lowered := Lower(collapsed);
    var words := Words(lowered);
    WordsEmptyIff(lowered);
    WordsShape(lowered);
    DropEmptyKeepsNonEmpty(words);
    JoinEmptyIff(words);
  }

  /** `strip()` returns a contiguous slice of its input. */
  lemma StripIsSlice(s: string) returns (k: nat)
    ensures k + |Strip(s)| <= |s|
    ensures forall i :: 0 <= i < |Strip(s)| ==> Strip(s)[i] == s[k + i]
  {
    var left := StripLeft(s);
    k := |s| - |left|;
  }

  /**
   * A header made only of separators, or only of whitespace, normalises to
   * the empty string.
   */
  lemma ToSnakeOfSeparatorsIsEmpty(s: string)
    requires (forall i :: 0 <= i < |s| ==> IsSeparator(s[i])) || AllSpace(s)
    ensures ToSnake(s) == []
  {
    var k := StripIsSlice(s);
    if AllSpace(s) {
      assert StripLeft(s) == [];
    }
    ToSnakeEmptyIff(s);
  }

  // ---------------------------------------------------------------------
  // The single "__" -> "_" pass
  // ---------------------------------------------------------------------

  function Underscores(n: nat): (r: string)
    ensures |r| == n && forall i :: 0 <= i < n ==> r[i] == '_'
  {
    seq(n, _ => '_')
  }

  /**
   * A maximal run of n underscores becomes a run of ceil(n / 2) underscores:
   * "__" pairs are rewritten left to right and never overlap.
   */
  lemma {:induction false} CollapseRun(n: nat, rest: string)
    requires rest == [] || rest[0] != '_'
    ensures CollapseUnderscores(Underscores(n) + rest) == Underscores((n + 1) / 2) + CollapseUnderscores(rest)
    decreases n
  {
    var s := Underscores(n) + rest;
    if n == 0 {
      assert s == rest;
    } else if n == 1 {
      assert s[0] == '_' && s[1..] == rest;
      assert Underscores(1) == "_";
    } else {
      assert s[0] == '_' && s[1] == '_';
      assert s[2..] == Underscores(n - 2) + rest;
      CollapseRun(n - 2, rest);
      assert Underscores((n + 1) / 2) == "_" + Underscores((n - 2 + 1) / 2);
    }
  }

  /** A character other than '_' is copied unchanged by the "__" pass. */
  lemma CollapseOther(c: char, rest: string)
    requires c != '_'
    ensures CollapseUnderscores([c] + rest) == [c] + CollapseUnderscores(rest)
  {
    assert ([c] + rest)[1..] == rest;
  }

  /** Without a '_' there is nothing for the "__" pass to rewrite. */
  lemma {:induction false} CollapseWithoutUnderscore(s: string)
    requires forall i :: 0 <= i < |s| ==> s[i] != '_'
    ensures CollapseUnderscores(s) == s
    decreases |s|
  {
    if s != [] {
      CollapseWithoutUnderscore(s[1..]);
      CollapseOther(s[0], s[1..]);
      assert s == [s[0]] + s[1..];
    }
  }

  /** A non-empty string keeps a non-empty result under the "__" pass. */
  lemma CollapseNonEmpty(s: string)
    requires s != []
    ensures CollapseUnderscores(s) != []
  {
  }

  /** `strip()` leaves a string alone when it neither starts nor ends with whitespace. */
  lemma StripUnchanged(s: string)
    requires s == [] || (!IsSpace(s[0]) && !IsSpace(s[|s| - 1]))
    ensures Strip(s) == s
  {
    assert StripLeft(s) == s;
  }

  /** A non-empty string without whitespace is a single word for `split()`. */
  lemma WordsOfOneWord(w: string)
    requires w != [] && forall i :: 0 <= i < |w| ==> !IsSpace(w[i])
    ensures Words(w) == [w]
  {
    WordsFirst(w, []);
    assert w + [] == w;
  }

  /**
   * On a string made of lower-case letters, digits and '_' (for instance an
   * output of `to_snake`), `to_snake` only performs the single "__" -> "_" pass.
   */
  lemma ToSnakeOfSnake(s: string)
    requires forall i :: 0 <= i < |s| ==> IsSnakeChar(s[i])
    ensures ToSnake(s) == CollapseUnderscores(s)
  {
    if s == [] {
      ToSnakeOfSeparatorsIsEmpty(s);
    } else {
      NonEmptySnake(s);
    }
  }

  lemma NonEmptySnake(s: string)
    requires s != [] && forall i :: 0 <= i < |s| ==> IsSnakeChar(s[i])
    ensures ToSnake(s) == CollapseUnderscores(s)
  {
    SnakeBeforeCollapse(s);
    SnakeAfterCollapse(s);
    var collapsed := CollapseUnderscores(s);
    ToSnakeSteps(s, s, collapsed, [collapsed]);
    JoinOfOne(collapsed);
  }

  lemma SnakeBeforeCollapse(s: string)
    requires forall i :: 0 <= i < |s| ==> IsSnakeChar(s[i])
    ensures Sanitize(SeparatorsToSpaces(Strip(s))) == s
  {
    StripUnchanged(s);
    SnakeCharsUnchanged(s);
  }

  lemma SnakeAfterCollapse(s: string)
    requires s != [] && forall i :: 0 <= i < |s| ==> IsSnakeChar(s[i])
    ensures Words(Lower(CollapseUnderscores(s))) == [CollapseUnderscores(s)]
  {
    var collapsed := CollapseUnderscores(s);
    CollapseNonEmpty(s);
    CollapseKeepsSnake(s);
    SnakeCharsUnchanged(collapsed);
    WordsOfOneWord(collapsed);
  }

  lemma JoinOfOne(w: string)
    ensures Join('_', DropEmpty([w])) == w
  {
  }

  /** How `to_snake` composes its steps, for proofs that compute them one by one. */
  lemma ToSnakeSteps(s: string, sanitized: string, collapsed: string, words: seq<string>)
    requires Sanitize(SeparatorsToSpaces(Strip(s))) == sanitized
    requires CollapseUnderscores(sanitized) == collapsed
    requires Words(Lower(collapsed)) == words
    ensures ToSnake(s) == Join('_', DropEmpty(words))
  {
  }

  /** The steps before the "__" pass and `lower()` do not touch snake-case characters. */
  lemma SnakeCharsUnchanged(s: string)
    requires forall i :: 0 <= i < |s| ==> IsSnakeChar(s[i])
    ensures SeparatorsToSpaces(s) == s && Sanitize(s) == s && Lower(s) == s
  {
  }

  lemma CollapseKeepsSnake(s: string)
    requires forall i :: 0 <= i < |s| ==> IsSnakeChar(s[i])
    ensures forall i :: 0 <= i < |CollapseUnderscores(s)| ==> IsSnakeChar(CollapseUnderscores(s)[i])
  {
    var collapsed := CollapseUnderscores(s);
    CollapseKeepsChars(s);
    assert forall i :: 0 <= i < |collapsed| ==> collapsed[i] in collapsed;
  }

  /**
   * Applying `to_snake` to its own output performs one more "__" pass; the
   * function is therefore not idempotent on outputs that still contain "__".
   */
  lemma ToSnakeTwice(s: string)
    ensures ToSnake(ToSnake(s)) == CollapseUnderscores(ToSnake(s))
  {
    ToSnakeCharset(s);
    var once := ToSnake(s);
    assert forall i :: 0 <= i < |once| ==> once[i] in once;
    ToSnakeOfSnake(once);
  }

  /**
   * `to_snake` is not idempotent: "a___b" normalises to "a__b", which
   * normalises further to "a_b".
   */
  lemma ToSnakeNotIdempotent(s: string)
    requires s == "a___b"
    ensures ToSnake(s) == "a__b"
    ensures ToSnake(ToSnake(s)) == "a_b"
  {
    UnderscoreExamples(s);
    var once := ToSnakeLetterRun(s, 'a', 'b', 3);
    var twice := ToSnakeLetterRun(once, 'a', 'b', 2);
  }

  /**
   * `to_snake` on a lower-case letter or digit, a run of n underscores and
   * another lower-case letter or digit halves the run, rounding up.
   */
  lemma ToSnakeLetterRun(s: string, x: char, y: char, n: nat) returns (r: string)
    requires IsLowerAlnum(x) && IsLowerAlnum(y) && s == [x] + Underscores(n) + [y]
    ensures r == [x] + Underscores((n + 1) / 2) + [y] && ToSnake(s) == r
  {
    r := CollapseAfterLetter(s, x, y, n);
    ToSnakeOfSnake(s);
  }

  lemma UnderscoreExamples(s: string)
    requires s == "a___b"
    ensures s == "a" + Underscores(3) + "b"
    ensures "a" + Underscores(2) + "b" == "a__b"
    ensures "a" + Underscores(1) + "b" == "a_b"
  {
  }

  /** The "__" pass on a letter or digit, a run of n underscores and another letter or digit. */
  lemma CollapseAfterLetter(s: string, x: char, y: char, n: nat) returns (r: string)
    requires IsLowerAlnum(x) && IsLowerAlnum(y) && s == [x] + Underscores(n) + [y]
    ensures forall i :: 0 <= i < |s| ==> IsSnakeChar(s[i])
    ensures r == [x] + Underscores((n + 1) / 2) + [y] && CollapseUnderscores(s) == r
  {
    CollapseOther(x, Underscores(n) + [y]);
    CollapseRun(n, [y]);
    CollapseOther(y, []);
    assert s == [x] + (Underscores(n) + [y]);
    r := [x] + Underscores((n + 1) / 2) + [y];
  }

  /** A lower-case letter or a digit: the characters of a word of a normalised header. */
  predicate IsLowerAlnum(c: char) {
    'a' <= c <= 'z' || '0' <= c <= '9'
  }

  /**
   * Two lower-case words joined by any one separator (' ', '/', '-' or '.')
   * normalise to the same header: the words joined by '_'.
   */
  lemma ToSnakeTwoWords(a: string, b: string, sep: char)
    requires a != [] && forall i :: 0 <= i < |a| ==> IsLowerAlnum(a[i])
    requires b != [] && forall i :: 0 <= i < |b| ==> IsLowerAlnum(b[i])
    requires IsSeparator(sep)
    ensures ToSnake(a + [sep] + b) == a + "_" + b
  {
    var spaced := TwoWordsSanitized(a, b, sep);
    TwoWordsSplit(a, b);
    ToSnakeSteps(a + [sep] + b, spaced, spaced, [a, b]);
    JoinPair(a, b);
  }

  lemma TwoWordsSanitized(a: string, b: string, sep: char) returns (spaced: string)
    requires a != [] && forall i :: 0 <= i < |a| ==> IsLowerAlnum(a[i])
    requires b != [] && forall i :: 0 <= i < |b| ==> IsLowerAlnum(b[i])
    requires IsSeparator(sep)
    ensures spaced == a + " " + b
    ensures Sanitize(SeparatorsToSpaces(Strip(a + [sep] + b))) == spaced
    ensures CollapseUnderscores(spaced) == spaced
  {
    TwoWordsStripped(a, b, sep);
    spaced := a + " " + b;
    TwoWordsSpaced(a, b, sep);
    TwoWordsNoUnderscore(a, b);
  }

  lemma TwoWordsStripped(a: string, b: string, sep: char)
    requires a != [] && forall i :: 0 <= i < |a| ==> IsLowerAlnum(a[i])
    requires b != [] && forall i :: 0 <= i < |b| ==> IsLowerAlnum(b[i])
    ensures Strip(a + [sep] + b) == a + [sep] + b
  {
    var s := a + [sep] + b;
    assert s[0] == a[0] && s[|s| - 1] == b[|b| - 1];
    StripUnchanged(s);
  }

  lemma TwoWordsSpaced(a: string, b: string, sep: char)
    requires forall i :: 0 <= i < |a| ==> IsLowerAlnum(a[i])
    requires forall i :: 0 <= i < |b| ==> IsLowerAlnum(b[i])
    requires IsSeparator(sep)
    ensures SeparatorsToSpaces(a + [sep] + b) == a + " " + b
    ensures Sanitize(a + " " + b) == a + " " + b
  {
  }

  lemma TwoWordsNoUnderscore(a: string, b: string)
    requires forall i :: 0 <= i < |a| ==> IsLowerAlnum(a[i])
    requires forall i :: 0 <= i < |b| ==> IsLowerAlnum(b[i])
    ensures CollapseUnderscores(a + " " + b) == a + " " + b
  {
    TwoWordsLowerAlnum(a, b);
    CollapseWithoutUnderscore(a + " " + b);
  }

  lemma TwoWordsLowerAlnum(a: string, b: string)
    requires forall i :: 0 <= i < |a| ==> IsLowerAlnum(a[i])
    requires forall i :: 0 <= i < |b| ==> IsLowerAlnum(b[i])
    ensures forall i :: 0 <= i < |a + " " + b| ==> (a + " " + b)[i] != '_'
  {
    var s := a + " " + b;
    forall i | 0 <= i < |s| ensures s[i] != '_' {
      if i < |a| {
        assert s[i] == a[i];
      } else if i > |a| {
        assert s[i] == b[i - |a| - 1];
      }
    }
  }

  lemma TwoWordsSplit(a: string, b: string)
    requires a != [] && forall i :: 0 <= i < |a| ==> IsLowerAlnum(a[i])
    requires b != [] && forall i :: 0 <= i < |b| ==> IsLowerAlnum(b[i])
    ensures Words(Lower(a + " " + b)) == [a, b]
  {
    assert Lower(a + " " + b) == a + " " + b;
    WordsPair(a, b);
  }

  lemma JoinPair(a: string, b: string)
    requires a != [] && b != []
    ensures Join('_', DropEmpty([a, b])) == a + "_" + b
  {
    assert [a, b][1..] == [b] && [b][1..] == [];
    assert DropEmpty([b]) == [b];
    assert DropEmpty([a, b]) == [a, b];
  }

  // ---------------------------------------------------------------------
  // Case does not matter
  // ---------------------------------------------------------------------

  lemma LowerTail(s: string)
    requires s != []
    ensures Lower(s)[1..] == Lower(s[1..]) && Lower(s)[..|s| - 1] == Lower(s[..|s| - 1])
  {
  }

  /** Lower-casing neither creates nor removes whitespace. */
  lemma LowerCharSpace(c: char)
    ensures IsSpace(LowerChar(c)) <==> IsSpace(c)
  {
  }

  lemma {:induction false} StripLeftLower(s: string)
    ensures StripLeft(Lower(s)) == Lower(StripLeft(s))
    decreases |s|
  {
    var l := Lower(s);
    if s == [] {
      assert l == [];
    } else {
      LowerTail(s);
      LowerCharSpace(s[0]);
      assert l[0] == LowerChar(s[0]);
      if IsSpace(s[0]) {
        StripLeftLower(s[1..]);
        StripLeftStep(l);
        StripLeftStep(s);
      } else {
        StripLeftStop(l);
        StripLeftStop(s);
      }
    }
  }

  lemma StripLeftStep(s: string)
    requires s != [] && IsSpace(s[0])
    ensures StripLeft(s) == StripLeft(s[1..])
  {
  }

  lemma StripLeftStop(s: string)
    requires s != [] && !IsSpace(s[0])
    ensures StripLeft(s) == s
  {
  }

  lemma {:induction false} StripRightLower(s: string)
    ensures StripRight(Lower(s)) == Lower(StripRight(s))
    decreases |s|
  {
    var l := Lower(s);
    if s == [] {
      assert l == [];
    } else {
      LowerTail(s);
      LowerCharSpace(s[|s| - 1]);
      assert l[|s| - 1] == LowerChar(s[|s| - 1]);
      if IsSpace(s[|s| - 1]) {
        StripRightLower(s[..|s| - 1]);
        StripRightStep(l);
        StripRightStep(s);
      } else {
        StripRightStop(l);
        StripRightStop(s);
      }
    }
  }

  lemma StripRightStep(s: string)
    requires s != [] && IsSpace(s[|s| - 1])
    ensures StripRight(s) == StripRight(s[..|s| - 1])
  {
  }

  lemma StripRightStop(s: string)
    requires s != [] && !IsSpace(s[|s| - 1])
    ensures StripRight(s) == s
  {
  }

  lemma {:induction false} CollapseLower(s: string)
    ensures CollapseUnderscores(Lower(s)) == Lower(CollapseUnderscores(s))
    decreases |s|
  {
    var l := Lower(s);
    if |s| >= 2 && s[0] == '_' && s[1] == '_' {
      assert l[2..] == Lower(s[2..]);
      CollapseLower(s[2..]);
      assert Lower("_" + CollapseUnderscores(s[2..])) == "_" + Lower(CollapseUnderscores(s[2..]));
    } else if s != [] {
      LowerTail(s);
      CollapseLower(s[1..]);
      assert Lower([s[0]] + CollapseUnderscores(s[1..])) == [l[0]] + Lower(CollapseUnderscores(s[1..]));
    }
  }

  /** `to_snake` ignores case: a header and its lower-cased form normalise alike. */
  lemma ToSnakeIgnoresCase(s: string)
    ensures ToSnake(Lower(s)) == ToSnake(s)
  {
    var sanitized := LowerBeforeCollapse(s);
    CollapseLower(sanitized);
    var collapsed := CollapseUnderscores(sanitized);
    LowerTwice(collapsed);
    ToSnakeSteps(Lower(s), Lower(sanitized), Lower(collapsed), Words(Lower(collapsed)));
  }

  /** Lower-casing commutes with the steps before the "__" pass. */
  lemma LowerBeforeCollapse(s: string) returns (sanitized: string)
    ensures sanitized == Sanitize(SeparatorsToSpaces(Strip(s)))
    ensures Sanitize(SeparatorsToSpaces(Strip(Lower(s)))) == Lower(sanitized)
  {
    StripLower(s);
    var t := Strip(s);
    SeparatorsLower(t);
    var spaced := SeparatorsToSpaces(t);
    SanitizeLower(spaced);
    sanitized := Sanitize(spaced);
  }

  lemma StripLower(s: string)
    ensures Strip(Lower(s)) == Lower(Strip(s))
  {
    StripLeftLower(s);
    StripRightLower(StripLeft(s));
  }

  lemma SeparatorsLower(s: string)
    ensures SeparatorsToSpaces(Lower(s)) == Lower(SeparatorsToSpaces(s))
  {
  }

  lemma SanitizeLower(s: string)
    ensures Sanitize(Lower(s)) == Lower(Sanitize(s))
  {
  }

  lemma LowerTwice(s: string)
    ensures Lower(Lower(s)) == Lower(s)
  {
  }

  /** The header "Arr Flights" normalises to "arr_flights". */
  lemma ToSnakeSpacedExample(s: string)
    requires s == "Arr Flights"
    ensures ToSnake(s) == "arr_flights"
  {
    var arr, flights := ExampleWords();
    var lowered := LowerExample(s, arr, flights);
    ToSnakeIgnoresCase(s);
    ToSnakeTwoWords(arr, flights, ' ');
  }

  /** The header "arr-flights" normalises to "arr_flights" as well. */
  lemma ToSnakeHyphenExample(s: string)
    requires s == "arr-flights"
    ensures ToSnake(s) == "arr_flights"
  {
    var arr, flights := ExampleWords();
    assert s == arr + ['-'] + flights;
    ToSnakeTwoWords(arr, flights, '-');
  }

  lemma LowerExample(s: string, arr: string, flights: string) returns (lowered: string)
    requires s == "Arr Flights" && arr == "arr" && flights == "flights"
    ensures lowered == Lower(s) && lowered == arr + [' '] + flights
  {
    lowered := Lower(s);
  }

  /** The two words of the examples above, as snake-case words. */
  lemma ExampleWords() returns (arr: string, flights: string)
    ensures arr == "arr" && flights == "flights"
    ensures forall i :: 0 <= i < |arr| ==> IsLowerAlnum(arr[i])
    ensures forall i :: 0 <= i < |flights| ==> IsLowerAlnum(flights[i])
    ensures arr + "_" + flights == "arr_flights"
  {
    arr, flights := "arr", "flights";
  }

  /** Two words separated by one space split into exactly those two words. */
  lemma WordsPair(a: string, b: string)
    requires a != [] && forall i :: 0 <= i < |a| ==> !IsSpace(a[i])
    requires b != [] && forall i :: 0 <= i < |b| ==> !IsSpace(b[i])
    ensures Words(a + " " + b) == [a, b]
  {
    WordsFirst(a, " " + b);
    assert a + " " + b == a + (" " + b);
    assert (" " + b)[1..] == b;
    WordsOfOneWord(b);
  }
}
