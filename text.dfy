/** Specification of searching and ordering over plain character sequences.
    Everything a string view reads through its pointer is one of these sequences;
    the view's search and compare loops are proved against the functions here. */
module Text {

  /** The not-found sentinel `npos == size_type(-1)` of a 64-bit target. No valid
      size or index reaches it. */
  const NPOS: nat := 0xFFFF_FFFF_FFFF_FFFF

  function Min(a: nat, b: nat): nat
  {
    if a <= b then a else b
  }

  /** `needle` occurs in `s` starting at index `k`. */
  predicate Occurs(s: seq<char>, needle: seq<char>, k: nat)
  {
    k + |needle| <= |s| && s[k..k + |needle|] == needle
  }

  /** An occurrence in a suffix of `s` is an occurrence in `s`, shifted by the suffix's start. */
  lemma OccursShift(s: seq<char>, needle: seq<char>, start: nat, j: nat)
    requires start <= |s|
    ensures Occurs(s[start..], needle, j) <==> Occurs(s, needle, start + j)
  {
    if j + |needle| <= |s| - start {
      assert s[start..][j..j + |needle|] == s[start + j..start + j + |needle|];
    }
  }

  /** A one-character needle occurs exactly where that character stands. */
  lemma OccursChar(s: seq<char>, ch: char, j: nat)
    ensures Occurs(s, [ch], j) <==> j < |s| && s[j] == ch
  {
    if j < |s| {
      assert s[j..j + 1] == [s[j]];
    }
  }

  // ---------------------------------------------------------------------------
  // Forward search

  /** The forward scan from `i`: the first position whose window matches, or
      NPOS once the rest of `s` is shorter than the needle. */
  function FirstFrom(s: seq<char>, needle: seq<char>, i: nat): nat
    decreases |s| + 1 - i
  {
    if |s| < i + |needle| then NPOS
    else if s[i..i + |needle|] == needle then i
    else FirstFrom(s, needle, i + 1)
  }

  /** The scan from `i` finds the least occurrence at or after `i`, or NPOS
      when there is none. */
  lemma {:induction false} FirstFromSpec(s: seq<char>, needle: seq<char>, i: nat)
    requires |s| < NPOS
    ensures var k := FirstFrom(s, needle, i);
            && (k != NPOS ==> i <= k && Occurs(s, needle, k))
            && (forall j: nat :: i <= j < k ==> !Occurs(s, needle, j))
    decreases |s| + 1 - i
  {
    if i + |needle| <= |s| && s[i..i + |needle|] != needle {
      FirstFromSpec(s, needle, i + 1);
    }
  }

  /** The first occurrence of `needle` in `s`, or NPOS. */
  function FirstOf(s: seq<char>, needle: seq<char>): nat
    requires |s| < NPOS
  {
    FirstFrom(s, needle, 0)
  }

  /** The forward search finds the least occurrence, and NPOS exactly when
      there is none. */
  lemma FirstOfSpec(s: seq<char>, needle: seq<char>)
    requires |s| < NPOS
    ensures var k := FirstOf(s, needle);
            && (k != NPOS ==> Occurs(s, needle, k) && forall j: nat :: Occurs(s, needle, j) ==> k <= j)
            && (k == NPOS <==> forall j: nat :: !Occurs(s, needle, j))
  {
    FirstFromSpec(s, needle, 0);
  }

  /** Searching the suffix `s[start..]` is searching `s` from `start`, shifted. */
  lemma FirstOfSuffix(s: seq<char>, needle: seq<char>, start: nat)
    requires |s| < NPOS && start <= |s|
    ensures var k := FirstFrom(s, needle, start);
            FirstOf(s[start..], needle) == if k == NPOS then NPOS else k - start
  {
    var f := FirstOf(s[start..], needle);
    var k := FirstFrom(s, needle, start);
    FirstOfSpec(s[start..], needle);
    FirstFromSpec(s, needle, start);
    forall j: nat
      ensures Occurs(s[start..], needle, j) <==> Occurs(s, needle, start + j)
    {
      OccursShift(s, needle, start, j);
    }
    if k != NPOS {
      assert Occurs(s[start..], needle, k - start);
    }
  }

  /** The two clauses of FirstOfSpec determine the forward search's value. */
  lemma FirstOfUnique(s: seq<char>, needle: seq<char>, k: nat)
    requires |s| < NPOS
    requires k != NPOS ==> Occurs(s, needle, k)
    requires forall j: nat :: j < k ==> !Occurs(s, needle, j)
    ensures FirstOf(s, needle) == k
  {
    FirstOfSpec(s, needle);
  }

  /** A needle that starts with the character at `i` and matches the rest of
      `s[i..]` occurs at `i`: the quick first-character check loses nothing. */
  lemma MatchAt(s: seq<char>, needle: seq<char>, i: nat)
    requires i < |s| && |needle| > 0
    ensures (s[i] == needle[0] && |needle| <= |s[i..]| && s[i..][..|needle|] == needle)
            <==> Occurs(s, needle, i)
  {
    if i + |needle| <= |s| {
      assert s[i..][..|needle|] == s[i..i + |needle|];
    }
  }

  // ---------------------------------------------------------------------------
  // Backward search

  /** The backward scan from `i`: the greatest occurrence strictly below `i`,
      or NPOS when there is none. */
  function LastBelow(s: seq<char>, needle: seq<char>, i: nat): nat
    decreases i
  {
    if i == 0 then NPOS
    else if Occurs(s, needle, i - 1) then i - 1
    else LastBelow(s, needle, i - 1)
  }

  /** The scan below `i` finds the greatest occurrence below `i`, or NPOS when
      there is none. */
  lemma {:induction false} LastBelowSpec(s: seq<char>, needle: seq<char>, i: nat)
    requires i <= NPOS
    ensures var k := LastBelow(s, needle, i);
            && (k != NPOS ==> k < i && Occurs(s, needle, k))
            && (forall j: nat :: k < j < i ==> !Occurs(s, needle, j))
            && (k == NPOS ==> forall j: nat :: j < i ==> !Occurs(s, needle, j))
    decreases i
  {
    if i > 0 && !Occurs(s, needle, i - 1) {
      LastBelowSpec(s, needle, i - 1);
    }
  }

  /** The last occurrence of `needle` in `s`, or NPOS. The empty needle's last
      occurrence is at `|s|`. */
  function LastOf(s: seq<char>, needle: seq<char>): nat
    requires |s| < NPOS
  {
    if |s| < |needle| then NPOS else LastBelow(s, needle, |s| - |needle| + 1)
  }

  /** The backward search finds the greatest occurrence, and NPOS exactly when
      there is none. */
  lemma LastOfSpec(s: seq<char>, needle: seq<char>)
    requires |s| < NPOS
    ensures var k := LastOf(s, needle);
            && (k != NPOS ==> Occurs(s, needle, k) && forall j: nat :: Occurs(s, needle, j) ==> j <= k)
            && (k == NPOS <==> forall j: nat :: !Occurs(s, needle, j))
  {
    if |needle| <= |s| {
      LastBelowSpec(s, needle, |s| - |needle| + 1);
    }
  }

  /** The clauses of LastOfSpec determine the backward search's value. */
  lemma LastOfUnique(s: seq<char>, needle: seq<char>, k: nat)
    requires |s| < NPOS
    requires k != NPOS ==> Occurs(s, needle, k)
    requires forall j: nat :: k < j ==> !Occurs(s, needle, j)
    requires k == NPOS ==> forall j: nat :: !Occurs(s, needle, j)
    ensures LastOf(s, needle) == k
  {
    LastOfSpec(s, needle);
  }

  /** A one-character search finds `ch` exactly when `ch` is in `s`. */
  lemma FirstOfChar(s: seq<char>, ch: char)
    requires |s| < NPOS
    ensures FirstOf(s, [ch]) != NPOS <==> ch in s
  {
    FirstOfSpec(s, [ch]);
    forall j: nat
      ensures Occurs(s, [ch], j) <==> j < |s| && s[j] == ch
    {
      OccursChar(s, ch, j);
    }
  }

  /** With two distinct occurrences the first and the last search disagree. */
  lemma FirstBeforeLast(s: seq<char>, needle: seq<char>, j1: nat, j2: nat)
    requires |s| < NPOS
    requires j1 < j2 && Occurs(s, needle, j1) && Occurs(s, needle, j2)
    ensures FirstOf(s, needle) <= j1 < j2 <= LastOf(s, needle) != NPOS
  {
    FirstOfSpec(s, needle);
    LastOfSpec(s, needle);
  }

  // ---------------------------------------------------------------------------
  // All occurrences, and the n-th one

  /** Every occurrence at or after `i`, lowest first (overlapping ones included). */
  function OccurrencesFrom(s: seq<char>, needle: seq<char>, i: nat): seq<nat>
    decreases |s| + 1 - i
  {
    if |s| < i then []
    else if Occurs(s, needle, i) then [i] + OccurrencesFrom(s, needle, i + 1)
    else OccurrencesFrom(s, needle, i + 1)
  }

  /** The list holds exactly the occurrences at or after `i`. */
  lemma {:induction false} OccurrencesFromMembers(s: seq<char>, needle: seq<char>, i: nat)
    ensures forall j: nat :: j in OccurrencesFrom(s, needle, i) <==> i <= j && Occurs(s, needle, j)
    decreases |s| + 1 - i
  {
    if |s| >= i {
      OccurrencesFromMembers(s, needle, i + 1);
    }
  }

  /** The list starts at `i` or later and strictly increases. */
  lemma {:induction false} OccurrencesFromSorted(s: seq<char>, needle: seq<char>, i: nat)
    ensures forall p :: 0 <= p < |OccurrencesFrom(s, needle, i)| ==> i <= OccurrencesFrom(s, needle, i)[p]
    ensures forall p, q :: 0 <= p < q < |OccurrencesFrom(s, needle, i)| ==>
              OccurrencesFrom(s, needle, i)[p] < OccurrencesFrom(s, needle, i)[q]
    decreases |s| + 1 - i
  {
    if |s| >= i {
      OccurrencesFromSorted(s, needle, i + 1);
      var rest := OccurrencesFrom(s, needle, i + 1);
      if Occurs(s, needle, i) {
        var o := [i] + rest;
        assert OccurrencesFrom(s, needle, i) == o;
        assert forall p :: 0 < p < |o| ==> o[p] == rest[p - 1];
      }
    }
  }

  /** No occurrence at or after `i` leaves nothing to list. */
  lemma {:induction false} NoOccurrencesFrom(s: seq<char>, needle: seq<char>, i: nat)
    requires forall j: nat :: i <= j ==> !Occurs(s, needle, j)
    ensures OccurrencesFrom(s, needle, i) == []
    decreases |s| + 1 - i
  {
    if i <= |s| {
      NoOccurrencesFrom(s, needle, i + 1);
    }
  }

  /** Skipping a stretch with no occurrence up to the occurrence at `g`. */
  lemma {:induction false} OccurrencesSkip(s: seq<char>, needle: seq<char>, i: nat, g: nat)
    requires i <= g && Occurs(s, needle, g)
    requires forall j: nat :: i <= j < g ==> !Occurs(s, needle, j)
    ensures OccurrencesFrom(s, needle, i) == [g] + OccurrencesFrom(s, needle, g + 1)
    decreases g - i
  {
    if i < g {
      OccurrencesSkip(s, needle, i + 1, g);
    }
  }

  /** The result of searching repeatedly, each search restarting one character
      past the start of the previous match: the index (into `s`) of the `m`-th
      match counted from the haystack `s[start..]`, or NPOS. A haystack shorter
      than the needle ends the search; a restart past the end clamps to `|s|`. */
  function NthFrom(s: seq<char>, needle: seq<char>, start: nat, m: nat): (k: nat)
    requires |s| < NPOS && start <= |s|
    decreases m
  {
    if |s| - start < |needle| then NPOS
    else
      var k := FirstFrom(s, needle, start);
      if k == NPOS then NPOS
      else if m == 0 then k
      else NthFrom(s, needle, Min(k + 1, |s|), m - 1)
  }

  /** One round of the repeated search, as the search loop takes it. */
  lemma NthFromStep(s: seq<char>, needle: seq<char>, start: nat, m: nat)
    requires |s| < NPOS && start <= |s|
    ensures var k := FirstFrom(s, needle, start);
            NthFrom(s, needle, start, m) ==
              if |s| - start < |needle| || k == NPOS then NPOS
              else if m == 0 then k
              else NthFrom(s, needle, Min(k + 1, |s|), m - 1)
  {
  }

  /** What one round of the search loop learns from `found`, the result of a
      forward search of the haystack `s[start..]`. */
  lemma NthFromRound(s: seq<char>, needle: seq<char>, start: nat, m: nat, found: nat)
    requires |s| < NPOS && start <= |s| && |needle| <= |s| - start
    requires found == FirstOf(s[start..], needle)
    ensures found == NPOS ==> NthFrom(s, needle, start, m) == NPOS
    ensures found != NPOS && m == 0 ==> NthFrom(s, needle, start, m) == start + found
    ensures found != NPOS && m > 0 ==>
              NthFrom(s, needle, start, m) == NthFrom(s, needle, Min(start + found + 1, |s|), m - 1)
  {
    FirstOfSuffix(s, needle, start);
    FirstFromSpec(s, needle, start);
    NthFromStep(s, needle, start, m);
  }

  /** The first search of the sequence is a plain forward search. */
  lemma NthZeroIsFirst(s: seq<char>, needle: seq<char>)
    requires |s| < NPOS
    ensures NthFrom(s, needle, 0, 0) == FirstOf(s, needle)
  {
    if |s| < |needle| {
      assert forall j: nat :: !Occurs(s, needle, j);
    }
  }

  /** A forward search from `start` yields the head of the occurrences at or
      after `start`. */
  lemma FirstFromHead(s: seq<char>, needle: seq<char>, start: nat)
    requires |s| < NPOS
    ensures var k := FirstFrom(s, needle, start);
            OccurrencesFrom(s, needle, start) ==
              if k == NPOS then [] else [k] + OccurrencesFrom(s, needle, k + 1)
  {
    var k := FirstFrom(s, needle, start);
    FirstFromSpec(s, needle, start);
    if k == NPOS {
      NoOccurrencesFrom(s, needle, start);
    } else {
      OccurrencesSkip(s, needle, start, k);
    }
  }

  /** Indexing the occurrences from `start`: the first is the forward search's
      result, and the `m`-th is the `m - 1`-th of those after it. */
  lemma OccurrencesIndex(s: seq<char>, needle: seq<char>, start: nat, m: nat)
    requires |s| < NPOS
    ensures var k := FirstFrom(s, needle, start);
            var o := OccurrencesFrom(s, needle, start);
            var rest := OccurrencesFrom(s, needle, k + 1);
            && (k == NPOS ==> |o| == 0)
            && (k != NPOS ==> |o| == |rest| + 1 && o[0] == k && (0 < m < |o| ==> o[m] == rest[m - 1]))
  {
    FirstFromHead(s, needle, start);
  }

  /** For a non-empty needle the repeated search finds exactly the `m`-th
      occurrence at or after `start`, overlapping occurrences included, and
      NPOS when there are at most `m` of them. */
  lemma {:induction false} NthFromIsOccurrence(s: seq<char>, needle: seq<char>, start: nat, m: nat)
    requires |s| < NPOS && start <= |s| && |needle| > 0
    ensures var o := OccurrencesFrom(s, needle, start);
            NthFrom(s, needle, start, m) == if m < |o| then o[m] else NPOS
    decreases m
  {
    var o := OccurrencesFrom(s, needle, start);
    var k := FirstFrom(s, needle, start);
    assert NthFrom(s, needle, start, m) ==
             if |s| - start < |needle| || k == NPOS then NPOS
             else if m == 0 then k
             else NthFrom(s, needle, Min(k + 1, |s|), m - 1) by {
      NthFromStep(s, needle, start, m);
    }
    OccurrencesIndex(s, needle, start, m);
    if k != NPOS && m > 0 {
      assert k + 1 <= |s| by { FirstFromSpec(s, needle, start); }
      NthFromIsOccurrence(s, needle, k + 1, m - 1);
    }
  }

  /** With the empty needle every search matches at once, so the `m`-th search
      from `start` lands on `start + m`, clamped to the end of `s`. */
  lemma {:induction false} NthFromEmptyNeedle(s: seq<char>, start: nat, m: nat)
    requires |s| < NPOS && start <= |s|
    ensures NthFrom(s, [], start, m) == Min(start + m, |s|)
    decreases m
  {
    assert Occurs(s, [], start);
    if m > 0 {
      NthFromEmptyNeedle(s, Min(start + 1, |s|), m - 1);
    }
  }

  /** Whatever the repeated search returns, other than NPOS, is an occurrence. */
  lemma NthIsOccurrence(s: seq<char>, needle: seq<char>, n: nat)
    requires |s| < NPOS
    ensures NthFrom(s, needle, 0, n) != NPOS ==> Occurs(s, needle, NthFrom(s, needle, 0, n))
  {
    if |needle| == 0 {
      NthFromEmptyNeedle(s, 0, n);
    } else {
      NthFromIsOccurrence(s, needle, 0, n);
      OccurrencesFromMembers(s, needle, 0);
      var o := OccurrencesFrom(s, needle, 0);
      if n < |o| {
        assert o[n] in o;
      }
    }
  }

  // ---------------------------------------------------------------------------
  // Lexicographic order

  /** Lexicographic comparison of `a[i..]` and `b[i..]` as -1, 0 or 1: the first
      differing character decides, otherwise the shorter sequence is less. */
  function LexFrom(a: seq<char>, b: seq<char>, i: nat): (r: int)
    requires i <= |a| && i <= |b|
    ensures -1 <= r <= 1
    ensures r == 0 <==> a[i..] == b[i..]
    decreases |a| - i
  {
    if i == |a| || i == |b| then
      (if |a| < |b| then -1 else if |a| > |b| then 1 else 0)
    else if a[i] < b[i] then
      assert a[i..][0] != b[i..][0];
      -1
    else if a[i] > b[i] then
      assert a[i..][0] != b[i..][0];
      1
    else
      var r := LexFrom(a, b, i + 1);
      assert a[i..] == [a[i]] + a[i + 1..] && b[i..] == [b[i]] + b[i + 1..];
      r
  }

  function Lex(a: seq<char>, b: seq<char>): (r: int)
    ensures r == -1 || r == 0 || r == 1
    ensures r == 0 <==> a == b
  {
    LexFrom(a, b, 0)
  }

  lemma {:induction false} LexFromAntisymmetric(a: seq<char>, b: seq<char>, i: nat)
    requires i <= |a| && i <= |b|
    ensures LexFrom(a, b, i) == -LexFrom(b, a, i)
    decreases |a| - i
  {
    if i < |a| && i < |b| && a[i] == b[i] {
      LexFromAntisymmetric(a, b, i + 1);
    }
  }

  /** Swapping the operands negates the comparison. */
  lemma LexAntisymmetric(a: seq<char>, b: seq<char>)
    ensures Lex(a, b) == -Lex(b, a)
  {
    LexFromAntisymmetric(a, b, 0);
  }

  /** The first position where the two sequences differ decides the comparison. */
  lemma LexFirstDifference(a: seq<char>, b: seq<char>, k: nat)
    requires k < |a| && k < |b| && a[..k] == b[..k] && a[k] != b[k]
    ensures Lex(a, b) == if a[k] < b[k] then -1 else 1
  {
    var i: nat := k;
    while i > 0
      invariant i <= k
      invariant LexFrom(a, b, i) == if a[k] < b[k] then -1 else 1
    {
      i := i - 1;
      assert a[..k][i] == b[..k][i];
    }
  }

  /** A proper prefix is less than the sequence it starts. */
  lemma LexProperPrefix(a: seq<char>, b: seq<char>)
    requires |a| < |b| && a == b[..|a|]
    ensures Lex(a, b) == -1
  {
    var i: nat := |a|;
    while i > 0
      invariant i <= |a|
      invariant LexFrom(a, b, i) == -1
    {
      i := i - 1;
      assert b[..|a|][i] == b[i];
    }
  }

  lemma {:induction false} LexFromTransitive(a: seq<char>, b: seq<char>, c: seq<char>, i: nat)
    requires i <= |a| && i <= |b| && i <= |c|
    requires LexFrom(a, b, i) < 0 && LexFrom(b, c, i) < 0
    ensures LexFrom(a, c, i) < 0
    decreases |a| - i
  {
    if i < |a| && i < |b| && i < |c| && a[i] == b[i] && b[i] == c[i] {
      LexFromTransitive(a, b, c, i + 1);
    }
  }

  /** The order is transitive, so with antisymmetry it is a strict total order. */
  lemma LexTransitive(a: seq<char>, b: seq<char>, c: seq<char>)
    requires Lex(a, b) < 0 && Lex(b, c) < 0
    ensures Lex(a, c) < 0
  {
    LexFromTransitive(a, b, c, 0);
  }
}
