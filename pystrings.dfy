/** The few Python string operations the mesh naming rule uses, with Python's
    semantics: `str.split(sep, maxsplit)`, `str.replace(old, new)` (a left to
    right scan replacing non-overlapping occurrences) and `str.endswith`.

    The split is defined by a scan over the original string: the parts are
    slices `s[j..i]` between separator positions, and the proofs reason about
    those positions.
 */
module PyStrings {

  /** Number of occurrences of `c` in `s[j..k]`, counted by position. */
  function CountIn(s: string, c: char, j: nat, k: nat): nat
    requires j <= k <= |s|
    decreases k - j
  {
    if j == k then 0 else CountIn(s, c, j, k - 1) + (if s[k - 1] == c then 1 else 0)
  }

  /** Number of occurrences of `c` in `s`. */
  function Count(s: string, c: char): nat {
    CountIn(s, c, 0, |s|)
  }

  /** Counting is additive over adjacent ranges. */
  lemma {:induction false} CountInSplit(s: string, c: char, j: nat, i: nat, k: nat)
    requires j <= i <= k <= |s|
    ensures CountIn(s, c, j, k) == CountIn(s, c, j, i) + CountIn(s, c, i, k)
    decreases k - i
  {
    if i < k {
      CountInSplit(s, c, j, i, k - 1);
    }
  }

  /** A range counts nothing exactly when none of its positions holds `c`. */
  lemma {:induction false} CountInZero(s: string, c: char, j: nat, k: nat)
    requires j <= k <= |s|
    ensures CountIn(s, c, j, k) == 0 <==> forall l :: j <= l < k ==> s[l] != c
    decreases k - j
  {
    if j < k {
      CountInZero(s, c, j, k - 1);
    }
  }

  /** A range that starts at an occurrence counts it and the rest. */
  lemma CountInFrom(s: string, c: char, i: nat, k: nat)
    requires i < k <= |s| && s[i] == c
    ensures CountIn(s, c, i, k) == 1 + CountIn(s, c, i + 1, k)
  {
    CountInSplit(s, c, i, i + 1, k);
  }

  /** Index of the first occurrence of `c` in `s` at or after `j`, or |s| when
      there is none. */
  function FindFrom(s: string, c: char, j: nat): (i: nat)
    requires j <= |s|
    ensures j <= i <= |s|
    ensures i < |s| ==> s[i] == c
    decreases |s| - j
  {
    if j == |s| then |s| else if s[j] == c then j else FindFrom(s, c, j + 1)
  }

  /** The scan passes no occurrence on its way. */
  lemma {:induction false} FindFromNoEarlier(s: string, c: char, j: nat)
    requires j <= |s|
    ensures forall k :: j <= k < FindFrom(s, c, j) ==> s[k] != c
    decreases |s| - j
  {
    if j < |s| && s[j] != c {
      FindFromNoEarlier(s, c, j + 1);
    }
  }

  /** The scan stops at the first occurrence at or after `j`. */
  lemma {:induction false} FindFromAt(s: string, c: char, j: nat, k: nat)
    requires j <= k < |s| && s[k] == c
    requires forall l :: j <= l < k ==> s[l] != c
    ensures FindFrom(s, c, j) == k
    decreases k - j
  {
    if j < k {
      FindFromAt(s, c, j + 1, k);
    }
  }

  /** The text the scan passes holds no occurrence. */
  lemma FindFromCount(s: string, c: char, j: nat)
    requires j <= |s|
    ensures CountIn(s, c, j, FindFrom(s, c, j)) == 0
    ensures FindFrom(s, c, j) == |s| ==> CountIn(s, c, j, |s|) == 0
  {
    FindFromNoEarlier(s, c, j);
    CountInZero(s, c, j, FindFrom(s, c, j));
  }

  /** The parts of `s[j..].split(sep, maxsplit)`: the text up to each of the
      first `maxsplit` separators, then the rest. */
  function SplitFrom(s: string, sep: char, j: nat, maxsplit: nat): (parts: seq<string>)
    requires j <= |s|
    ensures |parts| >= 1
    decreases |s| - j
  {
    var i := FindFrom(s, sep, j);
    if maxsplit == 0 || i == |s| then [s[j..]]
    else [s[j..i]] + SplitFrom(s, sep, i + 1, maxsplit - 1)
  }

  /** `s.split(sep, maxsplit)` for a one-character separator. */
  function Split(s: string, sep: char, maxsplit: nat): (parts: seq<string>)
    ensures |parts| >= 1
  {
    SplitFrom(s, sep, 0, maxsplit)
  }

  /** Where the last part of `s[j..].split(sep, maxsplit)` starts: an index into `s`. */
  function CutFrom(s: string, sep: char, j: nat, maxsplit: nat): (k: nat)
    requires j <= |s|
    ensures j <= k <= |s|
    decreases |s| - j
  {
    var i := FindFrom(s, sep, j);
    if maxsplit == 0 || i == |s| then j
    else CutFrom(s, sep, i + 1, maxsplit - 1)
  }

  /** Where the last part of `s.split(sep, maxsplit)` starts. */
  function SplitCut(s: string, sep: char, maxsplit: nat): (k: nat)
    ensures k <= |s|
  {
    CutFrom(s, sep, 0, maxsplit)
  }

  /** The last element of a non-empty list, `parts[-1]`. */
  function Last(parts: seq<string>): string
    requires |parts| >= 1
  {
    parts[|parts| - 1]
  }

  /** `sep.join(parts)`. */
  function Join(parts: seq<string>, sep: char): string {
    if parts == [] then []
    else if |parts| == 1 then parts[0]
    else parts[0] + [sep] + Join(parts[1..], sep)
  }

  /** Joining a part in front of at least one more. */
  lemma JoinCons(first: string, rest: seq<string>, sep: char)
    requires |rest| >= 1
    ensures Join([first] + rest, sep) == first + [sep] + Join(rest, sep)
  {
    assert ([first] + rest)[1..] == rest;
  }

  /** A separator at `s[i]`, the first at or after `j`: the text from `j` holds one
      more separator than the text after `i`. */
  lemma CountPastSeparator(s: string, sep: char, j: nat, i: nat, k: nat)
    requires j <= i < k <= |s| && s[i] == sep && CountIn(s, sep, j, i) == 0
    ensures CountIn(s, sep, j, k) == 1 + CountIn(s, sep, i + 1, k)
  {
    CountInSplit(s, sep, j, i, k);
    CountInFrom(s, sep, i, k);
  }

  /** min(total, m) one separator earlier. */
  lemma MinAfterOne(total: nat, restTotal: nat, m: nat)
    requires m > 0 && total == 1 + restTotal
    ensures (if total < m then total else m) == 1 + (if restTotal < m - 1 then restTotal else m - 1)
  {
  }

  lemma {:induction false} SplitFromLength(s: string, sep: char, j: nat, maxsplit: nat)
    requires j <= |s|
    ensures |SplitFrom(s, sep, j, maxsplit)|
         == 1 + (if CountIn(s, sep, j, |s|) < maxsplit then CountIn(s, sep, j, |s|) else maxsplit)
    decreases |s| - j
  {
    var i := FindFrom(s, sep, j);
    FindFromCount(s, sep, j);
    if maxsplit != 0 && i < |s| {
      assert |SplitFrom(s, sep, j, maxsplit)| == 1 + |SplitFrom(s, sep, i + 1, maxsplit - 1)|;
      SplitFromLength(s, sep, i + 1, maxsplit - 1);
      CountPastSeparator(s, sep, j, i, |s|);
      MinAfterOne(CountIn(s, sep, j, |s|), CountIn(s, sep, i + 1, |s|), maxsplit);
    }
  }

  /** The text the scan passes, as a slice, holds no occurrence. */
  lemma SliceBeforeFind(s: string, c: char, j: nat)
    requires j <= |s|
    ensures c !in s[j..FindFrom(s, c, j)]
  {
    FindFromNoEarlier(s, c, j);
    var passed := s[j..FindFrom(s, c, j)];
    assert forall l :: 0 <= l < |passed| ==> passed[l] == s[j + l];
  }

  lemma {:induction false} SplitFromPartsClean(s: string, sep: char, j: nat, maxsplit: nat)
    requires j <= |s|
    ensures forall k :: 0 <= k < |SplitFrom(s, sep, j, maxsplit)| - 1 ==> sep !in SplitFrom(s, sep, j, maxsplit)[k]
    decreases |s| - j
  {
    var i := FindFrom(s, sep, j);
    if maxsplit != 0 && i < |s| {
      var rest := SplitFrom(s, sep, i + 1, maxsplit - 1);
      assert SplitFrom(s, sep, j, maxsplit) == [s[j..i]] + rest;
      SliceBeforeFind(s, sep, j);
      SplitFromPartsClean(s, sep, i + 1, maxsplit - 1);
    }
  }

  /** Splitting cuts at most `maxsplit` times and only while separators remain;
      no part but the last holds a separator. */
  lemma SplitShape(s: string, sep: char, maxsplit: nat)
    ensures |Split(s, sep, maxsplit)| == 1 + (if Count(s, sep) < maxsplit then Count(s, sep) else maxsplit)
    ensures forall k :: 0 <= k < |Split(s, sep, maxsplit)| - 1 ==> sep !in Split(s, sep, maxsplit)[k]
  {
    SplitFromLength(s, sep, 0, maxsplit);
    SplitFromPartsClean(s, sep, 0, maxsplit);
  }

  /** The text from `j` around position `i`. */
  lemma SliceAround(s: string, j: nat, i: nat)
    requires j <= i < |s|
    ensures s[j..] == s[j..i] + [s[i]] + s[i + 1..]
  {
  }

  /** One cut of the join: the part before a separator, the separator, and parts
      that join to the rest give back the text from `j`. */
  lemma JoinAtSeparator(s: string, sep: char, j: nat, i: nat, rest: seq<string>)
    requires j <= i < |s| && s[i] == sep
    requires |rest| >= 1 && Join(rest, sep) == s[i + 1..]
    ensures Join([s[j..i]] + rest, sep) == s[j..]
  {
    JoinCons(s[j..i], rest, sep);
    SliceAround(s, j, i);
  }

  lemma {:induction false} JoinSplitFrom(s: string, sep: char, j: nat, maxsplit: nat)
    requires j <= |s|
    ensures Join(SplitFrom(s, sep, j, maxsplit), sep) == s[j..]
    decreases |s| - j
  {
    var i := FindFrom(s, sep, j);
    if maxsplit != 0 && i < |s| {
      var rest := SplitFrom(s, sep, i + 1, maxsplit - 1);
      assert SplitFrom(s, sep, j, maxsplit) == [s[j..i]] + rest;
      JoinSplitFrom(s, sep, i + 1, maxsplit - 1);
      JoinAtSeparator(s, sep, j, i, rest);
    }
  }

  /** Joining the parts of a split with the separator gives back the string. */
  lemma JoinSplit(s: string, sep: char, maxsplit: nat)
    ensures Join(Split(s, sep, maxsplit), sep) == s
  {
    JoinSplitFrom(s, sep, 0, maxsplit);
    assert s[0..] == s;
  }

  lemma {:induction false} SplitFromLast(s: string, sep: char, j: nat, maxsplit: nat)
    requires j <= |s|
    ensures Last(SplitFrom(s, sep, j, maxsplit)) == s[CutFrom(s, sep, j, maxsplit)..]
    decreases |s| - j
  {
    var i := FindFrom(s, sep, j);
    if maxsplit != 0 && i < |s| {
      var rest := SplitFrom(s, sep, i + 1, maxsplit - 1);
      assert SplitFrom(s, sep, j, maxsplit) == [s[j..i]] + rest;
      SplitFromLast(s, sep, i + 1, maxsplit - 1);
    }
  }

  /** The last part of a split is the suffix that starts at the cut. */
  lemma SplitLastIsTail(s: string, sep: char, maxsplit: nat)
    ensures Last(Split(s, sep, maxsplit)) == s[SplitCut(s, sep, maxsplit)..]
  {
    SplitFromLast(s, sep, 0, maxsplit);
  }

  lemma {:induction false} CutFromCount(s: string, sep: char, j: nat, maxsplit: nat)
    requires j <= |s|
    ensures CountIn(s, sep, j, CutFrom(s, sep, j, maxsplit))
         == (if CountIn(s, sep, j, |s|) < maxsplit then CountIn(s, sep, j, |s|) else maxsplit)
    decreases |s| - j
  {
    var i := FindFrom(s, sep, j);
    FindFromCount(s, sep, j);
    if maxsplit != 0 && i < |s| {
      var k := CutFrom(s, sep, i + 1, maxsplit - 1);
      assert CutFrom(s, sep, j, maxsplit) == k;
      CutFromCount(s, sep, i + 1, maxsplit - 1);
      CountPastSeparator(s, sep, j, i, k);
      CountPastSeparator(s, sep, j, i, |s|);
      MinAfterOne(CountIn(s, sep, j, |s|), CountIn(s, sep, i + 1, |s|), maxsplit);
    } else {
      assert CutFrom(s, sep, j, maxsplit) == j;
    }
  }

  /** The text before the cut holds exactly min(maxsplit, #separators)
      separators. */
  lemma SplitCutCount(s: string, sep: char, maxsplit: nat)
    ensures CountIn(s, sep, 0, SplitCut(s, sep, maxsplit))
         == (if Count(s, sep) < maxsplit then Count(s, sep) else maxsplit)
  {
    CutFromCount(s, sep, 0, maxsplit);
  }

  lemma {:induction false} CutFromAfterSeparator(s: string, sep: char, j: nat, maxsplit: nat)
    requires j <= |s|
    ensures CutFrom(s, sep, j, maxsplit) > j ==> s[CutFrom(s, sep, j, maxsplit) - 1] == sep
    decreases |s| - j
  {
    var i := FindFrom(s, sep, j);
    if maxsplit != 0 && i < |s| {
      CutFromAfterSeparator(s, sep, i + 1, maxsplit - 1);
    }
  }

  /** A non-empty text before the cut ends with a separator. */
  lemma SplitCutAfterSeparator(s: string, sep: char, maxsplit: nat)
    ensures SplitCut(s, sep, maxsplit) > 0 ==> s[SplitCut(s, sep, maxsplit) - 1] == sep
  {
    CutFromAfterSeparator(s, sep, 0, maxsplit);
  }

  /** `s.replace(pat, repl)` for a non-empty pattern: scan from the left; at each
      occurrence emit `repl` and continue after it, otherwise copy one character. */
  function Replace(s: string, pat: string, repl: string): string
    requires pat != []
  {
    if s == [] then []
    else if |pat| <= |s| && s[..|pat|] == pat then repl + Replace(s[|pat|..], pat, repl)
    else [s[0]] + Replace(s[1..], pat, repl)
  }

  /** Replacing a single character by a single character maps the string
      position by position. */
  lemma {:induction false} ReplaceChar(s: string, c: char, d: char)
    ensures |Replace(s, [c], [d])| == |s|
    ensures forall k :: 0 <= k < |s| ==> Replace(s, [c], [d])[k] == (if s[k] == c then d else s[k])
  {
    if s != [] {
      ReplaceChar(s[1..], c, d);
      var r := Replace(s, [c], [d]);
      assert r == [if s[0] == c then d else s[0]] + Replace(s[1..], [c], [d]);
    }
  }

  /** After replacing every `c` by a different character none is left. */
  lemma ReplaceCharRemovesAll(s: string, c: char, d: char)
    requires c != d
    ensures c !in Replace(s, [c], [d])
  {
    ReplaceChar(s, c, d);
  }

  /** Removing a pattern that starts with a character absent from `stem` from
      `stem + pat` strips exactly that one trailing occurrence. */
  lemma {:induction false} RemoveTrailing(stem: string, pat: string)
    requires pat != [] && pat[0] !in stem
    ensures Replace(stem + pat, pat, []) == stem
  {
    if stem == [] {
      assert stem + pat == pat;
      assert pat[|pat|..] == [];
    } else {
      var s := stem + pat;
      assert s[0] == stem[0] != pat[0];
      assert s[..|pat|] != pat by { assert s[..|pat|][0] != pat[0]; }
      assert s[1..] == stem[1..] + pat;
      RemoveTrailing(stem[1..], pat);
      assert stem == [stem[0]] + stem[1..];
    }
  }

  /** `s.endswith(suffix)`. */
  predicate EndsWith(s: string, suffix: string) {
    |suffix| <= |s| && s[|s| - |suffix|..] == suffix
  }
}
