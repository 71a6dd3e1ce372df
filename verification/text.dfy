/**
  Literal text operations the conversion commands rely on: Laravel's
  `Str::contains` and `Str::remove`, and PHP's `str_replace` in the three
  shapes the commands call it with (one search, an array of searches with one
  replacement, and parallel arrays of searches and replacements).

  Matching is literal, left to right and non-overlapping: after a match the
  scan resumes just past it.
 */
module Text {

  /** `PHP_EOL` on the platforms the commands run on. */
  const Eol := "\n"

  /** `s` ends with `suffix`. */
  predicate EndsWith(s: string, suffix: string) {
    |suffix| <= |s| && s[|s| - |suffix|..] == suffix
  }

  /** `needle` occurs in `s` at index `i`. */
  predicate OccursAt(s: string, needle: string, i: int) {
    0 <= i && i + |needle| <= |s| && s[i..i + |needle|] == needle
  }

  /** `Str::contains` with one needle: an empty needle is never contained. */
  predicate Contains(s: string, needle: string)
    ensures Contains(s, needle) ==> 0 < |needle| <= |s|
  {
    |needle| > 0 && exists i :: 0 <= i <= |s| - |needle| && OccursAt(s, needle, i)
  }

  /** Number of non-overlapping, left-to-right occurrences of `needle` in `s`. */
  function Count(s: string, needle: string): nat
    decreases |s|
  {
    if |needle| == 0 || |s| < |needle| then 0
    else if s[..|needle|] == needle then 1 + Count(s[|needle|..], needle)
    else Count(s[1..], needle)
  }

  /** `str_replace($search, $rep, $s)` for one search string. An empty search
      leaves the subject unchanged, as in PHP 8. */
  function ReplaceAll(s: string, search: string, rep: string): (r: string)
    ensures |search| == 0 ==> r == s
    ensures rep == search ==> r == s
    decreases |s|
  {
    if |search| == 0 || |s| < |search| then s
    else if s[..|search|] == search then
      assert search + s[|search|..] == s;
      rep + ReplaceAll(s[|search|..], search, rep)
    else
      assert [s[0]] + s[1..] == s;
      [s[0]] + ReplaceAll(s[1..], search, rep)
  }

  /** `Str::remove($search, $s)`: every occurrence replaced by nothing. */
  function Remove(s: string, search: string): (r: string)
    ensures |r| <= |s|
    ensures !Contains(s, search) ==> r == s
  {
    ReplaceAllLength(s, search, "");
    Negate(Count(s, search), |search|);
    ReplaceAllWithoutMatch(s, search, "");
    ReplaceAll(s, search, "")
  }

  /** The `$replace` argument of `str_replace`: one string for every search,
      or an array paired with the searches by index. */
  datatype Replacement = Single(text: string) | Each(texts: seq<string>)

  /** The replacement paired with the `i`-th search; PHP pads a short
      replacement array with empty strings. */
  function ReplacementAt(replace: Replacement, i: nat): string {
    match replace
    case Single(r) => r
    case Each(rs) => if i < |rs| then rs[i] else ""
  }

  /** `str_replace($searches, $replace, $s)` with an array of searches: each
      search, in order, is replaced in the result of the previous ones. */
  function StrReplace(searches: seq<string>, replace: Replacement, s: string): (r: string)
    ensures replace == Single("") ==> |r| <= |s|
    decreases |searches|
  {
    if |searches| == 0 then s
    else
      var n := |searches| - 1;
      var prev := StrReplace(searches[..n], replace, s);
      assert |Remove(prev, searches[n])| <= |prev|;
      ReplaceAll(prev, searches[n], ReplacementAt(replace, n))
  }

  /** `s` cut at every non-overlapping, left-to-right occurrence of `sep`. */
  function Split(s: string, sep: string): (parts: seq<string>)
    requires |sep| > 0
    ensures |parts| > 0
    decreases |s|
  {
    if |s| < |sep| then [s]
    else if s[..|sep|] == sep then [""] + Split(s[|sep|..], sep)
    else
      var rest := Split(s[1..], sep);
      [[s[0]] + rest[0]] + rest[1..]
  }

  /** The parts glued back together with `sep` between neighbours. */
  function Join(parts: seq<string>, sep: string): string
    decreases |parts|
  {
    if |parts| == 0 then ""
    else if |parts| == 1 then parts[0]
    else parts[0] + sep + Join(parts[1..], sep)
  }

  // ---------------------------------------------------------------------
  // Occurrences

  lemma OccursInSuffix(s: string, needle: string, k: nat, i: int)
    requires k <= |s|
    requires OccursAt(s[k..], needle, i)
    ensures OccursAt(s, needle, i + k)
  {
    assert s[k..][i..i + |needle|] == s[i + k..i + k + |needle|];
  }

  lemma OccursInTail(s: string, needle: string, i: int)
    requires |s| > 0
    requires OccursAt(s, needle, i) && i > 0
    ensures OccursAt(s[1..], needle, i - 1)
  {
    assert s[1..][i - 1..i - 1 + |needle|] == s[i..i + |needle|];
  }

  /** A needle is contained exactly when it is counted at least once. */
  lemma {:induction false} CountPositiveIffContains(s: string, needle: string)
    requires |needle| > 0
    ensures Count(s, needle) > 0 <==> Contains(s, needle)
    decreases |s|
  {
    if |s| < |needle| {
    } else if s[..|needle|] == needle {
      assert OccursAt(s, needle, 0);
    } else {
      CountPositiveIffContains(s[1..], needle);
      if Contains(s, needle) {
        var i :| OccursAt(s, needle, i);
        assert i != 0 by { assert s[0..|needle|] == s[..|needle|]; }
        OccursInTail(s, needle, i);
      }
      if Contains(s[1..], needle) {
        var i :| OccursAt(s[1..], needle, i);
        OccursInSuffix(s, needle, 1, i);
      }
    }
  }

  // ---------------------------------------------------------------------
  // Single replacement

  lemma Distribute(c: int, d: int)
    ensures (1 + c) * d == d + c * d
  {
  }

  lemma Negate(c: int, d: int)
    ensures c * (0 - d) == 0 - d * c
  {
  }

  /** Length accounting: every match of `search` is traded for `rep`. */
  lemma {:induction false} ReplaceAllLength(s: string, search: string, rep: string)
    ensures |ReplaceAll(s, search, rep)| == |s| + Count(s, search) * (|rep| - |search|)
    decreases |s|
  {
    if |search| == 0 || |s| < |search| {
    } else if s[..|search|] == search {
      ReplaceAllLength(s[|search|..], search, rep);
      Distribute(Count(s[|search|..], search), |rep| - |search|);
    } else {
      ReplaceAllLength(s[1..], search, rep);
    }
  }

  /** A search that does not occur leaves the text unchanged. */
  lemma {:induction false} ReplaceAllWithoutMatch(s: string, search: string, rep: string)
    ensures !Contains(s, search) ==> ReplaceAll(s, search, rep) == s
    decreases |s|
  {
    if |search| == 0 || |s| < |search| {
    } else if s[..|search|] == search {
      assert OccursAt(s, search, 0);
    } else {
      if Contains(s[1..], search) {
        var i :| 0 <= i <= |s[1..]| - |search| && OccursAt(s[1..], search, i);
        OccursInSuffix(s, search, 1, i);
      }
      ReplaceAllWithoutMatch(s[1..], search, rep);
      assert [s[0]] + s[1..] == s;
    }
  }

  /** Removing a literal shortens the text by its length times its match
      count, and leaves it unchanged exactly when the literal is absent. */
  lemma RemoveLength(s: string, search: string)
    requires |search| > 0
    ensures |Remove(s, search)| == |s| - |search| * Count(s, search)
    ensures !Contains(s, search) <==> Remove(s, search) == s
    ensures Contains(s, search) ==> |Remove(s, search)| < |s|
  {
    ReplaceAllLength(s, search, "");
    Negate(Count(s, search), |search|);
    CountPositiveIffContains(s, search);
    ReplaceAllWithoutMatch(s, search, "");
  }

  /** Removal can assemble a new match out of the text around the removed
      one, so a removed literal may still occur afterwards. */
  lemma RemovalCanCreateMatch()
    ensures Remove("aabb", "ab") == "ab"
    ensures Contains(Remove("aabb", "ab"), "ab")
  {
    var s := "aabb";
    assert s[..2][1] == 'a';
    assert s[1..] == "abb";
    assert s[1..][..2] == "ab";
    assert s[1..][2..] == "b";
    assert ReplaceAll("b", "ab", "") == "b";
    assert Remove("aabb", "ab") == "ab";
    assert OccursAt("ab", "ab", 0);
  }

  // ---------------------------------------------------------------------
  // Split and Join: an independent description of a single replacement

  lemma JoinPrefix(parts: seq<string>, sep: string)
    requires |parts| > 0
    ensures parts[0] <= Join(parts, sep)
  {
  }

  /** Putting a character in front of the first part puts it in front of
      the joined text. */
  lemma JoinConsHead(c: char, rest: seq<string>, sep: string)
    requires |rest| > 0
    ensures Join([[c] + rest[0]] + rest[1..], sep) == [c] + Join(rest, sep)
  {
    var parts := [[c] + rest[0]] + rest[1..];
    if |rest| > 1 {
      assert parts[1..] == rest[1..];
      assert Join(parts, sep) == ([c] + rest[0]) + sep + Join(rest[1..], sep);
    }
  }

  /** A single replacement is the split text joined with the replacement. */
  lemma {:induction false} ReplaceAllIsJoinOfSplit(s: string, search: string, rep: string)
    requires |search| > 0
    ensures ReplaceAll(s, search, rep) == Join(Split(s, search), rep)
    decreases |s|
  {
    if |s| < |search| {
    } else if s[..|search|] == search {
      ReplaceAllIsJoinOfSplit(s[|search|..], search, rep);
      var rest := Split(s[|search|..], search);
      assert ([""] + rest)[1..] == rest;
    } else {
      ReplaceAllIsJoinOfSplit(s[1..], search, rep);
      JoinConsHead(s[0], Split(s[1..], search), rep);
    }
  }

  /** Joining the parts with the separator gives back the text. */
  lemma JoinSplit(s: string, sep: string)
    requires |sep| > 0
    ensures Join(Split(s, sep), sep) == s
  {
    ReplaceAllIsJoinOfSplit(s, sep, sep);
  }

  /** There is one more part than there are matches. */
  lemma {:induction false} SplitCount(s: string, sep: string)
    requires |sep| > 0
    ensures |Split(s, sep)| == Count(s, sep) + 1
    decreases |s|
  {
    if |s| < |sep| {
    } else if s[..|sep|] == sep {
      SplitCount(s[|sep|..], sep);
    } else {
      SplitCount(s[1..], sep);
    }
  }

  /** No part contains the separator: every match was cut out. */
  lemma {:induction false} SplitPartsAvoidSeparator(s: string, sep: string)
    requires |sep| > 0
    ensures forall i :: 0 <= i < |Split(s, sep)| ==> !Contains(Split(s, sep)[i], sep)
    decreases |s|
  {
    var parts := Split(s, sep);
    if |s| < |sep| {
    } else if s[..|sep|] == sep {
      SplitPartsAvoidSeparator(s[|sep|..], sep);
      var rest := Split(s[|sep|..], sep);
      assert forall i :: 1 <= i < |parts| ==> parts[i] == rest[i - 1];
    } else {
      SplitPartsAvoidSeparator(s[1..], sep);
      var rest := Split(s[1..], sep);
      assert forall i :: 1 <= i < |parts| ==> parts[i] == rest[i];
      var first := [s[0]] + rest[0];
      assert parts[0] == first;
      JoinSplit(s[1..], sep);
      JoinPrefix(rest, sep);
      assert first <= s;
      forall j | 0 <= j <= |first| - |sep|
        ensures !OccursAt(first, sep, j)
      {
        if j == 0 {
          assert first[..|sep|] == s[..|sep|];
        } else {
          assert first[j..j + |sep|] == rest[0][j - 1..j - 1 + |sep|];
          assert !OccursAt(rest[0], sep, j - 1);
        }
      }
    }
  }

  /** With at least two parts, the first part followed by the separator
      begins the text. */
  lemma {:induction false} SplitHeadPrefix(s: string, sep: string)
    requires |sep| > 0 && |Split(s, sep)| > 1
    ensures Split(s, sep)[0] + sep <= s
    decreases |s|
  {
    if s[..|sep|] == sep {
      assert Split(s, sep)[0] == "";
    } else {
      var rest := Split(s[1..], sep);
      SplitHeadPrefix(s[1..], sep);
      assert Split(s, sep)[0] + sep == [s[0]] + (rest[0] + sep);
    }
  }

  /** Each cut is at the leftmost match: the separator following a part
      starts nowhere earlier within that part and itself. */
  predicate LeftmostCuts(parts: seq<string>, sep: string) {
    |sep| > 0 && forall i :: 0 <= i < |parts| - 1 ==> !Contains(parts[i] + sep[..|sep| - 1], sep)
  }

  /** `Split` cuts at the leftmost match every time. */
  lemma {:induction false} SplitCutsLeftmost(s: string, sep: string)
    requires |sep| > 0
    ensures LeftmostCuts(Split(s, sep), sep)
    decreases |s|
  {
    if |s| < |sep| {
    } else if s[..|sep|] == sep {
      SplitCutsLeftmost(s[|sep|..], sep);
      LeftmostAfterMatch(s, sep);
    } else {
      SplitCutsLeftmost(s[1..], sep);
      LeftmostAfterSkip(s, sep);
    }
  }

  lemma LeftmostAfterMatch(s: string, sep: string)
    requires 0 < |sep| <= |s| && s[..|sep|] == sep
    requires LeftmostCuts(Split(s[|sep|..], sep), sep)
    ensures LeftmostCuts(Split(s, sep), sep)
  {
    var parts := Split(s, sep);
    var rest := Split(s[|sep|..], sep);
    assert parts == [""] + rest;
    forall i | 0 <= i < |parts| - 1
      ensures !Contains(parts[i] + sep[..|sep| - 1], sep)
    {
      if i == 0 {
        assert |parts[0] + sep[..|sep| - 1]| < |sep|;
      } else {
        assert parts[i] == rest[i - 1];
      }
    }
  }

  lemma LeftmostAfterSkip(s: string, sep: string)
    requires 0 < |sep| <= |s| && s[..|sep|] != sep
    requires LeftmostCuts(Split(s[1..], sep), sep)
    ensures LeftmostCuts(Split(s, sep), sep)
  {
    var rest := Split(s[1..], sep);
    if |rest| > 1 {
      SplitHeadPrefix(s[1..], sep);
    }
    ConsKeepsLeftmost(s, rest, sep);
  }

  /** Putting a character that does not begin a match in front of the
      first part keeps every cut leftmost. */
  lemma ConsKeepsLeftmost(s: string, rest: seq<string>, sep: string)
    requires 0 < |sep| <= |s| && s[..|sep|] != sep
    requires |rest| > 0 && LeftmostCuts(rest, sep)
    requires |rest| > 1 ==> rest[0] + sep <= s[1..]
    ensures LeftmostCuts([[s[0]] + rest[0]] + rest[1..], sep)
  {
    var parts := [[s[0]] + rest[0]] + rest[1..];
    forall i | 1 <= i < |parts| - 1
      ensures !Contains(parts[i] + sep[..|sep| - 1], sep)
    {
      assert parts[i] == rest[i];
    }
    if |rest| > 1 {
      var v := rest[0] + sep[..|sep| - 1];
      DropLastOfPrefix(rest[0], sep, s[1..]);
      Regroup([s[0]], rest[0], sep[..|sep| - 1]);
      PrefixAvoids(s, v, sep);
    }
  }

  lemma DropLastOfPrefix(x: string, y: string, z: string)
    requires |y| > 0 && x + y <= z
    ensures x + y[..|y| - 1] <= z
  {
    assert x + y[..|y| - 1] == (x + y)[..|x| + |y| - 1];
  }

  lemma Regroup(a: string, b: string, c: string)
    ensures (a + b) + c == a + (b + c)
  {
  }

  /** A match-free text stays match-free behind the first character of a
      text it continues, when that text does not begin with a match. */
  lemma PrefixAvoids(s: string, v: string, sep: string)
    requires 0 < |sep| <= |s| && s[..|sep|] != sep
    requires v <= s[1..] && !Contains(v, sep)
    ensures !Contains([s[0]] + v, sep)
  {
    var w := [s[0]] + v;
    assert w <= s;
    forall j | 0 <= j <= |w| - |sep|
      ensures !OccursAt(w, sep, j)
    {
      if j == 0 {
        assert w[..|sep|] == s[..|sep|];
      } else {
        assert w[j..j + |sep|] == v[j - 1..j - 1 + |sep|];
        assert !OccursAt(v, sep, j - 1);
      }
    }
  }

  /** Replacing `marker` by `marker + inserted` puts `inserted` right after
      every match and nowhere else. */
  lemma InsertAfterEach(s: string, marker: string, inserted: string)
    requires |marker| > 0
    ensures ReplaceAll(s, marker, marker + inserted) == Join(Split(s, marker), marker + inserted)
    ensures |ReplaceAll(s, marker, marker + inserted)| == |s| + Count(s, marker) * |inserted|
  {
    ReplaceAllIsJoinOfSplit(s, marker, marker + inserted);
    ReplaceAllLength(s, marker, marker + inserted);
  }

  // ---------------------------------------------------------------------
  // Arrays of searches

  /** The first `n` searches are the first `n - 1` followed by the `n`-th. */
  lemma StrReplacePrefix(searches: seq<string>, replace: Replacement, s: string, n: nat)
    requires 0 < n <= |searches|
    ensures StrReplace(searches[..n], replace, s)
         == ReplaceAll(StrReplace(searches[..n - 1], replace, s), searches[n - 1], ReplacementAt(replace, n - 1))
  {
    assert searches[..n][..n - 1] == searches[..n - 1];
  }

  /** The whole array is its last search applied after all the others. */
  lemma StrReplaceLast(searches: seq<string>, replace: Replacement, s: string)
    requires |searches| > 0
    ensures var n := |searches| - 1;
      StrReplace(searches, replace, s) == ReplaceAll(StrReplace(searches[..n], replace, s), searches[n], ReplacementAt(replace, n))
  {
    assert searches[..|searches|] == searches;
    StrReplacePrefix(searches, replace, s, |searches|);
  }

  /** The replacement argument as seen by the searches from index `k` on. */
  function Shift(replace: Replacement, k: nat): (shifted: Replacement)
    ensures forall i: nat :: ReplacementAt(shifted, i) == ReplacementAt(replace, k + i)
  {
    match replace
    case Single(r) => Single(r)
    case Each(rs) => Each(if k <= |rs| then rs[k..] else [])
  }

  /** An array of searches can be split anywhere: the first searches run
      over the subject, the remaining ones over their result with the
      replacements that belong to them. */
  lemma {:induction false} StrReplaceConcat(a: seq<string>, b: seq<string>, replace: Replacement, s: string)
    ensures StrReplace(a + b, replace, s) == StrReplace(b, Shift(replace, |a|), StrReplace(a, replace, s))
    decreases |b|
  {
    if |b| == 0 {
      assert a + b == a;
    } else {
      var n := |b| - 1;
      var ab := a + b;
      var shifted := Shift(replace, |a|);
      var mid := StrReplace(a, replace, s);
      StrReplaceConcat(a, b[..n], replace, s);
      var x := StrReplace(b[..n], shifted, mid);
      var r := ReplacementAt(replace, |a| + n);
      assert ab[..|ab| - 1] == a + b[..n];
      assert ab[|ab| - 1] == b[n];
      assert ReplacementAt(shifted, n) == r;
      assert StrReplace(ab, replace, s) == ReplaceAll(x, b[n], r) by {
        StrReplaceLast(ab, replace, s);
      }
      assert StrReplace(b, shifted, mid) == ReplaceAll(x, b[n], r) by {
        StrReplaceLast(b, shifted, mid);
      }
    }
  }

  /** With one replacement string for every search, the split needs no
      adjustment. */
  lemma StrReplaceConcatSingle(a: seq<string>, b: seq<string>, r: string, s: string)
    ensures StrReplace(a + b, Single(r), s) == StrReplace(b, Single(r), StrReplace(a, Single(r), s))
  {
    StrReplaceConcat(a, b, Single(r), s);
  }

  /** Searches none of which occur in the subject leave it unchanged. */
  lemma {:induction false} StrReplaceWithoutMatch(searches: seq<string>, replace: Replacement, s: string)
    requires forall i :: 0 <= i < |searches| ==> !Contains(s, searches[i])
    ensures StrReplace(searches, replace, s) == s
    decreases |searches|
  {
    if |searches| > 0 {
      var n := |searches| - 1;
      StrReplaceWithoutMatch(searches[..n], replace, s);
      ReplaceAllWithoutMatch(s, searches[n], ReplacementAt(replace, n));
    }
  }

  /** One replacement string for every search is the same as a replacement
      array repeating it. */
  lemma {:induction false} SingleIsRepeatedEach(searches: seq<string>, r: string, s: string)
    ensures StrReplace(searches, Single(r), s) == StrReplace(searches, Each(seq(|searches|, _ => r)), s)
    decreases |searches|
  {
    if |searches| > 0 {
      var n := |searches| - 1;
      SingleIsRepeatedEach(searches[..n], r, s);
      assert seq(|searches|, _ => r)[n] == r;
      assert StrReplace(searches[..n], Each(seq(n, _ => r)), s)
          == StrReplace(searches[..n], Each(seq(|searches|, _ => r)), s)
      by { EachIgnoresExtra(searches[..n], seq(n, _ => r), seq(|searches|, _ => r), s); }
    }
  }

  /** Only the first `|searches|` replacements of an array are ever used. */
  lemma {:induction false} EachIgnoresExtra(searches: seq<string>, rs: seq<string>, longer: seq<string>, s: string)
    requires |searches| <= |rs| <= |longer|
    requires rs == longer[..|rs|]
    ensures StrReplace(searches, Each(rs), s) == StrReplace(searches, Each(longer), s)
    decreases |searches|
  {
    if |searches| > 0 {
      var n := |searches| - 1;
      EachIgnoresExtra(searches[..n], rs, longer, s);
      assert rs[n] == longer[n];
    }
  }

  /** In a list of removals, the `n`-th acts on what the earlier ones left:
      it shortens that text by its length times its match count there, and
      leaves it unchanged exactly when it does not occur there. */
  lemma RemovalStep(searches: seq<string>, s: string, n: nat)
    requires n < |searches| && |searches[n]| > 0
    ensures var before := StrReplace(searches[..n], Single(""), s);
      var after := StrReplace(searches[..n + 1], Single(""), s);
      && |after| == |before| - |searches[n]| * Count(before, searches[n])
      && (after == before <==> !Contains(before, searches[n]))
  {
    StrReplacePrefix(searches, Single(""), s, n + 1);
    RemoveLength(StrReplace(searches[..n], Single(""), s), searches[n]);
  }
}
