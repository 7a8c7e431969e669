/** The three regular-expression helpers of the rate and price scrapers,
    each written out as the left-to-right scan Python's `re` module performs.

    `get_price` and `get_date` appear with identical bodies in
    src/get_currency_rate.py, src/get_currency_rate_async.py and
    src/deprecated/get_currency_rate.py; `FirstNumber` is the
    `re.findall(r"\d+\.?\d*", s)[0]` of src/game_info.py.
 */
module Regex {
  import opened Wrappers
  import opened PyStr

  /** The first index at or after `i` that is not whitespace (or `|s|`):
      where a greedy `\s*` starting at `i` stops. */
  function SkipSpace(s: string, i: nat): (j: nat)
    requires i <= |s|
    ensures i <= j <= |s|
    ensures forall k :: i <= k < j ==> IsSpace(s[k])
    ensures j == |s| || !IsSpace(s[j])
    decreases |s| - i
  {
    if i < |s| && IsSpace(s[i]) then SkipSpace(s, i + 1) else i
  }

  /** The end of a match of `\s*\([^)]*\)` that starts at `i`, if one does.
      `\s*` can give back nothing useful (an open parenthesis is not
      whitespace), so a match exists exactly when the whitespace run from `i`
      ends at `(` and some `)` follows; `[^)]*` then stops at the first `)`. */
  function GroupAt(s: string, i: nat): (r: Option<nat>)
    requires i <= |s|
    ensures r.Some? ==> i < r.value <= |s| && s[r.value - 1] == ')'
  {
    var j := SkipSpace(s, i);
    if j < |s| && s[j] == '(' then
      match IndexFrom(s, ")", j + 1)
      case None => None
      case Some(k) => Some(k + 1)
    else
      None
  }

  /** `s` has an open parenthesis with a closing one somewhere after it. */
  predicate HasGroup(s: string) {
    exists a, b :: 0 <= a < b < |s| && s[a] == '(' && s[b] == ')'
  }

  /** `re.sub(r"\s*\([^)]*\)", "", s[i..])`: scanning from the left, every
      match is deleted and every other character is copied. */
  function SubGroups(s: string, i: nat): string
    requires i <= |s|
    decreases |s| - i
  {
    if i == |s| then ""
    else
      match GroupAt(s, i)
      case Some(e) => SubGroups(s, e)
      case None => [s[i]] + SubGroups(s, i + 1)
  }

  /** The scan leaves no group behind, and adds no `)` to a text without
      one. */
  lemma {:induction false} SubGroupsClean(s: string, i: nat)
    requires i <= |s|
    ensures (forall k :: i <= k < |s| ==> s[k] != ')') ==> (forall b :: 0 <= b < |SubGroups(s, i)| ==> SubGroups(s, i)[b] != ')')
    ensures !HasGroup(SubGroups(s, i))
    decreases |s| - i
  {
    if i < |s| {
      match GroupAt(s, i)
      case Some(e) =>
        SubGroupsClean(s, e);
      case None =>
        SubGroupsClean(s, i + 1);
        CleanCopyCase(s, i, SubGroups(s, i + 1));
    }
  }

  /** The step of `SubGroupsClean` that copies an unmatched character. */
  lemma CleanCopyCase(s: string, i: nat, rest: string)
    requires i < |s| && GroupAt(s, i).None? && rest == SubGroups(s, i + 1)
    requires (forall k :: i + 1 <= k < |s| ==> s[k] != ')') ==> (forall b :: 0 <= b < |rest| ==> rest[b] != ')')
    requires !HasGroup(rest)
    ensures (forall k :: i <= k < |s| ==> s[k] != ')') ==> (forall b :: 0 <= b < |SubGroups(s, i)| ==> SubGroups(s, i)[b] != ')')
    ensures !HasGroup(SubGroups(s, i))
  {
    SubGroupsStep(s, i);
    var r := [s[i]] + rest;
    assert forall b :: 1 <= b < |r| ==> r[b] == rest[b - 1];
    if s[i] == '(' {
      assert SkipSpace(s, i) == i;
      forall k | i + 1 <= k < |s| ensures s[k] != ')' {
        assert !IsAt(s, ")", k);
      }
    }
    forall a, b | 0 <= a < b < |r| && r[a] == '(' ensures r[b] != ')' {
      assert r[b] == rest[b - 1];
      if 0 < a {
        assert rest[a - 1] == '(';
      }
    }
  }

  /** `get_price`: removes each parenthesised group together with the
      whitespace in front of it. Nothing of the form `(...)` survives. */
  function GetPrice(s: string): (r: string)
    ensures !HasGroup(r)
  {
    SubGroupsClean(s, 0);
    SubGroups(s, 0)
  }

  /** A match at `i` is a parenthesised group inside `s[i..]`. */
  lemma GroupAtIsGroup(s: string, i: nat)
    requires i <= |s|
    ensures GroupAt(s, i).Some? ==> HasGroup(s[i..])
  {
    if GroupAt(s, i).Some? {
      var j := SkipSpace(s, i);
      var k := IndexFrom(s, ")", j + 1).value;
      assert s[i..][j - i] == '(' && s[i..][k - i] == ')';
    }
  }

  lemma HasGroupSuffix(s: string, i: nat)
    requires i < |s|
    ensures HasGroup(s[i + 1..]) ==> HasGroup(s[i..])
  {
    if HasGroup(s[i + 1..]) {
      var a, b :| 0 <= a < b < |s[i + 1..]| && s[i + 1..][a] == '(' && s[i + 1..][b] == ')';
      assert s[i..][a + 1] == '(' && s[i..][b + 1] == ')';
    }
  }

  /** Where no group is left to match, the scan copies the input: an open
      parenthesis with no later `)` is left untouched. */
  lemma {:induction false} SubGroupsNoop(s: string, i: nat)
    requires i <= |s| && !HasGroup(s[i..])
    ensures SubGroups(s, i) == s[i..]
    decreases |s| - i
  {
    if i < |s| {
      GroupAtIsGroup(s, i);
      HasGroupSuffix(s, i);
      SubGroupsNoop(s, i + 1);
      assert s[i..] == [s[i]] + s[i + 1..];
    }
  }

  lemma GetPriceNoop(s: string)
    requires !HasGroup(s)
    ensures GetPrice(s) == s
  {
    SubGroupsNoop(s, 0);
  }

  /** `get_price` is idempotent. */
  lemma GetPriceIdempotent(s: string)
    ensures GetPrice(GetPrice(s)) == GetPrice(s)
  {
    GetPriceNoop(GetPrice(s));
  }

  /** The shape of the docstring example: a figure with no parenthesis that
      does not end in whitespace, then a space and a parenthesised date,
      comes back as the figure alone. */
  lemma GetPriceDropsDate(a: string, d: string)
    requires '(' !in a && (a == [] || !IsSpace(a[|a| - 1]))
    requires ')' !in d
    ensures GetPrice(a + " (" + d + ")") == a
  {
    GetPriceGroup(a, " ", d, "");
    assert a + " " + "(" + d + ")" + "" == a + " (" + d + ")";
  }

  /** `re.sub` works group by group: text before the first `(` is copied,
      the first group and the whitespace in front of it are deleted, and the
      scan goes on with the rest. With `GetPriceNoop` and `FirstGroup` this
      determines `get_price` on every string. */
  lemma GetPriceGroup(a: string, w: string, d: string, b: string)
    requires '(' !in a && (a == [] || !IsSpace(a[|a| - 1]))
    requires forall k :: 0 <= k < |w| ==> IsSpace(w[k])
    requires ')' !in d
    ensures GetPrice(a + w + "(" + d + ")" + b) == a + GetPrice(b)
  {
    var s := a + w + "(" + d + ")" + b;
    var open := |a| + |w|;
    var close := open + 1 + |d|;
    assert s[open] == '(' && s[close] == ')';
    forall k | |a| <= k < open
      ensures IsSpace(s[k])
    {
      assert s[k] == w[k - |a|];
    }
    forall k | open < k < close
      ensures s[k] != ')'
    {
      assert s[k] == d[k - open - 1];
    }
    assert s[..|a|] == a;
    assert s[close + 1..] == b;
    SubGroupsFirstGroup(s, |a|, open, close);
  }

  /** The same on positions: the text before the first group's whitespace
      run, then the scan of what follows the group. */
  lemma SubGroupsFirstGroup(s: string, m: nat, f: nat, c: nat)
    requires m <= f < c < |s|
    requires '(' !in s[..m] && (m == 0 || !IsSpace(s[m - 1]))
    requires forall k :: m <= k < f ==> IsSpace(s[k])
    requires s[f] == '(' && s[c] == ')'
    requires forall k :: f < k < c ==> s[k] != ')'
    ensures SubGroups(s, 0) == s[..m] + SubGroups(s[c + 1..], 0)
  {
    ScanPastGroup(s, m, f, c);
    PrefixCopied(s, m, SubGroups(s[c + 1..], 0), m);
  }

  /** From the start of the whitespace run, the scan skips the group and
      goes on as on the text after it. */
  lemma ScanPastGroup(s: string, m: nat, f: nat, c: nat)
    requires m <= f < c < |s|
    requires forall k :: m <= k < f ==> IsSpace(s[k])
    requires s[f] == '(' && s[c] == ')'
    requires forall k :: f < k < c ==> s[k] != ')'
    ensures SubGroups(s, m) == SubGroups(s[c + 1..], 0)
  {
    GroupAtIndices(s, m, f, c);
    SubGroupsStep(s, m);
    SubGroupsSuffix(s, c + 1);
  }

  /** A whitespace run from `m` to `f`, an open parenthesis at `f` and the
      first closing one after it at `c`: the match from `m` ends after `c`. */
  lemma GroupAtIndices(s: string, m: nat, f: nat, c: nat)
    requires m <= f < c < |s|
    requires forall k :: m <= k < f ==> IsSpace(s[k])
    requires s[f] == '(' && s[c] == ')'
    requires forall k :: f < k < c ==> s[k] != ')'
    ensures GroupAt(s, m) == Some(c + 1)
  {
    assert SkipSpace(s, m) == f;
    forall k | f + 1 <= k < c
      ensures !IsAt(s, ")", k)
    {
      assert s[k..k + 1][0] == s[k];
    }
    assert IsAt(s, ")", c);
    IndexFromFinds(s, ")", f + 1, c);
  }

  /** Every string with a group splits at its first `(`, found at `f`: the
      text before the whitespace run `m..f` in front of it is copied, and
      the scan goes on after the first `)` that follows, at `c`. With
      `GetPriceNoop` this determines `get_price` on every string. */
  lemma FirstGroup(s: string) returns (m: nat, f: nat, c: nat)
    requires HasGroup(s)
    ensures m <= f < c < |s|
    ensures '(' !in s[..m] && (m == 0 || !IsSpace(s[m - 1]))
    ensures forall k :: m <= k < f ==> IsSpace(s[k])
    ensures s[f] == '(' && s[c] == ')'
    ensures forall k :: f < k < c ==> s[k] != ')'
    ensures GetPrice(s) == s[..m] + GetPrice(s[c + 1..])
  {
    f, c := FirstParens(s);
    m := SpaceStart(s, f);
    assert '(' !in s[..m] by {
      assert s[..m] == s[..f][..m];
    }
    SubGroupsFirstGroup(s, m, f, c);
  }

  /** The first `(` of a string with a group, and the first `)` after it. */
  lemma FirstParens(s: string) returns (f: nat, c: nat)
    requires HasGroup(s)
    ensures f < c < |s| && '(' !in s[..f]
    ensures s[f] == '(' && s[c] == ')'
    ensures forall k :: f < k < c ==> s[k] != ')'
  {
    var x, y :| 0 <= x < y < |s| && s[x] == '(' && s[y] == ')';
    f := FirstOf(s, '(', x);
    assert IsAt(s, ")", y);
    c := IndexFrom(s, ")", f + 1).value;
    forall k | f < k < c
      ensures s[k] != ')'
    {
      assert !IsAt(s, ")", k);
    }
  }

  /** The first index of `c` in `s`, given one at `x`. */
  lemma FirstOf(s: string, c: char, x: nat) returns (f: nat)
    requires x < |s| && s[x] == c
    ensures f <= x && s[f] == c && c !in s[..f]
  {
    f := 0;
    while s[f] != c
      invariant f <= x && c !in s[..f]
      decreases x - f
    {
      f := f + 1;
    }
  }

  /** Where the whitespace run that ends at `f` starts. */
  lemma SpaceStart(s: string, f: nat) returns (m: nat)
    requires f <= |s|
    ensures m <= f && (m == 0 || !IsSpace(s[m - 1]))
    ensures forall k :: m <= k < f ==> IsSpace(s[k])
  {
    m := f;
    while m > 0 && IsSpace(s[m - 1])
      invariant m <= f
      invariant forall k :: m <= k < f ==> IsSpace(s[k])
    {
      m := m - 1;
    }
  }

  /** The whitespace skip does not depend on what precedes the start. */
  lemma {:induction false} SkipSpaceSuffix(s: string, n: nat, i: nat)
    requires n + i <= |s|
    ensures SkipSpace(s, n + i) == n + SkipSpace(s[n..], i)
    decreases |s| - n - i
  {
    if n + i < |s| {
      assert s[n..][i] == s[n + i];
      SkipSpaceSuffix(s, n, i + 1);
    }
  }

  /** Nor does `str.find`. */
  lemma {:induction false} IndexFromSuffix(s: string, n: nat, sub: string, k: nat)
    requires n <= |s|
    ensures IndexFrom(s, sub, n + k).None? <==> IndexFrom(s[n..], sub, k).None?
    ensures IndexFrom(s, sub, n + k).Some? ==> IndexFrom(s, sub, n + k).value == n + IndexFrom(s[n..], sub, k).value
    decreases |s| - n - k
  {
    if n + k + |sub| <= |s| {
      assert s[n + k..n + k + |sub|] == s[n..][k..k + |sub|];
      if s[n + k..n + k + |sub|] != sub {
        IndexFromSuffix(s, n, sub, k + 1);
      }
    }
  }

  /** Nor does a match. */
  lemma GroupAtSuffix(s: string, t: string, n: nat, i: nat)
    requires n + i <= |s| && t == s[n..]
    ensures GroupAt(s, n + i).None? <==> GroupAt(t, i).None?
    ensures GroupAt(s, n + i).Some? ==> GroupAt(s, n + i).value == n + GroupAt(t, i).value
  {
    SkipSpaceSuffix(s, n, i);
    var j := SkipSpace(t, i);
    if n + j < |s| {
      assert t[j] == s[n + j];
      IndexFromSuffix(s, n, ")", j + 1);
    }
  }

  /** One step of the scan. */
  lemma SubGroupsStep(s: string, i: nat)
    requires i < |s|
    ensures GroupAt(s, i).Some? ==> SubGroups(s, i) == SubGroups(s, GroupAt(s, i).value)
    ensures GroupAt(s, i).None? ==> SubGroups(s, i) == [s[i]] + SubGroups(s, i + 1)
  {
  }

  /** The scan of a suffix is the scan of the suffix on its own. */
  lemma {:induction false} SubGroupsSuffixFrom(s: string, t: string, n: nat, i: nat)
    requires n + i <= |s| && t == s[n..]
    ensures SubGroups(s, n + i) == SubGroups(t, i)
    decreases |t| - i, 1
  {
    if i < |t| {
      GroupAtSuffix(s, t, n, i);
      if GroupAt(t, i).Some? {
        SuffixGroupCase(s, t, n, i);
      } else {
        SubGroupsSuffixFrom(s, t, n, i + 1);
        assert t[i] == s[n + i];
        ShiftCopyCase(s, n + i, t, i);
      }
    }
  }

  /** The step of `SubGroupsSuffixFrom` that skips a group. */
  lemma {:induction false} SuffixGroupCase(s: string, t: string, n: nat, i: nat)
    requires n + i < |s| && t == s[n..] && GroupAt(t, i).Some?
    requires GroupAt(s, n + i).Some? && GroupAt(s, n + i).value == n + GroupAt(t, i).value
    ensures SubGroups(s, n + i) == SubGroups(t, i)
    decreases |t| - i, 0
  {
    var e := GroupAt(t, i).value;
    SubGroupsSuffixFrom(s, t, n, e);
    ShiftGroupCase(s, n + i, n + e, t, i, e);
  }

  /** Two scans at a group whose ends lead to equal scans are equal. */
  lemma ShiftGroupCase(s: string, p: nat, d: nat, t: string, q: nat, e: nat)
    requires p < |s| && GroupAt(s, p) == Some(d)
    requires q < |t| && GroupAt(t, q) == Some(e)
    requires SubGroups(s, d) == SubGroups(t, e)
    ensures SubGroups(s, p) == SubGroups(t, q)
  {
    SubGroupsStep(s, p);
    SubGroupsStep(t, q);
  }

  /** Two scans at the same unmatched character whose continuations are
      equal are equal. */
  lemma ShiftCopyCase(s: string, p: nat, t: string, q: nat)
    requires p < |s| && q < |t| && GroupAt(t, q).None? && GroupAt(s, p).None?
    requires s[p] == t[q] && SubGroups(s, p + 1) == SubGroups(t, q + 1)
    ensures SubGroups(s, p) == SubGroups(t, q)
  {
    SubGroupsStep(s, p);
    SubGroupsStep(t, q);
  }

  /** The scan from `n` is the scan of `s[n..]`. */
  lemma SubGroupsSuffix(s: string, n: nat)
    requires n <= |s|
    ensures SubGroups(s, n) == SubGroups(s[n..], 0)
  {
    SubGroupsSuffixFrom(s, s[n..], n, 0);
  }

  /** `IndexFrom` returns the first occurrence when the caller knows it. */
  lemma {:induction false} IndexFromFinds(s: string, sub: string, k: nat, m: nat)
    requires k <= m && IsAt(s, sub, m)
    requires forall j :: k <= j < m ==> !IsAt(s, sub, j)
    ensures IndexFrom(s, sub, k) == Some(m)
    decreases m - k
  {
    if k < m {
      assert !IsAt(s, sub, k);
      IndexFromFinds(s, sub, k + 1, m);
    }
  }

  /** Before the first group, each position of the text is copied
      unchanged ahead of what the scan gives from the group on. */
  lemma {:induction false} PrefixCopied(s: string, m: nat, tail: string, i: nat)
    requires i <= m <= |s| && '(' !in s[..m] && (m == 0 || !IsSpace(s[m - 1]))
    requires SubGroups(s, m) == tail
    ensures SubGroups(s, m - i) == s[m - i..m] + tail
    decreases i
  {
    if i > 0 {
      var p := m - i;
      PrefixCopied(s, m, tail, i - 1);
      var j := SkipSpace(s, p);
      assert j < m;
      assert s[j] == s[..m][j];
      assert GroupAt(s, p).None?;
      assert s[p..m] == [s[p]] + s[p + 1..m];
    }
  }

  /** The docstring example of `get_price`. */
  lemma GetPriceExample()
    ensures GetPrice("32.24400000 (2023-11-09)") == "32.24400000"
  {
    var a := "32.24400000";
    var d := "2023-11-09";
    assert a + " (" + d + ")" == "32.24400000 (2023-11-09)";
    GetPriceDropsDate(a, d);
  }

  const Parens: set<char> := {'(', ')'}

  /** `get_date`: `re.sub(r"[()]", "", s)` deletes every `(` and `)` and
      nothing else. */
  function GetDate(s: string): (r: string)
    ensures '(' !in r && ')' !in r
  {
    WithoutDrops(s, Parens, '(');
    WithoutDrops(s, Parens, ')');
    Without(s, Parens)
  }

  /** Every other character keeps its number of occurrences. */
  lemma GetDateCounts(s: string, c: char)
    requires c != '(' && c != ')'
    ensures multiset(GetDate(s))[c] == multiset(s)[c]
  {
    WithoutCount(s, Parens);
  }

  /** The characters `get_date` keeps stay in their order: deleting commutes
      with concatenation. */
  lemma GetDateAppend(a: string, b: string)
    ensures GetDate(a + b) == GetDate(a) + GetDate(b)
  {
    WithoutAppend(a, b, Parens);
  }

  /** `get_date` is idempotent, and the identity on text without parentheses. */
  lemma GetDateIdempotent(s: string)
    ensures GetDate(GetDate(s)) == GetDate(s)
    ensures '(' !in s && ')' !in s ==> GetDate(s) == s
  {
    WithoutNoop(GetDate(s), Parens);
    if '(' !in s && ')' !in s {
      WithoutNoop(s, Parens);
    }
  }

  /** A parenthesised text free of parentheses comes back without them. */
  lemma GetDateUnwraps(d: string)
    requires '(' !in d && ')' !in d
    ensures GetDate("(" + d + ")") == d
  {
    GetDateAppend("(" + d, ")");
    GetDateAppend("(", d);
    WithoutNoop(d, Parens);
  }

  /** The docstring example of `get_date`. */
  lemma GetDateExample()
    ensures GetDate("(2023-11-09)") == "2023-11-09"
  {
    var d := "2023-11-09";
    assert "(2023-11-09)" == "(" + d + ")";
    GetDateUnwraps(d);
  }

  /** The end of the run of digits starting at `i`. */
  function DigitRun(s: string, i: nat): (e: nat)
    requires i <= |s|
    ensures i <= e <= |s|
    ensures forall k :: i <= k < e ==> IsDigit(s[k])
    ensures e == |s| || !IsDigit(s[e])
    decreases |s| - i
  {
    if i < |s| && IsDigit(s[i]) then DigitRun(s, i + 1) else i
  }

  /** The first digit of `s`, where a match of `\d+\.?\d*` must begin. */
  function FirstDigit(s: string, i: nat): (r: Option<nat>)
    requires i <= |s|
    ensures r.Some? ==> i <= r.value < |s| && IsDigit(s[r.value])
    ensures r.Some? ==> forall k :: i <= k < r.value ==> !IsDigit(s[k])
    ensures r.None? ==> forall k :: i <= k < |s| ==> !IsDigit(s[k])
    decreases |s| - i
  {
    if i == |s| then None
    else if IsDigit(s[i]) then Some(i)
    else FirstDigit(s, i + 1)
  }

  /** A token `\d+\.?\d*` can match: digits, then at most one dot, then
      digits. */
  predicate IsNumberToken(t: string) {
    && |t| > 0
    && IsDigit(t[0])
    && (forall k :: 0 <= k < |t| ==> IsDigit(t[k]) || t[k] == '.')
    && (forall a, b :: 0 <= a < b < |t| && t[a] == '.' ==> t[b] != '.')
  }

  /** Where a greedy `\d+\.?\d*` starting at the digit at `i` ends. */
  function NumberEnd(s: string, i: nat): (e: nat)
    requires i < |s| && IsDigit(s[i])
    ensures i < e <= |s|
  {
    var e1 := DigitRun(s, i);
    if e1 < |s| && s[e1] == '.' then DigitRun(s, e1 + 1) else e1
  }

  /** `re.findall(r"\d+\.?\d*", s)[0]`, or None where `findall` is empty
      (the `[0]` then raises). */
  function FirstNumber(s: string): (r: Option<string>)
    ensures r.None? <==> FirstDigit(s, 0).None?
    ensures r.Some? ==> |r.value| > 0
  {
    match FirstDigit(s, 0)
    case None => None
    case Some(i) => Some(s[i..NumberEnd(s, i)])
  }

  /** The match is found exactly when `s` holds a digit. It starts at the
      first digit and is as long as the greedy quantifiers make it: the
      character after it is not a digit, and not a dot either unless the
      match already holds one. */
  lemma FirstNumberMatches(s: string)
    ensures FirstNumber(s).None? <==> forall k :: 0 <= k < |s| ==> !IsDigit(s[k])
    ensures FirstNumber(s).Some? ==>
      var t := FirstNumber(s).value;
      && IsNumberToken(t)
      && exists i :: FirstDigit(s, 0) == Some(i)
                     && i + |t| <= |s| && s[i..i + |t|] == t
                     && (i + |t| == |s| || !IsDigit(s[i + |t|]))
                     && ('.' !in t ==> i + |t| == |s| || s[i + |t|] != '.')
  {
    if FirstDigit(s, 0).Some? {
      var i := FirstDigit(s, 0).value;
      var e1 := DigitRun(s, i);
      var e2 := NumberEnd(s, i);
      var t := s[i..e2];
      assert forall k :: 0 <= k < |t| ==> t[k] == s[i + k];
      assert forall k :: 0 <= k < |t| && t[k] == '.' ==> i + k == e1;
      assert s[i..i + |t|] == t;
    }
  }
}
