/** The Python `str` operations the scrapers use, on `string` (a `seq<char>`).

    Each function follows CPython's semantics for the case the code uses:
    `strip()` removes what `str.isspace` calls whitespace (which includes
    U+00A0), `split(sep)` cuts at every non-overlapping occurrence scanning
    left to right, `replace(x, "")` deletes every occurrence, and `lower()`
    is modelled on ASCII letters only.
 */
module PyStr {
  import opened Wrappers

  /** U+00A0, the no-break space the rate pages put between figures. */
  const Nbsp: char := '\U{00A0}'

  /** Python's `str.isspace` for a single character. */
  predicate IsSpace(c: char) {
    || ('\t' <= c <= '\r')
    || ('\U{1C}' <= c <= ' ')
    || c == '\U{85}'
    || c == Nbsp
    || c == '\U{1680}'
    || ('\U{2000}' <= c <= '\U{200A}')
    || c == '\U{2028}'
    || c == '\U{2029}'
    || c == '\U{202F}'
    || c == '\U{205F}'
    || c == '\U{3000}'
  }

  predicate AllSpace(s: string) {
    forall i :: 0 <= i < |s| ==> IsSpace(s[i])
  }

  /** Neither end of `s` is whitespace: what `strip()` leaves behind. */
  predicate Trimmed(s: string) {
    s == [] || (!IsSpace(s[0]) && !IsSpace(s[|s| - 1]))
  }

  /** A whitespace-only string holds no non-space character. */
  lemma AllSpaceCount(s: string, c: char)
    requires AllSpace(s) && !IsSpace(c)
    ensures multiset(s)[c] == 0
  {
    assert forall i :: 0 <= i < |s| ==> s[i] != c;
  }

  /** `str.lstrip()`. */
  function LStrip(s: string): (r: string)
    ensures |r| <= |s| && r == s[|s| - |r|..]
    ensures r == [] || !IsSpace(r[0])
    decreases |s|
  {
    if |s| > 0 && IsSpace(s[0]) then LStrip(s[1..]) else s
  }

  /** What `lstrip()` removes is whitespace. */
  lemma {:induction false} LStripFront(s: string)
    ensures AllSpace(s[..|s| - |LStrip(s)|])
    decreases |s|
  {
    if |s| > 0 && IsSpace(s[0]) {
      var t := s[1..];
      LStripFront(t);
      assert LStrip(s) == LStrip(t);
      forall i | 0 <= i < |s| - |LStrip(s)|
        ensures IsSpace(s[i])
      {
        if i > 0 {
          assert s[i] == t[..|t| - |LStrip(t)|][i - 1];
        }
      }
    }
  }

  /** `s` is what `lstrip()` removed followed by what it kept. */
  lemma LStripSplits(s: string)
    ensures s == s[..|s| - |LStrip(s)|] + LStrip(s)
  {
    var k := |s| - |LStrip(s)|;
    assert LStrip(s) == s[k..];
    assert s == s[..k] + s[k..];
  }

  lemma LStripSpaceHead(s: string)
    requires |s| > 0 && IsSpace(s[0])
    ensures LStrip(s) == LStrip(s[1..])
  {
  }

  /** `str.rstrip()`. */
  function RStrip(s: string): (r: string)
    ensures |r| <= |s| && r == s[..|r|]
    ensures AllSpace(s[|r|..])
    ensures r == [] || !IsSpace(r[|r| - 1])
    decreases |s|
  {
    if |s| > 0 && IsSpace(s[|s| - 1]) then
      var r := RStrip(s[..|s| - 1]);
      assert s[|r|..] == s[..|s| - 1][|r|..] + [s[|s| - 1]];
      r
    else
      s
  }

  /** Whitespace in front of `b` does not change how often a non-space
      character occurs. */
  lemma SpaceAppendCount(a: string, b: string, c: char)
    requires AllSpace(a) && !IsSpace(c)
    ensures multiset(a + b)[c] == multiset(b)[c]
  {
    AllSpaceCount(a, c);
    assert multiset(a + b) == multiset(a) + multiset(b);
  }

  lemma AppendSpaceCount(a: string, b: string, c: char)
    requires AllSpace(b) && !IsSpace(c)
    ensures multiset(a + b)[c] == multiset(a)[c]
  {
    AllSpaceCount(b, c);
    assert multiset(a + b) == multiset(a) + multiset(b);
  }

  /** `str.strip()`: the text between the leading and the trailing
      whitespace. */
  function Strip(s: string): (r: string)
    ensures Trimmed(r)
    ensures Trimmed(s) ==> r == s
    ensures |r| <= |s|
  {
    RStrip(LStrip(s))
  }

  /** `strip()` removes only whitespace: every other character keeps its
      number of occurrences. */
  lemma StripCounts(s: string, c: char)
    requires !IsSpace(c)
    ensures multiset(Strip(s))[c] == multiset(s)[c]
  {
    LStripCounts(s, c);
    RStripCounts(LStrip(s), c);
  }

  lemma LStripCounts(s: string, c: char)
    requires !IsSpace(c)
    ensures multiset(LStrip(s))[c] == multiset(s)[c]
  {
    LStripFront(s);
    LStripSplits(s);
    SpaceAppendCount(s[..|s| - |LStrip(s)|], LStrip(s), c);
  }

  lemma RStripCounts(s: string, c: char)
    requires !IsSpace(c)
    ensures multiset(RStrip(s))[c] == multiset(s)[c]
  {
    var r := RStrip(s);
    assert s == r + s[|r|..] by {
      assert r == s[..|r|];
    }
    AppendSpaceCount(r, s[|r|..], c);
  }

  lemma StripIdempotent(s: string)
    ensures Strip(Strip(s)) == Strip(s)
  {
  }

  /** `sub` occurs in `s` starting at index `i`. */
  predicate IsAt(s: string, sub: string, i: int) {
    0 <= i && i + |sub| <= |s| && s[i..i + |sub|] == sub
  }

  /** Python's `sub in s`. */
  predicate Contains(s: string, sub: string) {
    exists i :: 0 <= i <= |s| - |sub| && IsAt(s, sub, i)
  }

  lemma ContainsChar(s: string, c: char)
    ensures Contains(s, [c]) <==> c in s
  {
    if c in s {
      var i :| 0 <= i < |s| && s[i] == c;
      assert IsAt(s, [c], i);
    }
    if Contains(s, [c]) {
      var i :| 0 <= i <= |s| - 1 && IsAt(s, [c], i);
      assert s[i] == s[i..i + 1][0];
    }
  }

  /** The first index at or after `k` where `sub` occurs: `s.find(sub, k)`. */
  function IndexFrom(s: string, sub: string, k: nat): (r: Option<nat>)
    ensures r.Some? ==> k <= r.value && IsAt(s, sub, r.value)
    ensures r.Some? ==> forall j :: k <= j < r.value ==> !IsAt(s, sub, j)
    ensures r.None? ==> forall j :: k <= j ==> !IsAt(s, sub, j)
    decreases |s| - k
  {
    if k + |sub| > |s| then None
    else if s[k..k + |sub|] == sub then Some(k)
    else IndexFrom(s, sub, k + 1)
  }

  /** An occurrence inside a prefix is an occurrence in the whole string. */
  lemma IsAtPrefix(s: string, sub: string, n: nat, j: int)
    requires n <= |s| && IsAt(s[..n], sub, j)
    ensures IsAt(s, sub, j)
  {
    assert s[..n][j..j + |sub|] == s[j..j + |sub|];
  }

  /** `parts[0] + sep + parts[1] + sep + ...`: Python's `sep.join(parts)`. */
  function Join(parts: seq<string>, sep: string): string
    requires |parts| > 0
  {
    if |parts| == 1 then parts[0] else parts[0] + sep + Join(parts[1..], sep)
  }

  /** `s.split(sep)`: the pieces between the non-overlapping occurrences of
      `sep`, scanning from the left. Joining them back gives `s`, and no
      piece contains `sep`. */
  function Split(s: string, sep: string): (parts: seq<string>)
    requires |sep| > 0
    ensures |parts| >= 1
    ensures Join(parts, sep) == s
    ensures |parts| == 1 <==> !Contains(s, sep)
    decreases |s|
  {
    var found := IndexFrom(s, sep, 0);
    if found.None? then
      [s]
    else
      var i := found.value;
      SplitAtFirst(s, sep, i);
      var rest := Split(s[i + |sep|..], sep);
      var parts := [s[..i]] + rest;
      assert parts[1..] == rest;
      parts
  }

  /** No piece of a split contains the separator. */
  lemma {:induction false} SplitPiecesFree(s: string, sep: string)
    requires |sep| > 0
    ensures forall k :: 0 <= k < |Split(s, sep)| ==> !Contains(Split(s, sep)[k], sep)
    decreases |s|
  {
    var found := IndexFrom(s, sep, 0);
    if found.Some? {
      var i := found.value;
      SplitAtFirst(s, sep, i);
      SplitPiecesFree(s[i + |sep|..], sep);
      assert Split(s, sep) == [s[..i]] + Split(s[i + |sep|..], sep);
    }
  }

  /** Cutting at the first occurrence: the head holds no separator and the
      string is head, separator, tail. */
  lemma SplitAtFirst(s: string, sep: string, i: nat)
    requires |sep| > 0 && IndexFrom(s, sep, 0) == Some(i)
    ensures i + |sep| <= |s|
    ensures !Contains(s[..i], sep)
    ensures Contains(s, sep)
    ensures s == s[..i] + sep + s[i + |sep|..]
  {
    assert IsAt(s, sep, i);
    forall j | 0 <= j <= i - |sep| && IsAt(s[..i], sep, j)
      ensures false
    {
      IsAtPrefix(s, sep, i, j);
    }
    assert s == s[..i] + s[i..i + |sep|] + s[i + |sep|..];
  }

  /** Python's `parts[-1]`. */
  function Last(parts: seq<string>): string
    requires |parts| > 0
  {
    parts[|parts| - 1]
  }

  /** The text before the first `sep`: `s.split(sep)[0]`. It is a prefix of
      `s`, and it is all of `s` exactly when `sep` does not occur. */
  function Before(s: string, sep: string): (r: string)
    requires |sep| > 0
    ensures |r| <= |s| && r == s[..|r|]
    ensures !Contains(r, sep)
    ensures r == s <==> !Contains(s, sep)
  {
    var parts := Split(s, sep);
    SplitPiecesFree(s, sep);
    if |parts| == 1 then parts[0]
    else
      assert s == parts[0] + sep + Join(parts[1..], sep);
      parts[0]
  }

  /** The text after the last `sep`: `s.split(sep)[-1]`. It is a suffix of
      `s` and holds no `sep`. */
  function AfterLast(s: string, sep: string): (r: string)
    requires |sep| > 0
    ensures |r| <= |s| && r == s[|s| - |r|..]
    ensures !Contains(r, sep)
    ensures !Contains(s, sep) ==> r == s
  {
    var parts := Split(s, sep);
    SplitPiecesFree(s, sep);
    JoinEndsWithLast(parts, sep);
    Last(parts)
  }

  lemma {:induction false} JoinEndsWithLast(parts: seq<string>, sep: string)
    requires |parts| > 0
    ensures |Last(parts)| <= |Join(parts, sep)|
    ensures Join(parts, sep)[|Join(parts, sep)| - |Last(parts)|..] == Last(parts)
    decreases |parts|
  {
    if |parts| > 1 {
      var rest := parts[1..];
      JoinEndsWithLast(rest, sep);
      var j := Join(rest, sep);
      var l := Last(rest);
      assert Last(parts) == l by {
        assert parts == [parts[0]] + rest;
        LastCons(parts[0], rest);
      }
      var a := parts[0] + sep;
      assert Join(parts, sep) == a + j;
      assert (a + j)[|a + j| - |l|..] == j[|j| - |l|..];
    }
  }

  /** Splitting on one character gives one more piece than there are
      occurrences of that character. */
  lemma {:induction false} SplitCharCount(s: string, c: char)
    ensures |Split(s, [c])| == multiset(s)[c] + 1
    decreases |s|
  {
    var found := IndexFrom(s, [c], 0);
    if found.None? {
      ContainsChar(s, c);
    } else {
      var i := found.value;
      SplitAtFirst(s, [c], i);
      SplitCharCount(s[i + 1..], c);
      ContainsChar(s[..i], c);
      assert Split(s, [c]) == [s[..i]] + Split(s[i + 1..], [c]);
      assert multiset(s) == multiset(s[..i]) + multiset([c]) + multiset(s[i + 1..]);
    }
  }

  /** After a head that cannot start a separator, a separator at the
      start of the tail is the first one. */
  lemma FirstAt(a: string, sep: string, t: string)
    requires |sep| > 0 && sep[0] !in a && IsAt(t, sep, 0)
    ensures IndexFrom(a + t, sep, 0) == Some(|a|)
  {
    var s := a + t;
    assert IsAt(s, sep, |a|) by {
      assert s[|a|..|a| + |sep|] == t[..|sep|];
    }
    forall j | 0 <= j < |a|
      ensures !IsAt(s, sep, j)
    {
      if j + |sep| <= |s| {
        assert s[j..j + |sep|][0] == a[j];
      }
    }
  }

  /** Text whose head cannot start a separator, then one separator, then a
      tail without one, splits into head and tail. */
  lemma SplitOnce(a: string, sep: string, b: string)
    requires |sep| > 0 && sep[0] !in a && !Contains(b, sep)
    ensures Split(a + sep + b, sep) == [a, b]
  {
    var s := a + sep + b;
    assert s == a + (sep + b);
    assert IsAt(sep + b, sep, 0) by {
      assert (sep + b)[..|sep|] == sep;
    }
    FirstAt(a, sep, sep + b);
    assert s[..|a|] == a;
    assert s[|a| + |sep|..] == b;
  }

  /** `Before` stops at a separator that begins right after a head that
      cannot start one. */
  lemma BeforeFirst(a: string, sep: string, t: string)
    requires |sep| > 0 && sep[0] !in a && IsAt(t, sep, 0)
    ensures Before(a + t, sep) == a
  {
    FirstAt(a, sep, t);
    assert (a + t)[..|a|] == a;
  }

  /** Cutting at a first separator character: the head, then the split of
      the rest. */
  lemma SplitHead(a: string, c: char, t: string)
    requires c !in a
    ensures Split(a + [c] + t, [c]) == [a] + Split(t, [c])
  {
    var s := a + [c] + t;
    assert s == a + ([c] + t);
    assert IsAt([c] + t, [c], 0) by {
      assert ([c] + t)[..1] == [c];
    }
    FirstAt(a, [c], [c] + t);
    assert s[..|a|] == a;
    assert s[|a| + 1..] == t;
  }

  /** Text without the separator character is one piece. */
  lemma SplitNone(s: string, c: char)
    requires c !in s
    ensures Split(s, [c]) == [s]
  {
    ContainsChar(s, c);
  }

  /** The last piece of a split on `c` is the text after the last `c`,
      whatever comes before it. */
  lemma SplitLast(a: string, c: char, b: string)
    requires c !in b
    ensures Last(Split(a + [c] + b, [c])) == b
  {
    var s := a + [c] + b;
    assert s[|s| - |b|..] == b;
    SplitSuffix(s, c, b);
  }

  /** `b` ends `s`, holds no `c`, and follows a `c` unless it is all of
      `s`: it is the last piece. */
  lemma {:induction false} SplitSuffix(s: string, c: char, b: string)
    requires |b| <= |s| && s[|s| - |b|..] == b && c !in b
    requires |b| < |s| ==> s[|s| - |b| - 1] == c
    ensures Last(Split(s, [c])) == b
    decreases |s|
  {
    if |b| == |s| {
      assert s == b;
      SplitNone(s, c);
    } else {
      var j := |s| - |b| - 1;
      assert IsAt(s, [c], j) by {
        assert s[j..j + 1] == [c];
      }
      var i := IndexFrom(s, [c], 0).value;
      assert i <= j;
      var rest := s[i + 1..];
      SuffixOfRest(s, b, i);
      SplitSuffix(rest, c, b);
      SplitLastAfterFirst(s, c, i);
    }
  }

  lemma SuffixOfRest(s: string, b: string, i: nat)
    requires |b| < |s| && s[|s| - |b|..] == b && i <= |s| - |b| - 1
    ensures |b| <= |s[i + 1..]| && s[i + 1..][|s[i + 1..]| - |b|..] == b
    ensures |b| < |s[i + 1..]| ==> s[i + 1..][|s[i + 1..]| - |b| - 1] == s[|s| - |b| - 1]
  {
  }

  /** Splitting at the first separator keeps the last piece of the rest. */
  lemma SplitLastAfterFirst(s: string, c: char, i: nat)
    requires IndexFrom(s, [c], 0) == Some(i)
    ensures i < |s| && Last(Split(s, [c])) == Last(Split(s[i + 1..], [c]))
  {
    SplitAtFirst(s, [c], i);
    var rest := Split(s[i + 1..], [c]);
    assert Split(s, [c]) == [s[..i]] + rest;
    LastCons(s[..i], rest);
  }

  lemma LastCons(x: string, rest: seq<string>)
    requires |rest| > 0
    ensures Last([x] + rest) == Last(rest)
  {
  }

  /** The position of the first `c` in text that holds one. */
  lemma FirstIndex(a: string, c: char) returns (i: nat)
    requires c in a
    ensures i < |a| && a[i] == c && c !in a[..i]
    ensures a == a[..i] + [c] + a[i + 1..]
  {
    ContainsChar(a, c);
    i := IndexFrom(a, [c], 0).value;
    SplitAtFirst(a, [c], i);
    ContainsChar(a[..i], c);
    assert a[i..i + 1] == [c];
  }

  /** `f"{x}"` for an optional string: Python spells a missing value
      `None`. */
  function StrOf(x: Option<string>): string {
    match x
    case None => "None"
    case Some(v) => v
  }

  /** Splitting text with exactly one `c` gives the text around it. */
  lemma SplitCharOnce(a: string, c: char, b: string)
    requires c !in a && c !in b
    ensures Split(a + [c] + b, [c]) == [a, b]
  {
    ContainsChar(b, c);
    SplitOnce(a, [c], b);
  }

  /** `s` with every character in `drop` deleted, as chained
      `s.replace(x, "")` calls or `re.sub("[...]", "", s)` do. */
  function Without(s: string, drop: set<char>): (r: string)
    ensures |r| <= |s|
  {
    if s == [] then [] else (if s[0] in drop then [] else [s[0]]) + Without(s[1..], drop)
  }

  /** No dropped character survives. */
  lemma {:induction false} WithoutDrops(s: string, drop: set<char>, c: char)
    requires c in drop
    ensures c !in Without(s, drop)
    decreases |s|
  {
    if s != [] {
      WithoutDrops(s[1..], drop, c);
    }
  }

  /** Every character that is not dropped keeps its number of occurrences. */
  lemma {:induction false} WithoutCount(s: string, drop: set<char>)
    ensures forall c :: c !in drop ==> multiset(Without(s, drop))[c] == multiset(s)[c]
    decreases |s|
  {
    if s != [] {
      WithoutCount(s[1..], drop);
      assert s == [s[0]] + s[1..];
    }
  }

  /** Deleting characters distributes over concatenation, so `Without` keeps
      the survivors in their original order. */
  lemma {:induction false} WithoutAppend(a: string, b: string, drop: set<char>)
    ensures Without(a + b, drop) == Without(a, drop) + Without(b, drop)
    decreases |a|
  {
    if a == [] {
      assert a + b == b;
    } else {
      var head := if a[0] in drop then [] else [a[0]];
      WithoutAppend(a[1..], b, drop);
      assert (a + b)[0] == a[0];
      assert (a + b)[1..] == a[1..] + b;
      calc {
        Without(a + b, drop);
        head + Without(a[1..] + b, drop);
        head + (Without(a[1..], drop) + Without(b, drop));
        (head + Without(a[1..], drop)) + Without(b, drop);
        Without(a, drop) + Without(b, drop);
      }
    }
  }

  /** A string free of the dropped characters is left as it is. */
  lemma {:induction false} WithoutNoop(s: string, drop: set<char>)
    requires forall i :: 0 <= i < |s| ==> s[i] !in drop
    ensures Without(s, drop) == s
    decreases |s|
  {
    if s != [] {
      WithoutNoop(s[1..], drop);
      assert s == [s[0]] + s[1..];
    }
  }

  /** `s.replace(c, "")` for one character `c`. */
  function RemoveChar(s: string, c: char): (r: string)
    ensures c !in r
  {
    WithoutDrops(s, {c}, c);
    Without(s, {c})
  }

  /** Every other character keeps its number of occurrences. */
  lemma RemoveCharCount(s: string, c: char, d: char)
    requires d != c
    ensures multiset(RemoveChar(s, c))[d] == multiset(s)[d]
  {
    WithoutCount(s, {c});
  }

  /** Removing `c` from text whose only `c` is the last character takes
      that character off. */
  lemma RemoveLastChar(b: string, c: char)
    requires c !in b
    ensures RemoveChar(b + [c], c) == b
  {
    WithoutAppend(b, [c], {c});
    WithoutNoop(b, {c});
  }

  /** `s.rstrip(c)`: trailing copies of `c` are removed, nothing else. */
  function RStripChar(s: string, c: char): (r: string)
    ensures |r| <= |s| && r == s[..|r|]
    ensures forall i :: |r| <= i < |s| ==> s[i] == c
    ensures r == [] || r[|r| - 1] != c
    decreases |s|
  {
    if |s| > 0 && s[|s| - 1] == c then RStripChar(s[..|s| - 1], c) else s
  }

  /** `s.replace(pat, "")` for a pattern of any length: the pieces between
      non-overlapping occurrences, concatenated. */
  function RemoveAll(s: string, pat: string): (r: string)
    requires |pat| > 0
    ensures !Contains(s, pat) ==> r == s
  {
    Join(Split(s, pat), "")
  }

  /** One occurrence of the pattern, not preceded by its first character
      and not followed by another occurrence, is cut out. */
  lemma RemoveAllOnce(a: string, pat: string, b: string)
    requires |pat| > 0 && pat[0] !in a && !Contains(b, pat)
    ensures RemoveAll(a + pat + b, pat) == a + b
  {
    SplitOnce(a, pat, b);
    assert Join([a, b], "") == a + "" + b;
  }

  /** `str.lower()` on ASCII letters; other characters are unchanged. */
  function LowerChar(c: char): char {
    if 'A' <= c <= 'Z' then (c as int + 32) as char else c
  }

  function Lower(s: string): (r: string)
    ensures |r| == |s|
    ensures forall i :: 0 <= i < |s| ==> r[i] == LowerChar(s[i])
    ensures forall i :: 0 <= i < |r| ==> !('A' <= r[i] <= 'Z')
  {
    seq(|s|, i requires 0 <= i < |s| => LowerChar(s[i]))
  }

  predicate IsDigit(c: char) {
    '0' <= c <= '9'
  }

  function DigitChar(d: nat): char
    requires d < 10
  {
    ('0' as int + d) as char
  }

  /** `str(n)` for a natural number: its decimal digits, no leading zero. */
  function NatToDecimal(n: nat): (r: string)
    ensures |r| > 0
    decreases n
  {
    if n < 10 then [DigitChar(n)] else NatToDecimal(n / 10) + [DigitChar(n % 10)]
  }

  predicate AllDigits(s: string) {
    forall i :: 0 <= i < |s| ==> IsDigit(s[i])
  }

  /** `str(n)` is all digits, with no leading zero. */
  lemma {:induction false} NatToDecimalDigits(n: nat)
    ensures AllDigits(NatToDecimal(n))
    ensures |NatToDecimal(n)| > 1 ==> NatToDecimal(n)[0] != '0'
    decreases n
  {
    if n >= 10 {
      NatToDecimalDigits(n / 10);
    }
  }

  /** `int(s)` on a string of decimal digits. */
  function DecimalToNat(s: string): nat
    requires forall i :: 0 <= i < |s| ==> IsDigit(s[i])
    decreases |s|
  {
    if s == [] then 0
    else
      assert IsDigit(s[|s| - 1]);
      DecimalToNat(s[..|s| - 1]) * 10 + (s[|s| - 1] as int - '0' as int)
  }

  /** Printing a number and reading it back gives the number: `str` is
      injective on naturals. */
  lemma {:induction false} DecimalRoundTrip(n: nat)
    ensures AllDigits(NatToDecimal(n)) && DecimalToNat(NatToDecimal(n)) == n
    decreases n
  {
    NatToDecimalDigits(n);
    if n >= 10 {
      DecimalRoundTrip(n / 10);
      var r := NatToDecimal(n);
      assert r[..|r| - 1] == NatToDecimal(n / 10);
    }
  }
}
