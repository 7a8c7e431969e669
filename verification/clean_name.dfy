/** `clean_game_name` (src/utils/clean_name.py): turns a game title into a
    name usable as a file or table name by deleting punctuation and
    replacing each run of whitespace with one underscore.
 */
module CleanName {
  import opened PyStr

  /** What Python's `\w` matches in a `str` pattern: letters, digits and the
      underscore. ASCII is exact; outside ASCII every character that is not
      whitespace and not in the punctuation blocks listed below counts as a
      word character (CJK ideographs, kana, hangul, accented letters). */
  predicate IsWordChar(c: char) {
    || ('a' <= c <= 'z')
    || ('A' <= c <= 'Z')
    || IsDigit(c)
    || c == '_'
    || (c >= '\U{80}' && !IsSpace(c) && !IsSymbolBlock(c))
  }

  /** Non-ASCII punctuation and symbols that `\w` does not match: Latin-1
      signs, general punctuation, CJK punctuation and full-width ASCII
      punctuation. */
  predicate IsSymbolBlock(c: char) {
    || ('\U{A1}' <= c <= '\U{A9}')
    || ('\U{AB}' <= c <= '\U{B1}')
    || c == '\U{B4}'
    || ('\U{B6}' <= c <= '\U{B8}')
    || c == '\U{BB}'
    || c == '\U{BF}'
    || c == '\U{D7}'
    || c == '\U{F7}'
    || ('\U{2010}' <= c <= '\U{2027}')
    || ('\U{2030}' <= c <= '\U{205E}')
    || ('\U{3001}' <= c <= '\U{3003}')
    || ('\U{3008}' <= c <= '\U{3011}')
    || ('\U{3014}' <= c <= '\U{301F}')
    || ('\U{FF01}' <= c <= '\U{FF0F}')
    || ('\U{FF1A}' <= c <= '\U{FF20}')
    || ('\U{FF3B}' <= c <= '\U{FF40}')
    || ('\U{FF5B}' <= c <= '\U{FF65}')
  }

  lemma WordIsNotSpace(c: char)
    ensures IsWordChar(c) ==> !IsSpace(c)
  {
  }

  predicate Kept(c: char) {
    IsWordChar(c) || IsSpace(c)
  }

  /** `re.sub(r"[^\w\s]", "", s)`: every character that is neither a word
      character nor whitespace is deleted; the rest keep their counts. */
  function DropSymbols(s: string): (r: string)
    ensures forall i :: 0 <= i < |r| ==> Kept(r[i])
    ensures |r| <= |s|
    decreases |s|
  {
    if s == [] then [] else (if Kept(s[0]) then [s[0]] else []) + DropSymbols(s[1..])
  }

  lemma {:induction false} DropSymbolsAppend(a: string, b: string)
    ensures DropSymbols(a + b) == DropSymbols(a) + DropSymbols(b)
    decreases |a|
  {
    if a == [] {
      assert a + b == b;
    } else {
      DropSymbolsAppend(a[1..], b);
      assert (a + b)[0] == a[0];
      assert (a + b)[1..] == a[1..] + b;
    }
  }

  lemma {:induction false} DropSymbolsNoop(s: string)
    requires forall i :: 0 <= i < |s| ==> Kept(s[i])
    ensures DropSymbols(s) == s
    decreases |s|
  {
    if s != [] {
      DropSymbolsNoop(s[1..]);
      assert s == [s[0]] + s[1..];
    }
  }

  /** `re.sub(r"\s+", "_", s)`: each maximal whitespace run becomes one
      underscore; other characters are copied. */
  function Underscore(s: string): (r: string)
    decreases |s|
  {
    if s == [] then []
    else if IsSpace(s[0]) then
      var rest := LStrip(s);
      assert |rest| < |s| by {
        assert LStrip(s) == LStrip(s[1..]);
      }
      "_" + Underscore(rest)
    else
      [s[0]] + Underscore(s[1..])
  }

  lemma UnderscoreSpaceHead(s: string)
    requires |s| > 0 && IsSpace(s[0])
    ensures Underscore(s) == "_" + Underscore(LStrip(s))
  {
  }

  lemma UnderscoreOtherHead(s: string)
    requires |s| > 0 && !IsSpace(s[0])
    ensures Underscore(s) == [s[0]] + Underscore(s[1..])
  {
  }

  /** Underscoring text made of word characters and whitespace leaves only
      word characters. */
  lemma {:induction false} UnderscoreWords(s: string)
    requires forall i :: 0 <= i < |s| ==> Kept(s[i])
    ensures forall i :: 0 <= i < |Underscore(s)| ==> IsWordChar(Underscore(s)[i])
    decreases |s|
  {
    if s != [] {
      if IsSpace(s[0]) {
        var l := LStrip(s);
        assert |l| < |s| by {
          assert LStrip(s) == LStrip(s[1..]);
        }
        assert forall i :: 0 <= i < |l| ==> l[i] == s[|s| - |l| + i];
        UnderscoreWords(l);
      } else {
        UnderscoreWords(s[1..]);
      }
    }
  }

  lemma {:induction false} UnderscoreNoop(s: string)
    requires forall i :: 0 <= i < |s| ==> !IsSpace(s[i])
    ensures Underscore(s) == s
    decreases |s|
  {
    if s != [] {
      UnderscoreNoop(s[1..]);
      assert s == [s[0]] + s[1..];
    }
  }

  /** Leading whitespace ends inside `a` when `a` holds a non-space
      character, so the tail `t` is untouched. */
  lemma {:induction false} LStripAppend(a: string, t: string)
    requires |a| > 0 && !IsSpace(a[|a| - 1])
    ensures LStrip(a + t) == LStrip(a) + t
    ensures |LStrip(a)| > 0 && LStrip(a)[|LStrip(a)| - 1] == a[|a| - 1]
    decreases |a|
  {
    if IsSpace(a[0]) {
      assert (a + t)[0] == a[0];
      assert (a + t)[1..] == a[1..] + t;
      LStripAppend(a[1..], t);
    }
  }

  /** Whitespace in front of text that starts with a non-space is all that
      `lstrip` removes. */
  lemma {:induction false} LStripSpaceRun(w: string, b: string)
    requires AllSpace(w)
    requires b == [] || !IsSpace(b[0])
    ensures LStrip(w + b) == b
    decreases |w|
  {
    if w == [] {
      assert w + b == b;
    } else {
      assert (w + b)[1..] == w[1..] + b;
      LStripSpaceRun(w[1..], b);
    }
  }

  /** Underscoring splits at a point that is not inside a whitespace run. */
  lemma {:induction false} UnderscoreAppend(a: string, t: string)
    requires a == [] || !IsSpace(a[|a| - 1])
    ensures Underscore(a + t) == Underscore(a) + Underscore(t)
    decreases |a|, 1
  {
    if a == [] {
      assert a + t == t;
    } else if IsSpace(a[0]) {
      UnderscoreAppendSpace(a, t);
    } else {
      assert (a + t)[0] == a[0];
      assert (a + t)[1..] == a[1..] + t;
      UnderscoreAppend(a[1..], t);
      UnderscoreOtherHead(a + t);
      UnderscoreOtherHead(a);
    }
  }

  /** The case of `UnderscoreAppend` where `a` opens with whitespace. */
  lemma {:induction false} UnderscoreAppendSpace(a: string, t: string)
    requires |a| > 0 && IsSpace(a[0]) && !IsSpace(a[|a| - 1])
    ensures Underscore(a + t) == Underscore(a) + Underscore(t)
    decreases |a|, 0
  {
    var l := LStrip(a);
    LStripSpaceHead(a);
    LStripAppend(a, t);
    UnderscoreAppend(l, t);
    UnderscoreSpaceHeadAppend(a, t);
    UnderscoreSpaceHead(a);
    Associative("_", Underscore(l), Underscore(t));
  }

  lemma Associative(x: string, y: string, z: string)
    ensures x + (y + z) == x + y + z
  {
  }

  lemma UnderscoreSpaceHeadAppend(a: string, t: string)
    requires |a| > 0 && IsSpace(a[0])
    ensures Underscore(a + t) == "_" + Underscore(LStrip(a + t))
  {
    assert (a + t)[0] == a[0];
    UnderscoreSpaceHead(a + t);
  }

  /** A whitespace run in front of text that does not start with whitespace
      becomes a single underscore. */
  lemma UnderscoreSpaceRun(w: string, b: string)
    requires |w| > 0 && AllSpace(w)
    requires b == [] || !IsSpace(b[0])
    ensures Underscore(w + b) == "_" + Underscore(b)
  {
    assert (w + b)[0] == w[0];
    UnderscoreSpaceHead(w + b);
    LStripSpaceRun(w, b);
  }

  lemma Regroup(a: string, w: string, b: string)
    ensures Underscore(a + w + b) == Underscore(a + (w + b))
  {
    assert a + w + b == a + (w + b);
  }

  /** Each maximal run of whitespace becomes exactly one underscore: text,
      a non-empty run, then text that does not start with whitespace. */
  lemma UnderscoreRun(a: string, w: string, b: string)
    requires a == [] || !IsSpace(a[|a| - 1])
    requires |w| > 0 && AllSpace(w)
    requires b == [] || !IsSpace(b[0])
    ensures Underscore(a + w + b) == Underscore(a) + "_" + Underscore(b)
  {
    Regroup(a, w, b);
    UnderscoreAppend(a, w + b);
    UnderscoreSpaceRun(w, b);
  }

  /** `clean_game_name`: only word characters remain (no whitespace and no
      punctuation). */
  function CleanGameName(name: string): (r: string)
    ensures forall i :: 0 <= i < |r| ==> IsWordChar(r[i]) && !IsSpace(r[i])
  {
    UnderscoreWords(DropSymbols(name));
    Underscore(DropSymbols(name))
  }

  /** `clean_game_name` is idempotent. */
  lemma CleanGameNameIdempotent(name: string)
    ensures CleanGameName(CleanGameName(name)) == CleanGameName(name)
  {
    var r := CleanGameName(name);
    DropSymbolsNoop(r);
    UnderscoreNoop(r);
  }

  /** The word characters other than the underscore, in order. */
  function Letters(s: string): (r: string)
    ensures forall i :: 0 <= i < |r| ==> IsWordChar(r[i]) && r[i] != '_'
    decreases |s|
  {
    if s == [] then []
    else (if IsWordChar(s[0]) && s[0] != '_' then [s[0]] else []) + Letters(s[1..])
  }

  lemma {:induction false} LettersAppend(a: string, b: string)
    ensures Letters(a + b) == Letters(a) + Letters(b)
    decreases |a|
  {
    if a == [] {
      assert a + b == b;
    } else {
      LettersAppend(a[1..], b);
      assert (a + b)[0] == a[0];
      assert (a + b)[1..] == a[1..] + b;
    }
  }

  lemma {:induction false} DropSymbolsLetters(s: string)
    ensures Letters(DropSymbols(s)) == Letters(s)
    decreases |s|
  {
    if s != [] {
      DropSymbolsLetters(s[1..]);
      var head := if Kept(s[0]) then [s[0]] else [];
      LettersAppend(head, DropSymbols(s[1..]));
    }
  }

  lemma {:induction false} UnderscoreLetters(s: string)
    ensures Letters(Underscore(s)) == Letters(s)
    decreases |s|
  {
    if s != [] {
      if IsSpace(s[0]) {
        var l := LStrip(s);
        LStripSpaceHead(s);
        var front := s[..|s| - |l|];
        calc {
          Letters(Underscore(s));
          { UnderscoreSpaceHead(s); }
          Letters("_" + Underscore(l));
          { LettersAppend("_", Underscore(l)); }
          Letters(Underscore(l));
          { UnderscoreLetters(l); }
          Letters(l);
          { LStripFront(s); SpaceHasNoLetters(front); }
          Letters(front) + Letters(l);
          { LettersAppend(front, l); LStripSplits(s); }
          Letters(s);
        }
      } else {
        calc {
          Letters(Underscore(s));
          { UnderscoreOtherHead(s); }
          Letters([s[0]] + Underscore(s[1..]));
          { LettersAppend([s[0]], Underscore(s[1..])); }
          Letters([s[0]]) + Letters(Underscore(s[1..]));
          { UnderscoreLetters(s[1..]); }
          Letters([s[0]]) + Letters(s[1..]);
          { LettersAppend([s[0]], s[1..]); assert s == [s[0]] + s[1..]; }
          Letters(s);
        }
      }
    }
  }

  lemma {:induction false} SpaceHasNoLetters(w: string)
    requires AllSpace(w)
    ensures Letters(w) == []
    decreases |w|
  {
    if w != [] {
      SpaceHasNoLetters(w[1..]);
    }
  }

  /** Word characters survive `clean_game_name` in their original order; the
      only word character it adds is the underscore. */
  lemma CleanGameNameKeepsLetters(name: string)
    ensures Letters(CleanGameName(name)) == Letters(name)
  {
    DropSymbolsLetters(name);
    UnderscoreLetters(DropSymbols(name));
  }
}
