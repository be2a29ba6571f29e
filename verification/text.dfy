/** Python string primitives the scripts rely on: `str.split()`, `str.strip()`,
    `sep.join(...)`, ASCII case mapping and substring search. */
module Text {

  /** Whitespace as Python's `str.isspace` defines it; `split()` and `strip()`
      without arguments break and trim on exactly these characters. */
  predicate IsSpace(c: char) {
    || c == ' '
    || '\t' <= c <= '\r'
    || '\U{1c}' <= c <= '\U{1f}'
    || c == '\U{85}' || c == '\U{a0}' || c == '\U{1680}'
    || '\U{2000}' <= c <= '\U{200a}'
    || c == '\U{2028}' || c == '\U{2029}' || c == '\U{202f}' || c == '\U{205f}' || c == '\U{3000}'
  }

  predicate NoSpace(s: string) {
    forall i :: 0 <= i < |s| ==> !IsSpace(s[i])
  }

  predicate AllSpace(s: string) {
    forall i :: 0 <= i < |s| ==> IsSpace(s[i])
  }

  /** A token as `str.split()` yields it: non-empty and free of whitespace. */
  predicate IsWord(s: string) {
    |s| > 0 && NoSpace(s)
  }

  /** Python's `str.lstrip()`: drops the leading whitespace. */
  function StripLeft(s: string): (r: string)
    ensures |r| <= |s| && r == s[|s| - |r|..]
    ensures AllSpace(s[..|s| - |r|])
    ensures r == [] || !IsSpace(r[0])
  {
    if s != [] && IsSpace(s[0]) then StripLeft(s[1..]) else s
  }

  /** Python's `str.rstrip()`: drops the trailing whitespace. */
  function StripRight(s: string): (r: string)
    ensures |r| <= |s| && r == s[..|r|]
    ensures AllSpace(s[|r|..])
    ensures r == [] || !IsSpace(r[|r| - 1])
  {
    if s != [] && IsSpace(s[|s| - 1]) then
      var init := s[..|s| - 1];
      var r := StripRight(init);
      assert init[..|r|] == s[..|r|];
      assert AllSpace(s[|r|..]) by {
        forall i | 0 <= i < |s| - |r|
          ensures IsSpace(s[|r|..][i])
        {
          if i < |init| - |r| {
            assert s[|r|..][i] == init[|r|..][i];
          } else {
            assert s[|r|..][i] == s[|s| - 1];
          }
        }
      }
      r
    else s
  }

  /** Python's `str.strip()`. */
  function Strip(s: string): (r: string)
    ensures |r| <= |s|
    ensures r == [] || (!IsSpace(r[0]) && !IsSpace(r[|r| - 1]))
  {
    StripRight(StripLeft(s))
  }

  /** What `strip()` keeps is a contiguous piece of its input with only whitespace
      around it: a leading run of `|s| - |StripLeft(s)|` characters and a trailing run. */
  lemma LemmaStripTrims(s: string)
    ensures TrimmedAt(s, Strip(s), |s| - |StripLeft(s)|)
  {
    var left := StripLeft(s);
    LemmaTrimmedCompose(s, left, StripRight(left), |s| - |left|);
  }

  /** Cutting a whitespace run from the front and then one from the back of what is
      left cuts both from the whole. */
  lemma LemmaTrimmedCompose(s: string, left: string, r: string, k: int)
    requires 0 <= k <= |s| && left == s[k..] && AllSpace(s[..k])
    requires |r| <= |left| && r == left[..|r|] && AllSpace(left[|r|..])
    ensures TrimmedAt(s, r, k)
  {
    assert s[k..k + |r|] == left[..|r|];
    assert s[k + |r|..] == left[|r|..];
  }

  /** `r` is `s` with the whitespace run `s[..k]` cut from the front and a whitespace
      run cut from the back. */
  predicate TrimmedAt(s: string, r: string, k: int) {
    && 0 <= k <= |s| - |r|
    && r == s[k..k + |r|]
    && AllSpace(s[..k])
    && AllSpace(s[k + |r|..])
  }

  /** The number of leading non-whitespace characters of `s`. */
  function WordLen(s: string): (n: nat)
    ensures n <= |s|
    ensures forall i :: 0 <= i < n ==> !IsSpace(s[i])
    ensures n == |s| || IsSpace(s[n])
  {
    if s == [] || IsSpace(s[0]) then 0 else 1 + WordLen(s[1..])
  }

  /** Python's `str.split()` with no argument: the maximal runs of
      non-whitespace characters, left to right. */
  function Words(s: string): (ws: seq<string>)
    ensures forall i :: 0 <= i < |ws| ==> IsWord(ws[i])
    decreases |s|
  {
    if s == [] then []
    else if IsSpace(s[0]) then Words(s[1..])
    else
      var n := WordLen(s);
      [s[..n]] + Words(s[n..])
  }

  /** Python's `sep.join(xs)`. */
  function Join(sep: string, xs: seq<string>): string
  {
    if |xs| == 0 then ""
    else if |xs| == 1 then xs[0]
    else xs[0] + sep + Join(sep, xs[1..])
  }

  /** The words of every string of `xs`, in order. */
  function WordsOfAll(xs: seq<string>): seq<string>
  {
    if xs == [] then [] else Words(xs[0]) + WordsOfAll(xs[1..])
  }

  function UpperChar(c: char): char {
    if 'a' <= c <= 'z' then (c as int - 32) as char else c
  }

  function LowerChar(c: char): char {
    if 'A' <= c <= 'Z' then (c as int + 32) as char else c
  }

  /** `str.upper()` on ASCII letters; every other character is kept. */
  function Upper(s: string): (r: string)
    ensures |r| == |s|
    ensures forall i :: 0 <= i < |s| ==> r[i] == UpperChar(s[i])
  {
    seq(|s|, i requires 0 <= i < |s| => UpperChar(s[i]))
  }

  /** `str.lower()` on ASCII letters; every other character is kept. */
  function Lower(s: string): (r: string)
    ensures |r| == |s|
    ensures forall i :: 0 <= i < |s| ==> r[i] == LowerChar(s[i])
  {
    seq(|s|, i requires 0 <= i < |s| => LowerChar(s[i]))
  }

  predicate StartsWith(s: string, prefix: string) {
    |prefix| <= |s| && s[..|prefix|] == prefix
  }

  /** `p` occurs in `s` starting at offset `i`. */
  predicate OccursAt(p: string, s: string, i: int) {
    0 <= i <= |s| - |p| && s[i..i + |p|] == p
  }

  /** `p in s` for strings, read declaratively: `p` occurs at some offset of `s`. */
  ghost predicate OccursIn(p: string, s: string) {
    exists i :: OccursAt(p, s, i)
  }

  /** `p in s` for strings, as a left-to-right scan. */
  function HasSubstring(s: string, p: string): (b: bool)
    ensures b <==> OccursIn(p, s)
  {
    if StartsWith(s, p) then
      assert OccursAt(p, s, 0);
      true
    else if s == [] then
      assert forall i :: !OccursAt(p, s, i);
      false
    else
      var b := HasSubstring(s[1..], p);
      assert b ==> OccursIn(p, s) by {
        if b {
          var i :| OccursAt(p, s[1..], i);
          assert s[i + 1..i + 1 + |p|] == s[1..][i..i + |p|];
          assert OccursAt(p, s, i + 1);
        }
      }
      assert OccursIn(p, s) ==> b by {
        if OccursIn(p, s) {
          var i :| OccursAt(p, s, i);
          assert i != 0;
          assert s[1..][i - 1..i - 1 + |p|] == s[i..i + |p|];
          assert OccursAt(p, s[1..], i - 1);
        }
      }
      b
  }

  /** A string placed between two others occurs right after the first. */
  lemma LemmaOccursBetween(a: string, p: string, b: string)
    ensures OccursAt(p, a + p + b, |a|)
  {
    assert (a + p + b)[|a|..|a| + |p|] == p;
  }

  // ---------------------------------------------------------------------
  // split / strip / join interplay

  lemma LemmaWordsOfAllSpace(s: string)
    requires AllSpace(s)
    ensures Words(s) == []
    decreases |s|
  {
    if s != [] {
      LemmaWordsOfAllSpace(s[1..]);
    }
  }

  lemma {:induction false} LemmaWordLenAtSpace(a: string, c: char, b: string)
    requires IsSpace(c)
    ensures WordLen(a + [c] + b) == WordLen(a)
    decreases |a|
  {
    if a == [] {
      assert (a + [c] + b)[0] == c;
    } else if !IsSpace(a[0]) {
      assert (a + [c] + b)[1..] == a[1..] + [c] + b;
      LemmaWordLenAtSpace(a[1..], c, b);
    }
  }

  /** Splitting at a whitespace character splits the word list there. */
  lemma {:induction false} LemmaWordsAtSpace(a: string, c: char, b: string)
    requires IsSpace(c)
    ensures Words(a + [c] + b) == Words(a) + Words(b)
    decreases |a|
  {
    var s := a + [c] + b;
    if a == [] {
      assert s[0] == c && s[1..] == b;
      assert Words(s) == Words(b);
    } else if IsSpace(a[0]) {
      assert s[0] == a[0];
      assert s[1..] == a[1..] + [c] + b;
      assert Words(s) == Words(s[1..]);
      assert Words(a) == Words(a[1..]);
      LemmaWordsAtSpace(a[1..], c, b);
    } else {
      assert s[0] == a[0];
      var n := WordLen(a);
      LemmaWordLenAtSpace(a, c, b);
      assert WordLen(s) == n && n > 0;
      assert s[..n] == a[..n];
      assert s[n..] == a[n..] + [c] + b;
      assert Words(s) == [s[..n]] + Words(s[n..]);
      assert Words(a) == [a[..n]] + Words(a[n..]);
      LemmaWordsAtSpace(a[n..], c, b);
    }
  }

  lemma {:induction false} LemmaWordsOfStripLeft(s: string)
    ensures Words(StripLeft(s)) == Words(s)
    decreases |s|
  {
    if s != [] && IsSpace(s[0]) {
      LemmaWordsOfStripLeft(s[1..]);
    }
  }

  lemma LemmaWordsOfStripRight(s: string)
    ensures Words(StripRight(s)) == Words(s)
  {
    var r := StripRight(s);
    if |r| < |s| {
      assert s == r + [s[|r|]] + s[|r| + 1..];
      LemmaWordsOfAllSpace(s[|r| + 1..]);
      LemmaWordsAtSpace(r, s[|r|], s[|r| + 1..]);
    }
  }

  /** `s.strip().split() == s.split()`. */
  lemma LemmaWordsOfStrip(s: string)
    ensures Words(Strip(s)) == Words(s)
  {
    LemmaWordsOfStripLeft(s);
    LemmaWordsOfStripRight(StripLeft(s));
  }

  lemma LemmaNoWordsOfStripped(s: string)
    requires s == [] || !IsSpace(s[0])
    ensures Words(s) == [] <==> s == []
  {
  }

  /** A string is blank after `strip()` exactly when `split()` finds no token in it. */
  lemma LemmaBlankIffNoWords(s: string)
    ensures Strip(s) == [] <==> Words(s) == []
  {
    LemmaWordsOfStrip(s);
    LemmaNoWordsOfStripped(Strip(s));
  }

  /** `strip()` leaves a string unchanged exactly when it neither starts nor ends
      with whitespace. */
  lemma LemmaStripFixedPoint(s: string)
    ensures Strip(s) == s <==> s == [] || (!IsSpace(s[0]) && !IsSpace(s[|s| - 1]))
  {
    if s != [] && !IsSpace(s[0]) && !IsSpace(s[|s| - 1]) {
      assert StripLeft(s) == s;
      assert StripRight(s) == s;
    }
  }

  /** `strip()` is idempotent. */
  lemma LemmaStripIdempotent(s: string)
    ensures Strip(Strip(s)) == Strip(s)
  {
    LemmaStripFixedPoint(Strip(s));
  }

  lemma {:induction false} LemmaJoinAppend(sep: string, xs: seq<string>, ys: seq<string>)
    requires xs != [] && ys != []
    ensures Join(sep, xs + ys) == Join(sep, xs) + sep + Join(sep, ys)
    decreases |xs|
  {
    assert (xs + ys)[0] == xs[0];
    assert (xs + ys)[1..] == xs[1..] + ys;
    if |xs| > 1 {
      LemmaJoinAppend(sep, xs[1..], ys);
    }
  }

  /** Joining with single spaces and splitting again yields the words of every part. */
  lemma {:induction false} LemmaWordsOfJoin(xs: seq<string>)
    ensures Words(Join(" ", xs)) == WordsOfAll(xs)
    decreases |xs|
  {
    if |xs| == 1 {
      assert WordsOfAll(xs[1..]) == [];
    } else if |xs| > 1 {
      LemmaWordsAtSpace(xs[0], ' ', Join(" ", xs[1..]));
      assert Join(" ", xs) == xs[0] + [' '] + Join(" ", xs[1..]);
      LemmaWordsOfJoin(xs[1..]);
    }
  }

  lemma LemmaWordsOfWord(w: string)
    requires IsWord(w)
    ensures Words(w) == [w]
  {
    assert !IsSpace(w[0]);
    var n := WordLen(w);
    assert n == |w|;
    assert w[..n] == w;
    assert w[n..] == [];
  }

  lemma {:induction false} LemmaWordsOfAllWords(xs: seq<string>)
    requires forall i :: 0 <= i < |xs| ==> IsWord(xs[i])
    ensures WordsOfAll(xs) == xs
    decreases |xs|
  {
    if xs != [] {
      LemmaWordsOfWord(xs[0]);
      LemmaWordsOfAllWords(xs[1..]);
    }
  }

  /** Tokens joined by single spaces split back into the same tokens. */
  lemma LemmaSplitJoinRoundTrip(xs: seq<string>)
    requires forall i :: 0 <= i < |xs| ==> IsWord(xs[i])
    ensures Words(Join(" ", xs)) == xs
  {
    LemmaWordsOfJoin(xs);
    LemmaWordsOfAllWords(xs);
  }

  lemma {:induction false} LemmaJoinOfWordsEdges(xs: seq<string>)
    requires forall i :: 0 <= i < |xs| ==> IsWord(xs[i])
    ensures Join(" ", xs) == [] || (!IsSpace(Join(" ", xs)[0]) && !IsSpace(Join(" ", xs)[|Join(" ", xs)| - 1]))
    decreases |xs|
  {
    if |xs| > 1 {
      LemmaJoinOfWordsEdges(xs[1..]);
      assert IsWord(xs[1]);
    }
  }

  /** Joining tokens with single spaces leaves nothing for `strip()` to remove. */
  lemma LemmaStripJoinOfWords(xs: seq<string>)
    requires forall i :: 0 <= i < |xs| ==> IsWord(xs[i])
    ensures Strip(Join(" ", xs)) == Join(" ", xs)
  {
    LemmaJoinOfWordsEdges(xs);
    var j := Join(" ", xs);
    assert StripLeft(j) == j;
    assert StripRight(j) == j;
  }
}
