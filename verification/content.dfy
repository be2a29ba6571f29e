/** The CONTENT tokenizer of the task importer (`parse_content` and `SECTION_PAT`):
    a row's free text is split into `@labels`, a `/WeekN` section and the title words. */
module Content {
  import opened Wrappers
  import opened Text
  import Seqs

  /** What `parse_content` returns: the title, the labels in order, the section name. */
  datatype ParsedContent = ParsedContent(title: string, labels: seq<string>, section: Option<string>)

  /** A token that becomes a label: starts with `@` and is longer than the `@` alone. */
  predicate IsLabelToken(t: string) {
    |t| > 1 && t[0] == '@'
  }

  /** `t[1:]`, the label a label token names. */
  function DropFirst(t: string): string {
    if t == [] then [] else t[1..]
  }

  predicate AllDigits(s: string) {
    forall i :: 0 <= i < |s| ==> '0' <= s[i] <= '9'
  }

  /** The separators `[_ ]?` admits between `week` and the digits. */
  const Separators: seq<string> := ["", "_", " "]

  /** What `$` admits after the digits: the end, or a final newline before it. */
  const LineEnds: seq<string> := ["", "\n"]

  /** The regular expression `^/(week[_ ]?\d+)$`, read as a language over the
      lower-cased token: it matches with `digits` as the `\d+` part. */
  ghost predicate SectionPatternMatches(t: string, digits: string) {
    && |digits| > 0
    && AllDigits(digits)
    && exists k, e :: 0 <= k < |Separators| && 0 <= e < |LineEnds|
         && Lower(t) == "/week" + Separators[k] + digits + LineEnds[e]
  }

  /** The section a `/`-token names, `"Week"` followed by the matched digits,
      or `None` when the token is not a section marker. */
  function SectionOf(t: string): Option<string>
  {
    if t == [] || t[0] != '/' then None
    else
      var l := Lower(t);
      if |l| < 5 || l[..5] != "/week" then None
      else
        var digits := DropSeparator(DropLineEnd(l[5..]));
        if |digits| > 0 && AllDigits(digits) then Some("Week" + digits) else None
  }

  /** `SectionOf` answers exactly as the pattern does: a marker yields `"Week"`
      plus the digits as written (leading zeros kept), anything else yields `None`. */
  lemma LemmaSectionOf(t: string)
    ensures forall d :: SectionPatternMatches(t, d) ==> SectionOf(t) == Some("Week" + d)
    ensures SectionOf(t).Some? ==>
      |SectionOf(t).value| > 4 && SectionOf(t).value[..4] == "Week" && SectionPatternMatches(t, SectionOf(t).value[4..])
  {
    var l := Lower(t);
    if t == [] || t[0] != '/' {
      forall d, k, e | 0 <= k < |Separators| && 0 <= e < |LineEnds|
        ensures l != "/week" + Separators[k] + d + LineEnds[e]
      {
        if t != [] {
          assert l[0] == LowerChar(t[0]) != '/';
        }
      }
    } else if |l| < 5 || l[..5] != "/week" {
      forall d, k, e | 0 <= k < |Separators| && 0 <= e < |LineEnds|
        ensures l != "/week" + Separators[k] + d + LineEnds[e]
      {
        var w := "/week" + Separators[k] + d + LineEnds[e];
        assert |w| >= 5 && w[..5] == "/week";
      }
    } else {
      var digits := DropSeparator(DropLineEnd(l[5..]));
      LemmaSectionDecomposition(t, digits);
      assert ("Week" + digits)[4..] == digits;
    }
  }

  /** Peeling the optional final newline off what follows `/week`. */
  function DropLineEnd(rest: string): string {
    if |rest| > 0 && rest[|rest| - 1] == '\n' then rest[..|rest| - 1] else rest
  }

  /** Peeling the optional `_` or space separator off the front. */
  function DropSeparator(body: string): string {
    if |body| > 0 && (body[0] == '_' || body[0] == ' ') then body[1..] else body
  }

  /** Dropping the optional final newline gives back the body before it. */
  lemma LemmaDropLineEnd(body: string, e: int)
    requires 0 <= e < |LineEnds|
    requires |body| > 0 && body[|body| - 1] != '\n'
    ensures DropLineEnd(body + LineEnds[e]) == body
  {
    var rest := body + LineEnds[e];
    if e == 0 {
      assert rest == body;
    } else {
      assert rest[|rest| - 1] == '\n';
      assert rest[..|rest| - 1] == body;
    }
  }

  /** Dropping the optional separator gives back the digits after it. */
  lemma LemmaDropSeparator(k: int, d: string)
    requires 0 <= k < |Separators|
    requires |d| > 0 && AllDigits(d)
    ensures DropSeparator(Separators[k] + d) == d
  {
    assert d[0] != '_' && d[0] != ' ';
    if k == 0 {
      assert Separators[k] + d == d;
    } else {
      assert (Separators[k] + d)[1..] == d;
    }
  }

  lemma LemmaPeelMatch(l: string, k: int, e: int, d: string)
    requires 0 <= k < |Separators| && 0 <= e < |LineEnds|
    requires |d| > 0 && AllDigits(d)
    requires l == "/week" + Separators[k] + d + LineEnds[e]
    ensures |l| >= 5 && l[..5] == "/week"
    ensures DropSeparator(DropLineEnd(l[5..])) == d
  {
    var body := Separators[k] + d;
    assert l == "/week" + (body + LineEnds[e]);
    assert l[5..] == body + LineEnds[e];
    assert body[|body| - 1] == d[|d| - 1];
    LemmaDropLineEnd(body, e);
    LemmaDropSeparator(k, d);
  }

  lemma LemmaPeelBuild(l: string, digits: string) returns (k: int, e: int)
    requires |l| >= 5 && l[..5] == "/week"
    requires digits == DropSeparator(DropLineEnd(l[5..]))
    ensures 0 <= k < |Separators| && 0 <= e < |LineEnds|
    ensures l == "/week" + Separators[k] + digits + LineEnds[e]
  {
    var rest := l[5..];
    var body := DropLineEnd(rest);
    e := LemmaSplitLineEnd(rest);
    k := LemmaSplitSeparator(body);
    var sep, end := Separators[k], LineEnds[e];
    assert rest == sep + digits + end;
    assert l == "/week" + rest;
    LemmaRegroup("/week", sep, digits, end);
  }

  /** Concatenation regrouped: the head followed by the three pieces. */
  lemma LemmaRegroup(w: string, a: string, b: string, c: string)
    ensures w + (a + b + c) == w + a + b + c
  {
  }

  /** What `DropLineEnd` peeled off is one of the line ends. */
  lemma LemmaSplitLineEnd(rest: string) returns (e: int)
    ensures 0 <= e < |LineEnds| && rest == DropLineEnd(rest) + LineEnds[e]
  {
    if |rest| > 0 && rest[|rest| - 1] == '\n' {
      e := 1;
      assert rest == rest[..|rest| - 1] + "\n";
    } else {
      e := 0;
      assert rest == rest + "";
    }
  }

  /** What `DropSeparator` peeled off is one of the separators. */
  lemma LemmaSplitSeparator(body: string) returns (k: int)
    ensures 0 <= k < |Separators| && body == Separators[k] + DropSeparator(body)
  {
    if |body| > 0 && body[0] == '_' {
      k := 1;
      assert body == "_" + body[1..];
    } else if |body| > 0 && body[0] == ' ' {
      k := 2;
      assert body == " " + body[1..];
    } else {
      k := 0;
      assert body == "" + body;
    }
  }

  /** Every way the pattern can match a token yields the same digits: the ones
      left after dropping the final newline and the separator. */
  lemma LemmaSectionDecomposition(t: string, digits: string)
    requires |Lower(t)| >= 5 && Lower(t)[..5] == "/week"
    requires digits == DropSeparator(DropLineEnd(Lower(t)[5..]))
    ensures forall d :: SectionPatternMatches(t, d) ==> d == digits
    ensures |digits| > 0 && AllDigits(digits) ==> SectionPatternMatches(t, digits)
  {
    forall d | SectionPatternMatches(t, d)
      ensures d == digits
    {
      var k, e :| 0 <= k < |Separators| && 0 <= e < |LineEnds|
        && Lower(t) == "/week" + Separators[k] + d + LineEnds[e];
      LemmaPeelMatch(Lower(t), k, e, d);
    }
    if |digits| > 0 && AllDigits(digits) {
      var k, e := LemmaPeelBuild(Lower(t), digits);
    }
  }

  /** A token the title keeps: neither a label nor a section marker. */
  predicate IsTitleToken(t: string) {
    !IsLabelToken(t) && SectionOf(t).None?
  }

  /** `tokens[i]` is a section marker and no later token is one. */
  ghost predicate IsLastSectionAt(tokens: seq<string>, i: int) {
    && 0 <= i < |tokens|
    && SectionOf(tokens[i]).Some?
    && forall j :: i < j < |tokens| ==> SectionOf(tokens[j]).None?
  }

  /** The state of the `for t in tokens` loop of `parse_content`. */
  datatype ScanState = ScanState(titleParts: seq<string>, labels: seq<string>, section: Option<string>)

  /** The loop of `parse_content` run over `tokens`, one token at a time. */
  function Scan(tokens: seq<string>): ScanState
  {
    if tokens == [] then ScanState([], [], None)
    else
      var s := Scan(tokens[..|tokens| - 1]);
      var t := tokens[|tokens| - 1];
      if IsLabelToken(t) then s.(labels := s.labels + [t[1..]])
      else if SectionOf(t).Some? then s.(section := SectionOf(t))
      else s.(titleParts := s.titleParts + [t])
  }

  /** The loop collects the label tokens, without their `@`, in order. */
  lemma {:induction false} LemmaScanLabels(tokens: seq<string>)
    ensures Scan(tokens).labels == Seqs.Map(DropFirst, Seqs.Filter(IsLabelToken, tokens))
    decreases |tokens|
  {
    if tokens != [] {
      var n := |tokens| - 1;
      var init, t := tokens[..n], tokens[n];
      assert tokens == init + [t];
      LemmaScanLabels(init);
      Seqs.LemmaFilterAppend(IsLabelToken, init, [t]);
      Seqs.LemmaMapAppend(DropFirst, Seqs.Filter(IsLabelToken, init), Seqs.Filter(IsLabelToken, [t]));
      assert Seqs.Filter(IsLabelToken, [t]) == if IsLabelToken(t) then [t] else [];
    }
  }

  /** The loop collects the title tokens in order. */
  lemma {:induction false} LemmaScanTitle(tokens: seq<string>)
    ensures Scan(tokens).titleParts == Seqs.Filter(IsTitleToken, tokens)
    decreases |tokens|
  {
    if tokens != [] {
      var n := |tokens| - 1;
      var init, t := tokens[..n], tokens[n];
      assert tokens == init + [t];
      LemmaScanTitle(init);
      Seqs.LemmaFilterAppend(IsTitleToken, init, [t]);
      assert Seqs.Filter(IsTitleToken, [t]) == if IsTitleToken(t) then [t] else [];
    }
  }

  /** The loop leaves no section exactly when no token is a section marker. */
  lemma {:induction false} LemmaScanNoSection(tokens: seq<string>)
    ensures Scan(tokens).section.None? <==> forall i :: 0 <= i < |tokens| ==> SectionOf(tokens[i]).None?
    decreases |tokens|
  {
    if tokens != [] {
      var n := |tokens| - 1;
      var init, t := tokens[..n], tokens[n];
      LemmaScanNoSection(init);
      assert forall i :: 0 <= i < n ==> tokens[i] == init[i];
      assert IsLabelToken(t) ==> SectionOf(t).None?;
    }
  }

  /** The loop leaves the section of the last marker: later markers overwrite earlier ones. */
  lemma {:induction false} LemmaScanLastSection(tokens: seq<string>, i: int)
    requires IsLastSectionAt(tokens, i)
    ensures Scan(tokens).section == SectionOf(tokens[i])
    decreases |tokens|
  {
    var n := |tokens| - 1;
    var init, t := tokens[..n], tokens[n];
    assert IsLabelToken(t) ==> SectionOf(t).None?;
    if i < n {
      assert IsLastSectionAt(init, i);
      LemmaScanLastSection(init, i);
    }
  }

  /** `parse_content`: blank content gives an empty result; otherwise the tokens
      of `content.strip().split()` are sorted into labels, section and title. */
  function ParseContent(content: string): (r: ParsedContent)
    ensures Strip(content) == [] ==> r == ParsedContent("", [], None)
    ensures r.labels == Seqs.Map(DropFirst, Seqs.Filter(IsLabelToken, Words(content)))
    ensures r.title == Join(" ", Seqs.Filter(IsTitleToken, Words(content)))
    ensures r.section.None? <==> forall i :: 0 <= i < |Words(content)| ==> SectionOf(Words(content)[i]).None?
    ensures forall i :: IsLastSectionAt(Words(content), i) ==> r.section == SectionOf(Words(content)[i])
  {
    LemmaBlankIffNoWords(content);
    if Strip(content) == [] then
      ParsedContent("", [], None)
    else
      var tokens := Words(Strip(content));
      LemmaWordsOfStrip(content);
      var s := Scan(tokens);
      LemmaScanLabels(tokens);
      LemmaScanTitle(tokens);
      LemmaScanNoSection(tokens);
      forall i | IsLastSectionAt(tokens, i)
        ensures s.section == SectionOf(tokens[i])
      {
        LemmaScanLastSection(tokens, i);
      }
      LemmaStripJoinOfWords(s.titleParts);
      ParsedContent(Strip(Join(" ", s.titleParts)), s.labels, s.section)
  }

  /** Splitting the title again gives back exactly the title tokens: no label
      token and no section marker ever reaches the title. */
  lemma LemmaTitleRoundTrip(content: string)
    ensures Words(ParseContent(content).title) == Seqs.Filter(IsTitleToken, Words(content))
    ensures forall w :: w in Words(ParseContent(content).title) ==> !IsLabelToken(w) && SectionOf(w).None?
  {
    var parts := Seqs.Filter(IsTitleToken, Words(content));
    LemmaSplitJoinRoundTrip(parts);
  }

  /** A bare `@` is not a label and stays in the title. */
  lemma LemmaBareAtStaysInTitle(content: string, i: int)
    requires 0 <= i < |Words(content)| && Words(content)[i] == "@"
    ensures "@" in Words(ParseContent(content).title)
  {
    LemmaTitleRoundTrip(content);
    assert SectionOf("@").None?;
    assert IsTitleToken(Words(content)[i]);
  }
}
