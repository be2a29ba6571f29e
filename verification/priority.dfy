/** `to_priority`: the CSV's P1..P4 (or 1..4) mapped onto the task service's
    inverted scale, where 4 is the most urgent. */
module Priority {
  import opened Wrappers
  import opened Text

  /** The task service's value for each accepted digit after the `P`s are stripped. */
  const ApiPriority: map<string, int> := map["1" := 4, "2" := 3, "3" := 2, "4" := 1]

  /** What every unrecognised or missing value maps to. */
  const DefaultPriority := 4

  /** Python's `s.lstrip("P")`. */
  function StripLeadingP(s: string): string
  {
    if s != [] && s[0] == 'P' then StripLeadingP(s[1..]) else s
  }

  /** Every character is a `p` or a `P`. */
  predicate AllP(s: string) {
    forall i :: 0 <= i < |s| ==> s[i] == 'p' || s[i] == 'P'
  }

  /** The digit character of `n`. */
  function DigitChar(n: int): char
    requires 0 <= n <= 9
  {
    (n + '0' as int) as char
  }

  /** A run of `p`/`P` followed by the digit `d`. */
  predicate IsPDigit(x: string, d: char) {
    |x| >= 1 && x[|x| - 1] == d && AllP(x[..|x| - 1])
  }

  /** The stripped value is some run of `p`/`P` followed by the digit of level `n` (1..4). */
  ghost predicate NamesLevel(val: Option<string>, n: int) {
    val.Some? && 1 <= n <= 4 && IsPDigit(Strip(val.value), DigitChar(n))
  }

  /** `to_priority`: total, always in 1..4; level n written as `n`, `Pn`, `pn`,
      `PPn`, ... gives 5 - n, and everything else (including `None`) gives 4. */
  function ToPriority(val: Option<string>): (r: int)
    ensures 1 <= r <= 4
    ensures forall n :: NamesLevel(val, n) ==> r == 5 - n
    ensures (forall n :: !NamesLevel(val, n)) ==> r == DefaultPriority
  {
    match val
    case None => DefaultPriority
    case Some(v) =>
      var s := StripLeadingP(Upper(Strip(v)));
      LemmaApiPriority(s);
      forall n | 1 <= n <= 4
        ensures NamesLevel(val, n) <==> LevelOf(s) == n
      {
        LemmaStripPDigit(Strip(v), DigitChar(n));
        LemmaLevelOf(s, n);
      }
      assert s in ApiPriority ==> NamesLevel(val, LevelOf(s));
      if s in ApiPriority then ApiPriority[s] else DefaultPriority
  }

  /** The level a stripped value names, or 0 for none. */
  function LevelOf(s: string): int {
    if s == "1" then 1 else if s == "2" then 2 else if s == "3" then 3 else if s == "4" then 4 else 0
  }

  /** The value names level `n` exactly when it is that level's digit. */
  lemma LemmaLevelOf(s: string, n: int)
    requires 1 <= n <= 4
    ensures LevelOf(s) == n <==> s == [DigitChar(n)]
  {
  }

  /** The lookup table holds exactly the four level digits, each at the inverted level. */
  lemma LemmaApiPriority(s: string)
    ensures s in ApiPriority <==> LevelOf(s) != 0
    ensures s in ApiPriority ==> ApiPriority[s] == 5 - LevelOf(s)
  {
  }

  /** `x.upper().lstrip("P")` is the single digit `d` exactly when `x` is a run
      of `p`/`P` followed by `d`. */
  lemma {:induction false} LemmaStripPDigit(x: string, d: char)
    requires '0' <= d <= '9'
    ensures StripLeadingP(Upper(x)) == [d] <==> IsPDigit(x, d)
    decreases |x|
  {
    if x != [] {
      var u := Upper(x);
      if x[0] == 'p' || x[0] == 'P' {
        assert u[0] == 'P';
        assert u[1..] == Upper(x[1..]);
        assert StripLeadingP(u) == StripLeadingP(Upper(x[1..]));
        LemmaStripPDigit(x[1..], d);
        if |x| > 1 {
          assert x[1..][..|x| - 2] == x[1..|x| - 1];
          assert x[..|x| - 1] == [x[0]] + x[1..|x| - 1];
          assert IsPDigit(x, d) <==> IsPDigit(x[1..], d);
        }
      } else {
        assert u[0] != 'P';
        assert StripLeadingP(u) == u;
      }
    }
  }
}
