/** `to_iso`: the due timestamp of a row. The parse of `"%Y-%m-%d %H:%M"`, the
    attachment of the configured zone and the ISO rendering are one foreign step,
    passed in as `render`: it yields the ISO text, or `None` where the parse raises. */
module Due {
  import opened Wrappers
  import opened Text

  /** The time used when a row has none: the end of the day. */
  const DefaultTime := "23:59"

  /** The exception `strptime` raises, carrying the text it rejected. */
  datatype DueError = MalformedDue(text: string)

  /** Python's `s or default` on an optional string: `None` and `""` are falsy. */
  function OrElse(s: Option<string>, default: string): (r: string)
    ensures Truthy(s) ==> r == s.value
    ensures !Truthy(s) ==> r == default
  {
    if Truthy(s) then s.value else default
  }

  /** The text handed to the parser: the stripped date, one space, the stripped
      time or the default time. */
  function ParserInput(date: Option<string>, time: Option<string>): string
  {
    Strip(OrElse(date, "")) + " " + Strip(OrElse(time, DefaultTime))
  }

  /** `to_iso`: no due value exactly when the stripped date is empty; otherwise the
      date and time (or 23:59) are parsed and rendered, and a rejected parse is an error. */
  function ToIso(date: Option<string>, time: Option<string>, render: string -> Option<string>)
    : (r: Result<Option<string>, DueError>)
    ensures r == Success(None) <==> Strip(OrElse(date, "")) == []
    ensures Strip(OrElse(date, "")) != [] ==>
      var x := ParserInput(date, time);
      && (r.Failure? <==> render(x).None?)
      && (r.Failure? ==> r.error == MalformedDue(x))
      && (r.Success? ==> r.value == render(x))
  {
    Decide(Strip(OrElse(date, "")), ParserInput(date, time), render)
  }

  /** The decision of `to_iso` once the date is stripped and the parser input built. */
  function Decide(date: string, input: string, render: string -> Option<string>): Result<Option<string>, DueError>
  {
    if date == [] then Success(None)
    else
      match render(input)
      case None => Failure(MalformedDue(input))
      case Some(iso) => Success(Some(iso))
  }

  /** A missing or empty time is read as 23:59: a date always yields a date-time,
      never an all-day value. */
  lemma LemmaMissingTimeIsEndOfDay(date: Option<string>, time: Option<string>, render: string -> Option<string>)
    requires time.None? || time.value == []
    ensures ToIso(date, time, render) == ToIso(date, Some(DefaultTime), render)
    ensures Strip(OrElse(date, "")) != [] ==>
      ToIso(date, time, render) == (
        match render(Strip(OrElse(date, "")) + " 23:59")
        case None => Failure(MalformedDue(Strip(OrElse(date, "")) + " 23:59"))
        case Some(iso) => Success(Some(iso)))
  {
    assert !IsSpace(DefaultTime[0]) && !IsSpace(DefaultTime[4]);
    assert StripLeft(DefaultTime) == DefaultTime;
    assert StripRight(DefaultTime) == DefaultTime;
    assert OrElse(time, DefaultTime) == DefaultTime;
    assert OrElse(Some(DefaultTime), DefaultTime) == DefaultTime;
    var d := Strip(OrElse(date, ""));
    assert d + " " + DefaultTime == d + " 23:59";
  }

  lemma LemmaStripTimeFirst(time: string)
    requires time == [] || Strip(time) != []
    ensures Strip(OrElse(Some(Strip(time)), DefaultTime)) == Strip(OrElse(Some(time), DefaultTime))
  {
    if time == [] {
      assert Strip(time) == [];
      assert OrElse(Some(Strip(time)), DefaultTime) == DefaultTime;
      assert OrElse(Some(time), DefaultTime) == DefaultTime;
    } else {
      assert Truthy(Some(Strip(time))) && Truthy(Some(time));
      assert OrElse(Some(Strip(time)), DefaultTime) == Strip(time);
      assert OrElse(Some(time), DefaultTime) == time;
      LemmaStripIdempotent(time);
    }
  }

  lemma LemmaStripDateFirst(date: string)
    ensures Strip(OrElse(Some(Strip(date)), "")) == Strip(OrElse(Some(date), ""))
  {
    LemmaStripIdempotent(date);
    if Strip(date) == [] {
      assert OrElse(Some(Strip(date)), "") == [];
      assert Strip([]) == [];
      assert Strip(OrElse(Some(date), "")) == [];
    } else {
      assert date != [];
      assert OrElse(Some(Strip(date)), "") == Strip(date);
      assert OrElse(Some(date), "") == date;
    }
  }

  /** Stripping the inputs first changes nothing, unless the time is whitespace
      only: such a time is truthy, so it is not defaulted, and strips to empty. */
  lemma LemmaStrippedInputs(date: string, time: string, render: string -> Option<string>)
    requires time == [] || Strip(time) != []
    ensures ToIso(Some(Strip(date)), Some(Strip(time)), render) == ToIso(Some(date), Some(time), render)
  {
    LemmaStripTimeFirst(time);
    LemmaStripDateFirst(date);
    LemmaToIsoCongruence(Some(Strip(date)), Some(Strip(time)), Some(date), Some(time), render);
  }

  /** `to_iso` looks at its inputs only through the stripped date and the stripped time. */
  lemma LemmaToIsoCongruence(d1: Option<string>, t1: Option<string>, d2: Option<string>, t2: Option<string>,
                             render: string -> Option<string>)
    requires Strip(OrElse(d1, "")) == Strip(OrElse(d2, ""))
    requires Strip(OrElse(t1, DefaultTime)) == Strip(OrElse(t2, DefaultTime))
    ensures ToIso(d1, t1, render) == ToIso(d2, t2, render)
  {
    assert ParserInput(d1, t1) == ParserInput(d2, t2);
  }

  /** A whitespace-only time is not replaced by the default: the parser is handed
      the date followed by a lone space. */
  lemma LemmaBlankTimeIsNotDefaulted(date: string, time: string, render: string -> Option<string>)
    requires Strip(date) != [] && time != [] && Strip(time) == []
    ensures ToIso(Some(date), Some(time), render).Failure? <==> render(Strip(date) + " ").None?
  {
    assert OrElse(Some(time), DefaultTime) == time;
    assert OrElse(Some(date), "") == date;
    var x := Strip(date) + " " + Strip(time);
    assert x == Strip(date) + " ";
    assert ToIso(Some(date), Some(time), render).Failure? <==> render(x).None?;
  }
}
