/** `read_rows` header normalisation and the per-row body of the importer's main loop. */
module Rows {
  import opened Wrappers
  import opened Text
  import Content
  import Priority
  import Due
  import Seqs
  import Payload

  /** A cell as `csv.DictReader` hands it over: `None` for a cell missing at the end of a
      short row, the text of a cell, or, under the `None` header, the list of cells a long
      row has beyond its headers. */
  datatype Cell = Missing | Text(text: string) | Extra(cells: seq<string>)

  /** One field of a row: header (`None` only for the surplus cells) and cell. */
  type Field = (Option<string>, Cell)

  /** `(k or "").strip().upper()`. */
  function NormKey(k: Option<string>): string {
    Upper(Strip(k.GetOr("")))
  }

  /** `(v or "").strip()` raises on a non-empty list of surplus cells: a list has no `strip`. */
  predicate Breaks(f: Field) {
    f.1.Extra? && f.1.cells != []
  }

  /** `(v or "").strip()` where it does not raise: `None` and the empty list are falsy. */
  function CellText(c: Cell): string {
    match c
    case Text(t) => Strip(t)
    case _ => ""
  }

  /** Both halves of a field normalised. */
  function NormField(f: Field): (string, string) {
    (NormKey(f.0), CellText(f.1))
  }

  /** Pair `i` is the last one with its key. */
  ghost predicate IsLastForKey<K, V>(pairs: seq<(K, V)>, i: int) {
    && 0 <= i < |pairs|
    && forall j :: i < j < |pairs| ==> pairs[j].0 != pairs[i].0
  }

  /** A dict built from key/value pairs in order: a later pair overwrites an earlier one. */
  function DictOf<K, V>(pairs: seq<(K, V)>): map<K, V>
  {
    if pairs == [] then map[]
    else
      var n := |pairs| - 1;
      DictOf(pairs[..n])[pairs[n].0 := pairs[n].1]
  }

  /** Some pair carries key `k`. */
  ghost predicate HasKey<K, V>(pairs: seq<(K, V)>, k: K) {
    exists i :: 0 <= i < |pairs| && pairs[i].0 == k
  }

  /** The dict has exactly the keys of the pairs. */
  lemma {:induction false} LemmaDictOfKeys<K, V>(pairs: seq<(K, V)>)
    ensures forall k :: k in DictOf(pairs) <==> HasKey(pairs, k)
    decreases |pairs|
  {
    if pairs != [] {
      var n := |pairs| - 1;
      var init := pairs[..n];
      LemmaDictOfKeys(init);
      forall k | k in DictOf(pairs)
        ensures HasKey(pairs, k)
      {
        if k != pairs[n].0 {
          assert k in DictOf(init);
          assert HasKey(init, k);
          var i :| 0 <= i < |init| && init[i].0 == k;
          assert pairs[i] == init[i];
        } else {
          assert pairs[n].0 == k;
        }
      }
      forall k | HasKey(pairs, k)
        ensures k in DictOf(pairs)
      {
        var i :| 0 <= i < |pairs| && pairs[i].0 == k;
        if i < n {
          assert pairs[i] == init[i];
          assert HasKey(init, k);
        }
      }
    }
  }

  /** Every key maps to the value of the last pair carrying it. */
  lemma {:induction false} LemmaDictOfLastWins<K, V>(pairs: seq<(K, V)>, i: int)
    requires IsLastForKey(pairs, i)
    ensures pairs[i].0 in DictOf(pairs) && DictOf(pairs)[pairs[i].0] == pairs[i].1
    decreases |pairs|
  {
    var n := |pairs| - 1;
    var init := pairs[..n];
    if i < n {
      assert pairs[i] == init[i];
      assert IsLastForKey(init, i) by {
        forall j | i < j < n
          ensures init[j].0 != init[i].0
        {
          assert init[j] == pairs[j];
        }
      }
      LemmaDictOfLastWins(init, i);
    }
  }

  /** `read_rows`: `{(k or "").strip().upper(): (v or "").strip() for k, v in row.items()}`.
      A row with more cells than headers raises, and the exception ends the import. */
  function NormalizeRow(fields: seq<Field>): (r: Result<map<string, string>, ImportError>)
    ensures r.Failure? <==> exists i :: 0 <= i < |fields| && Breaks(fields[i])
    ensures r.Failure? ==> r.error == ExtraCells
  {
    var broken := Seqs.Filter(Breaks, fields);
    if broken != [] then
      assert Breaks(broken[0]) && broken[0] in fields;
      Failure(ExtraCells)
    else
      Success(DictOf(Seqs.Map(NormField, fields)))
  }

  /** Some field's header normalises to `k`. */
  ghost predicate HasHeader(fields: seq<Field>, k: string) {
    exists i :: 0 <= i < |fields| && NormKey(fields[i].0) == k
  }

  /** No later field's header normalises to the same key as field `i`'s. */
  ghost predicate IsLastHeader(fields: seq<Field>, i: int) {
    && 0 <= i < |fields|
    && forall j :: i < j < |fields| ==> NormKey(fields[j].0) != NormKey(fields[i].0)
  }

  /** A mapped pair list carries key `k` exactly when some element maps to a pair with key `k`. */
  lemma LemmaMapHasKey<T, K, V>(f: T -> (K, V), xs: seq<T>, k: K)
    ensures HasKey(Seqs.Map(f, xs), k) <==> exists i :: 0 <= i < |xs| && f(xs[i]).0 == k
  {
    var pairs := Seqs.Map(f, xs);
    if HasKey(pairs, k) {
      var i :| 0 <= i < |pairs| && pairs[i].0 == k;
      assert f(xs[i]).0 == k;
    }
  }

  /** The normalised row has exactly the normalised headers as keys. */
  lemma LemmaNormalizeRowKeys(fields: seq<Field>)
    requires NormalizeRow(fields).Success?
    ensures forall k :: k in NormalizeRow(fields).value <==> HasHeader(fields, k)
  {
    LemmaDictOfKeys(Seqs.Map(NormField, fields));
    forall k
      ensures HasKey(Seqs.Map(NormField, fields), k) <==> HasHeader(fields, k)
    {
      LemmaMapHasKey(NormField, fields, k);
      if HasHeader(fields, k) {
        var i :| 0 <= i < |fields| && NormKey(fields[i].0) == k;
        assert NormField(fields[i]).0 == k;
      }
    }
  }

  /** Each normalised header maps to the normalised cell of the last field carrying it. */
  lemma LemmaNormalizeRowLastWins(fields: seq<Field>, i: int)
    requires NormalizeRow(fields).Success?
    requires IsLastHeader(fields, i)
    ensures NormKey(fields[i].0) in NormalizeRow(fields).value
    ensures NormalizeRow(fields).value[NormKey(fields[i].0)] == CellText(fields[i].1)
  {
    var pairs := Seqs.Map(NormField, fields);
    assert pairs[i] == (NormKey(fields[i].0), CellText(fields[i].1));
    assert IsLastForKey(pairs, i) by {
      forall j | i < j < |pairs|
        ensures pairs[j].0 != pairs[i].0
      {
        assert pairs[j].0 == NormKey(fields[j].0);
      }
    }
    LemmaDictOfLastWins(pairs, i);
  }

  /** Why a row stops the import: surplus cells, a due value the parser rejects, or a
      missing section. */
  datatype ImportError = ExtraCells | BadDue(text: string) | MissingSection(name: string)

  /** CONTENT parsed; a row without the column reads as `""`. */
  function ParsedOf(row: map<string, string>): Content.ParsedContent {
    Content.ParseContent(Get(row, "CONTENT").GetOr(""))
  }

  /** The due value of a row, from its DUE_DATE and DUE_TIME cells. */
  function DueOf(row: map<string, string>, render: string -> Option<string>): Result<Option<string>, Due.DueError> {
    Due.ToIso(Get(row, "DUE_DATE"), Get(row, "DUE_TIME"), render)
  }

  /** The section is named but has no truthy id in the project. */
  predicate SectionMissing(section: Option<string>, sections: map<string, string>) {
    Truthy(section) && (section.value !in sections || sections[section.value] == [])
  }

  /** The body of the `for r in read_rows(...)` loop of `main`: parse CONTENT, build the
      due value and the priority, then decide the payload. The due value is built before
      the empty-title check, so a malformed date stops the import even for a row that
      `create_task` would skip. Once the due value is built, the outcome is `Submit`'s. */
  function ProcessRow(row: map<string, string>, projectId: int, sections: map<string, string>,
                      render: string -> Option<string>)
    : (r: Result<Option<Payload.TaskPayload>, ImportError>)
    ensures var due := DueOf(row, render);
      && (r.Failure? && r.error.BadDue? <==> due.Failure?)
      && (due.Failure? ==> r.error == BadDue(due.error.text))
    ensures DueOf(row, render).Success? ==> r == Submit(row, DueOf(row, render).value, projectId, sections)
  {
    match DueOf(row, render)
    case Failure(e) => Failure(BadDue(e.text))
    case Success(dueIso) => Submit(row, dueIso, projectId, sections)
  }

  /** The `create_task` call of the loop body once the due value is built. */
  function Submit(row: map<string, string>, dueIso: Option<string>, projectId: int, sections: map<string, string>)
    : (r: Result<Option<Payload.TaskPayload>, ImportError>)
    ensures r.Failure? ==> r.error.MissingSection?
    ensures ParsedOf(row).title == [] ==> r == Success(None)
    ensures ParsedOf(row).title != [] ==>
      var section := ParsedOf(row).section;
      && (r.Failure? <==> SectionMissing(section, sections))
      && (r.Failure? ==> r.error == MissingSection(section.value))
      && (r.Success? ==> r.value.Some?)
    ensures r.Success? && r.value.Some? ==>
      var p := r.value.value;
      && p.content == ParsedOf(row).title
      && p.projectId == projectId
      && p.labels == ParsedOf(row).labels
      && p.priority == Priority.ToPriority(Get(row, "PRIORITY"))
    ensures r.Success? && r.value.Some? ==>
      var description := Get(row, "DESCRIPTION").GetOr("");
      && r.value.value.description == (if description != [] then Some(description) else None)
      && r.value.value.dueDatetime == (if Truthy(dueIso) then dueIso else None)
    ensures r.Success? && r.value.Some? ==>
      var section := ParsedOf(row).section;
      r.value.value.sectionId == (if Truthy(section) then Some(sections[section.value]) else None)
  {
    var parsed := ParsedOf(row);
    var priority := Priority.ToPriority(Get(row, "PRIORITY"));
    var description := Get(row, "DESCRIPTION").GetOr("");
    match Payload.BuildPayload(projectId, sections, parsed.title, parsed.labels, parsed.section,
                               dueIso, description, priority)
    case Failure(e) => Failure(MissingSection(e.name))
    case Success(p) => Success(p)
  }

  /** One row from the file to its outcome: `read_rows` normalises it, raising on surplus
      cells, then the loop body runs on the normalised row. */
  function ImportRow(fields: seq<Field>, projectId: int, sections: map<string, string>,
                     render: string -> Option<string>)
    : (r: Result<Option<Payload.TaskPayload>, ImportError>)
    ensures (exists i :: 0 <= i < |fields| && Breaks(fields[i])) ==> r == Failure(ExtraCells)
    ensures NormalizeRow(fields).Success? ==> r == ProcessRow(NormalizeRow(fields).value, projectId, sections, render)
  {
    match NormalizeRow(fields)
    case Failure(e) => Failure(e)
    case Success(row) => ProcessRow(row, projectId, sections, render)
  }

  /** The payloads among some row outcomes, in row order. */
  function Posted<P, E>(outcomes: seq<Result<Option<P>, E>>): seq<P> {
    if outcomes == [] then []
    else
      var rest := Posted(outcomes[1..]);
      match outcomes[0]
      case Success(Some(p)) => [p] + rest
      case _ => rest
  }

  /** How far the main loop got: the tasks it posted, the value of its counter, and the
      error that ended it early, if any. */
  datatype Run<P, E> = Run(posted: seq<P>, count: nat, error: Option<E>)

  /** The `for` loop of `main` over row outcomes: rows run in order, a failing row raises
      out of the loop, and the counter goes up once per row that did not raise, whether
      `create_task` posted it or skipped it. */
  function RunRows<P, E>(outcomes: seq<Result<Option<P>, E>>): (run: Run<P, E>)
    ensures run.count <= |outcomes|
    ensures forall i :: 0 <= i < run.count ==> outcomes[i].Success?
    ensures run.error.None? <==> run.count == |outcomes|
    ensures run.error.Some? ==> outcomes[run.count] == Failure(run.error.value)
    ensures run.posted == Posted(outcomes[..run.count])
  {
    if outcomes == [] then Run([], 0, None)
    else
      match outcomes[0]
      case Failure(e) =>
        assert outcomes[..0] == [];
        Run([], 0, Some(e))
      case Success(p) =>
        var rest := RunRows(outcomes[1..]);
        assert outcomes[..rest.count + 1][1..] == outcomes[1..][..rest.count];
        Run(if p.Some? then [p.value] + rest.posted else rest.posted, rest.count + 1, rest.error)
  }

  /** The counter never undercounts the posted tasks; it overcounts by the skipped rows. */
  lemma {:induction false} LemmaPostedAtMostCount<P, E>(outcomes: seq<Result<Option<P>, E>>)
    ensures |Posted(outcomes)| <= |outcomes|
    ensures |Posted(outcomes)| == |outcomes| <==> forall i :: 0 <= i < |outcomes| ==> outcomes[i].Success? && outcomes[i].value.Some?
    decreases |outcomes|
  {
    if outcomes != [] {
      LemmaPostedAtMostCount(outcomes[1..]);
      assert forall i :: 1 <= i < |outcomes| ==> outcomes[i] == outcomes[1..][i - 1];
    }
  }

  /** The outcome of every row, in file order. */
  function Outcomes(rows: seq<seq<Field>>, projectId: int, sections: map<string, string>,
                    render: string -> Option<string>)
    : (os: seq<Result<Option<Payload.TaskPayload>, ImportError>>)
    ensures |os| == |rows|
    ensures forall i :: 0 <= i < |rows| ==> os[i] == ImportRow(rows[i], projectId, sections, render)
  {
    seq(|rows|, i requires 0 <= i < |rows| => ImportRow(rows[i], projectId, sections, render))
  }

  /** The whole import after the CSV is chosen and the project looked up: every row of
      the file through `ImportRow`, in file order, until one raises. The tasks posted are
      the payloads of the rows before that one. */
  function ImportRows(rows: seq<seq<Field>>, projectId: int, sections: map<string, string>,
                      render: string -> Option<string>)
    : (run: Run<Payload.TaskPayload, ImportError>)
    ensures run.count <= |rows|
    ensures |run.posted| <= run.count
    ensures forall i :: 0 <= i < run.count ==> ImportRow(rows[i], projectId, sections, render).Success?
    ensures run.error.None? <==> run.count == |rows|
    ensures run.error.Some? ==> ImportRow(rows[run.count], projectId, sections, render) == Failure(run.error.value)
    ensures run.posted == Posted(Outcomes(rows, projectId, sections, render)[..run.count])
  {
    var outcomes := Outcomes(rows, projectId, sections, render);
    var run := RunRows(outcomes);
    LemmaPostedAtMostCount(outcomes[..run.count]);
    run
  }

  /** A row with surplus cells ends the import there: the rows before it are all that
      is processed, and nothing after it is. */
  lemma LemmaExtraCellsStopImport(rows: seq<seq<Field>>, projectId: int, sections: map<string, string>,
                                  render: string -> Option<string>, k: int, j: int)
    requires 0 <= k < |rows| && 0 <= j < |rows[k]| && Breaks(rows[k][j])
    ensures ImportRows(rows, projectId, sections, render).count <= k
  {
    var run := ImportRows(rows, projectId, sections, render);
    assert ImportRow(rows[k], projectId, sections, render) == Failure(ExtraCells);
  }
}
