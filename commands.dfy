/**
 * The two commands around the merge: `VariableModify` (find the deployment,
 * merge, produce the update request) and `VariableList` (find the deployment,
 * optionally export its variables to a file, select the table rows).
 */
module Commands {
  import opened Wrappers
  import opened Strings
  import opened Variables
  import opened Search
  import opened Merge

  /** The position of the last deployment whose ID is `id`, if any. */
  function LastMatch(deployments: seq<Deployment>, id: string): (k: Option<nat>)
    ensures k.None? <==> forall j :: 0 <= j < |deployments| ==> deployments[j].id != id
    ensures k.Some? ==>
      && k.value < |deployments|
      && deployments[k.value].id == id
      && forall j :: k.value < j < |deployments| ==> deployments[j].id != id
    decreases |deployments|
  {
    if deployments == [] then None
    else if deployments[|deployments| - 1].id == id then Some(|deployments| - 1)
    else LastMatch(deployments[..|deployments| - 1], id)
  }

  /**
   * The deployment the commands act on: the last one with the requested ID.
   * The source rejects the result when its ID is empty, which happens when
   * nothing matched and also when the requested ID itself is empty.
   */
  function Resolve(deployments: seq<Deployment>, id: string): (r: Option<Deployment>)
    ensures r.Some? <==> id != "" && exists j :: 0 <= j < |deployments| && deployments[j].id == id
    ensures r.Some? ==> r.value.id == id
    ensures r.Some? ==>
      exists k :: 0 <= k < |deployments| && deployments[k] == r.value && (forall j :: k < j < |deployments| ==> deployments[j].id != id)
  {
    match LastMatch(deployments, id)
    case None => None
    case Some(k) => if deployments[k].id == "" then None else Some(deployments[k])
  }

  /** The validation loop of both commands; `None` stands for `errInvalidDeploymentKey`. */
  method FindDeployment(deployments: seq<Deployment>, id: string) returns (r: Option<Deployment>)
    ensures r.Some? <==> id != "" && exists j :: 0 <= j < |deployments| && deployments[j].id == id
    ensures r.Some? ==> r.value.id == id && r.value in deployments
    ensures r == Resolve(deployments, id)
  {
    var current := Deployment("", []);
    for i := 0 to |deployments|
      invariant current == match LastMatch(deployments[..i], id)
                           case None => Deployment("", [])
                           case Some(k) => deployments[k]
    {
      assert deployments[..i + 1][..i] == deployments[..i];
      if deployments[i].id == id {
        current := deployments[i];
      }
    }
    assert deployments[..|deployments|] == deployments;
    if current.id == "" {
      return None;
    }
    return Some(current);
  }

  /** Why a command stops without a result. */
  datatype CommandError = InvalidDeploymentKey | Panic(line: nat)

  datatype Result<+T> = Ok(value: T) | Err(error: CommandError)

  /** The update request `VariableModify` sends, and what it reported on the way. */
  datatype Request = Request(deploymentID: string, vars: seq<EnvVar>, log: seq<Notice>)

  /**
   * `VariableModify` up to the update request: the deployment is looked up,
   * its variables are merged with the inline pair and with the file lines
   * (`file` is `None` when no file was asked for), and the request carries
   * the merged list. A line without `=` panics before anything is sent.
   */
  method VariableModify(deployments: seq<Deployment>, deploymentID: string, key: string, value: string,
                        file: Option<seq<string>>, updateVars: bool, makeSecret: bool)
    returns (r: Result<Request>)
    ensures Resolve(deployments, deploymentID).None? <==> r == Err(InvalidDeploymentKey)
    ensures Resolve(deployments, deploymentID).Some? ==>
      var d := Resolve(deployments, deploymentID).value;
      match Reconcile(d.vars, key, value, file, updateVars, makeSecret)
      case Panicked(at) => r == Err(Panic(at))
      case Payload(vs, log) => r == Ok(Request(d.id, vs, log))
  {
    var found := FindDeployment(deployments, deploymentID);
    if found.None? {
      return Err(InvalidDeploymentKey);
    }
    var current := found.value;
    var vars, oldKeys := Seed(current.vars);
    var ctx := Context(oldKeys, current.vars, updateVars, makeSecret);
    assert ctx == ContextOf(current.vars, updateVars, makeSecret);
    var log: seq<Notice> := [];
    if key != "" && value != "" {
      var notice;
      vars, notice := AddVariableFromFlag(ctx, vars, key, value);
      log := log + [notice];
    }
    if value == "" && key != "" {
      log := log + [MissingValue(key)];
    }
    if value != "" && key == "" {
      log := log + [MissingKey(value)];
    }
    assert vars == FlagStep(ctx, Copies(current.vars), key, value).0;
    assert log == FlagStep(ctx, Copies(current.vars), key, value).1;
    if file.Some? {
      var outcome := AddVariablesFromFile(ctx, vars, file.value);
      if outcome.Crashed? {
        return Err(Panic(outcome.line));
      }
      vars, log := outcome.state.vars, log + outcome.state.log;
    }
    return Ok(Request(current.id, vars, log));
  }

  /** A row of the variables table: 1-based number, key, value, secrecy. */
  datatype Row = Row(number: nat, key: string, value: string, isSecret: bool)

  /** The table `VariableList` prints, or its distinct "No variables found" answer. */
  datatype Listing = NoVariablesFound | Table(rows: seq<Row>)

  /** `sel` numbered from 1 in order. */
  function Numbered(sel: seq<StoredVar>): (rows: seq<Row>)
    ensures |rows| == |sel|
    ensures forall i :: 0 <= i < |sel| ==> rows[i] == Row(i + 1, sel[i].key, sel[i].value, sel[i].isSecret)
  {
    seq(|sel|, i requires 0 <= i < |sel| => Row(i + 1, sel[i].key, sel[i].value, sel[i].isSecret))
  }

  /**
   * The records `VariableList` shows for the key filter `filter`: the first
   * record whose key equals the filter ends the listing. A non-empty filter
   * shows that record alone; the empty filter shows every record up to it,
   * which is every record when none has an empty key.
   */
  function Selected(vars: seq<StoredVar>, filter: string): (sel: seq<StoredVar>)
  {
    var n := FirstIndex(Keys(vars), filter);
    (if filter == "" then vars[..n] else []) + (if n < |vars| then [vars[n]] else [])
  }

  /**
   * With no filter the listing shows a prefix of the records, in order; with
   * a filter it shows at most one record, and that record has the filter key.
   */
  lemma SelectedShape(vars: seq<StoredVar>, filter: string)
    ensures |Selected(vars, filter)| <= |vars|
    ensures filter == "" ==> Selected(vars, filter) == vars[..|Selected(vars, filter)|]
    ensures filter != "" ==> |Selected(vars, filter)| <= 1
    ensures forall i :: 0 <= i < |Selected(vars, filter)| && filter != "" ==> Selected(vars, filter)[i].key == filter
  {
    var n := FirstIndex(Keys(vars), filter);
    if n < |vars| {
      assert Keys(vars)[n] == filter;
      assert vars[..n] + [vars[n]] == vars[..n + 1];
    }
  }

  /** Numbering one more record continues the numbering. */
  lemma NumberedSnoc(sel: seq<StoredVar>, v: StoredVar)
    ensures Numbered(sel + [v]) == Numbered(sel) + [Row(|sel| + 1, v.key, v.value, v.isSecret)]
  {
  }

  /** The first record with the filter key ends the selection. */
  lemma SelectedStopsAt(vars: seq<StoredVar>, filter: string, i: nat)
    requires i < |vars| && vars[i].key == filter
    requires forall j :: 0 <= j < i ==> vars[j].key != filter
    ensures Selected(vars, filter) == (if filter == "" then vars[..i] else []) + [vars[i]]
  {
    assert Keys(vars)[i] == filter;
    assert forall j :: 0 <= j < i ==> Keys(vars)[j] != filter;
  }

  /** Without a record holding the filter key the selection is every record, or none. */
  lemma SelectedWithoutStop(vars: seq<StoredVar>, filter: string)
    requires forall j :: 0 <= j < |vars| ==> vars[j].key != filter
    ensures Selected(vars, filter) == if filter == "" then vars else []
  {
    assert forall j :: 0 <= j < |vars| ==> Keys(vars)[j] != filter;
    assert vars[..|vars|] == vars;
  }

  /** The row selection of `VariableList`. */
  method ListRows(vars: seq<StoredVar>, filter: string) returns (r: Listing)
    ensures r.NoVariablesFound? <==> Selected(vars, filter) == []
    ensures r.Table? ==> r.rows == Numbered(Selected(vars, filter))
  {
    var rows: seq<Row> := [];
    var found := 0;
    var stopped := false;
    for i := 0 to |vars|
      invariant forall j :: 0 <= j < i ==> vars[j].key != filter
      invariant rows == Numbered(if filter == "" then vars[..i] else [])
      invariant found == |rows|
    {
      var shown := if filter == "" then vars[..i] else [];
      if vars[i].key == filter {
        found := found + 1;
        NumberedSnoc(shown, vars[i]);
        rows := rows + [Row(found, vars[i].key, vars[i].value, vars[i].isSecret)];
        SelectedStopsAt(vars, filter, i);
        stopped := true;
        break;
      } else if filter == "" {
        found := found + 1;
        NumberedSnoc(shown, vars[i]);
        assert vars[..i + 1] == shown + [vars[i]];
        rows := rows + [Row(found, vars[i].key, vars[i].value, vars[i].isSecret)];
      }
    }
    if !stopped {
      SelectedWithoutStop(vars, filter);
    }
    if found == 0 {
      return NoVariablesFound;
    }
    return Table(rows);
  }

  /** What `VariableList` produces: the text appended to the export file, if asked for, and the table. */
  datatype ListOutput = ListOutput(exported: Option<string>, listing: Listing)

  /**
   * `VariableList`: looks the deployment up, appends its variables to the
   * export file when asked (`useEnvFile`), then selects the rows to show.
   */
  method VariableList(deployments: seq<Deployment>, deploymentID: string, filter: string, useEnvFile: bool)
    returns (r: Result<ListOutput>)
    ensures Resolve(deployments, deploymentID).None? <==> r == Err(InvalidDeploymentKey)
    ensures Resolve(deployments, deploymentID).Some? ==>
      var vars := Resolve(deployments, deploymentID).value.vars;
      && r.Ok?
      && r.value.exported == (if useEnvFile then Some(ExportText(Matching(vars, filter))) else None)
      && (r.value.listing.NoVariablesFound? <==> Selected(vars, filter) == [])
      && (r.value.listing.Table? ==> r.value.listing.rows == Numbered(Selected(vars, filter)))
  {
    var found := FindDeployment(deployments, deploymentID);
    if found.None? {
      return Err(InvalidDeploymentKey);
    }
    var vars := found.value.vars;
    var exported := None;
    if useEnvFile {
      var text := WriteVarToFile(vars, filter);
      exported := Some(text);
    }
    var listing := ListRows(vars, filter);
    return Ok(ListOutput(exported, listing));
  }

  /**
   * The filter test comes before the empty-filter test, so with the empty
   * filter a record whose key is empty ends the listing after itself.
   */
  lemma EmptyKeyEndsListing(vars: seq<StoredVar>, j: nat)
    requires j < |vars| && vars[j].key == ""
    requires forall i :: 0 <= i < j ==> vars[i].key != ""
    ensures Selected(vars, "") == vars[..j + 1]
  {
    assert FirstIndex(Keys(vars), "") == j by {
      assert Keys(vars)[j] == "";
      assert forall i :: 0 <= i < j ==> Keys(vars)[i] != "";
    }
    assert vars[..j + 1] == vars[..j] + [vars[j]];
  }

  /** With no filter and no empty key, the listing shows every record, in order. */
  lemma {:induction false} ListAllWithoutFilter(vars: seq<StoredVar>)
    requires forall i :: 0 <= i < |vars| ==> vars[i].key != ""
    ensures Selected(vars, "") == vars
  {
    assert "" !in Keys(vars);
    assert vars[..|vars|] == vars;
  }

  /** A non-empty filter shows at most one record: the first with that key. */
  lemma ListOneWithFilter(vars: seq<StoredVar>, filter: string)
    requires filter != ""
    ensures |Selected(vars, filter)| <= 1
    ensures Selected(vars, filter) == [] <==> forall i :: 0 <= i < |vars| ==> vars[i].key != filter
    ensures Selected(vars, filter) != [] ==> Selected(vars, filter)[0] == vars[FirstIndex(Keys(vars), filter)]
  {
    if Selected(vars, filter) == [] {
      forall i | 0 <= i < |vars| ensures vars[i].key != filter {
        assert Keys(vars)[i] == vars[i].key;
      }
    }
  }

  /** The records `writeVarToFile` writes: all when the filter is empty, else those with that key. */
  function Matching(vars: seq<StoredVar>, filter: string): (m: seq<StoredVar>)
    ensures filter == "" ==> m == vars
    ensures |m| <= |vars|
    decreases |vars|
  {
    if vars == [] then []
    else
      var last := vars[|vars| - 1];
      var m := Matching(vars[..|vars| - 1], filter);
      if last.key == filter || filter == "" then m + [last] else m
  }

  /** Exactly the matching records are exported: each exported record is one, and each one is exported. */
  lemma {:induction false} MatchingMembers(vars: seq<StoredVar>, filter: string)
    ensures forall i :: 0 <= i < |Matching(vars, filter)| ==>
      Matching(vars, filter)[i] in vars && (filter == "" || Matching(vars, filter)[i].key == filter)
    ensures forall v :: v in vars && (v.key == filter || filter == "") ==> v in Matching(vars, filter)
    decreases |vars|
  {
    if vars != [] {
      var init := vars[..|vars| - 1];
      MatchingMembers(init, filter);
      assert vars == init + [vars[|vars| - 1]];
    }
  }

  /** A single record is exported exactly when it has the filter key or the filter is empty. */
  lemma MatchingOne(v: StoredVar, filter: string)
    ensures Matching([v], filter) == if v.key == filter || filter == "" then [v] else []
  {
    assert [v][..0] == [];
  }

  /**
   * The export of a concatenation is the concatenation of the exports: the
   * matching records come out in their order, each as often as it occurs.
   */
  lemma {:induction false} MatchingAppend(a: seq<StoredVar>, b: seq<StoredVar>, filter: string)
    ensures Matching(a + b, filter) == Matching(a, filter) + Matching(b, filter)
    decreases |b|
  {
    if b == [] {
      assert a + b == a;
    } else {
      var b' := b[..|b| - 1];
      var last := b[|b| - 1];
      assert (a + b)[..|a + b| - 1] == a + b';
      assert (a + b)[|a + b| - 1] == last;
      MatchingAppend(a, b', filter);
    }
  }

  /** One exported line: the key, `=`, and the value, secret or not. */
  function ExportLine(v: StoredVar): (line: string)
    ensures '=' in line
    ensures |line| == |v.key| + 1 + |v.value|
  {
    assert (v.key + "=" + v.value)[|v.key|] == '=';
    v.key + "=" + v.value
  }

  /** What `writeVarToFile` appends: a newline before each exported line. */
  function ExportText(sel: seq<StoredVar>): (text: string)
    decreases |sel|
  {
    if sel == [] then "" else "\n" + ExportLine(sel[0]) + ExportText(sel[1..])
  }

  lemma {:induction false} ExportTextSnoc(sel: seq<StoredVar>, v: StoredVar)
    ensures ExportText(sel + [v]) == ExportText(sel) + "\n" + ExportLine(v)
    decreases |sel|
  {
    if sel != [] {
      assert (sel + [v])[1..] == sel[1..] + [v];
      ExportTextSnoc(sel[1..], v);
    }
  }

  /**
   * The line loop of `writeVarToFile`: the text appended to the file. The
   * opening and writing of the file are not part of this model.
   */
  method WriteVarToFile(vars: seq<StoredVar>, filter: string) returns (text: string)
    ensures text == ExportText(Matching(vars, filter))
  {
    text := "";
    for i := 0 to |vars|
      invariant text == ExportText(Matching(vars[..i], filter))
    {
      WriteStep(vars, filter, i);
      if vars[i].key == filter {
        text := text + "\n" + vars[i].key + "=" + vars[i].value;
      } else if filter == "" {
        text := text + "\n" + vars[i].key + "=" + vars[i].value;
      }
    }
    assert vars[..|vars|] == vars;
  }

  /** One iteration of the export loop: a matching record adds its line, another adds nothing. */
  lemma WriteStep(vars: seq<StoredVar>, filter: string, i: nat)
    requires i < |vars|
    ensures vars[i].key == filter || filter == "" ==>
      ExportText(Matching(vars[..i + 1], filter)) == ExportText(Matching(vars[..i], filter)) + "\n" + vars[i].key + "=" + vars[i].value
    ensures !(vars[i].key == filter || filter == "") ==>
      ExportText(Matching(vars[..i + 1], filter)) == ExportText(Matching(vars[..i], filter))
  {
    var prefix := vars[..i + 1];
    assert prefix[..|prefix| - 1] == vars[..i] && prefix[|prefix| - 1] == vars[i];
    var m := Matching(vars[..i], filter);
    if vars[i].key == filter || filter == "" {
      assert Matching(prefix, filter) == m + [vars[i]];
      ExportTextSnoc(m, vars[i]);
    } else {
      assert Matching(prefix, filter) == m;
    }
  }

  /** The exported lines, one per record. */
  function ExportLines(sel: seq<StoredVar>): (lines: seq<string>)
    ensures |lines| == |sel|
    ensures forall i :: 0 <= i < |sel| ==> lines[i] == ExportLine(sel[i])
  {
    seq(|sel|, i requires 0 <= i < |sel| => ExportLine(sel[i]))
  }

  lemma {:induction false} ExportTextJoin(sel: seq<StoredVar>)
    ensures ExportText(sel) == Join([""] + ExportLines(sel), '\n')
    decreases |sel|
  {
    if sel != [] {
      ExportTextJoin(sel[1..]);
      var lines := ExportLines(sel);
      assert lines == [ExportLine(sel[0])] + ExportLines(sel[1..]);
      JoinFirst(ExportLine(sel[0]), ExportLines(sel[1..]), '\n');
      assert ([""] + lines)[1..] == lines;
    }
  }

  /** An exported line holds a character only if the key or the value does or it is `=`. */
  lemma ExportLineHasNo(v: StoredVar, c: char)
    requires c != '=' && c !in v.key && c !in v.value
    ensures c !in ExportLine(v)
  {
    var line := ExportLine(v);
    forall j | 0 <= j < |line| ensures line[j] != c {
      if j < |v.key| {
        assert line[j] == v.key[j];
      } else if j > |v.key| {
        assert line[j] == v.value[j - |v.key| - 1];
      }
    }
  }

  /**
   * Reading the appended text back line by line gives an empty first line and
   * then exactly one line per exported record, in order, provided no key or
   * value holds a newline.
   */
  lemma ExportedLinesRoundTrip(sel: seq<StoredVar>)
    requires forall i :: 0 <= i < |sel| ==> '\n' !in sel[i].key && '\n' !in sel[i].value
    ensures Split(ExportText(sel), '\n') == [""] + ExportLines(sel)
  {
    ExportTextJoin(sel);
    var parts := [""] + ExportLines(sel);
    forall i | 0 <= i < |parts| ensures '\n' !in parts[i] {
      if i > 0 {
        ExportLineHasNo(sel[i - 1], '\n');
      }
    }
    SplitJoin(parts, '\n');
  }

  /**
   * The importer never panics on an exported line, and reads the record's
   * key back whenever the key holds no `=`, even if the value does.
   */
  lemma ExportLineKey(v: StoredVar)
    ensures SplitKeyValue(ExportLine(v)).Some?
    ensures '=' !in v.key ==> SplitKeyValue(ExportLine(v)).value.key == v.key
  {
    KeyOfLine(v.key, v.value);
  }

  /**
   * An exported line is read back by the importer as the record's key and
   * value when neither contains `=`.
   */
  lemma ExportLineReadsBack(v: StoredVar)
    requires '=' !in v.key && '=' !in v.value
    ensures SplitKeyValue(ExportLine(v)) == Some(KeyValue(v.key, v.value))
  {
    KeyValueOfLine(v.key, v.value, "");
    assert ExportLine(v) == v.key + "=" + v.value + "";
  }
}
