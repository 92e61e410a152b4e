/**
 * The reconciliation engine of `VariableModify`: the existing variables are
 * copied into a new request list, then at most one inline candidate and then
 * the lines of an environment file are merged into it, each by the three-way
 * rule (skip an existing key, overwrite it in place, or append a new one).
 */
module Merge {
  import opened Wrappers
  import opened Strings
  import opened Variables
  import opened Search

  /**
   * What one merge pass works against: the keys and records fetched from the
   * deployment (`oldKeyList`, `oldEnvironmentVariables`) and the caller's two
   * flags (`updateVars`, `makeSecret`).
   */
  datatype Context = Context(oldKeys: seq<string>, oldVars: seq<StoredVar>, updateVars: bool, makeSecret: bool)

  /** The context the command builds: `oldKeys` lists the keys of `oldVars`. */
  function ContextOf(fetched: seq<StoredVar>, updateVars: bool, makeSecret: bool): (ctx: Context)
    ensures |ctx.oldKeys| == |ctx.oldVars| == |fetched|
    ensures forall i :: 0 <= i < |fetched| ==> ctx.oldKeys[i] == fetched[i].key
  {
    Context(Keys(fetched), fetched, updateVars, makeSecret)
  }

  /**
   * The list can be indexed at every position of `oldKeys`, in the fetched
   * records and in the request list alike.
   */
  predicate Fits(ctx: Context, vars: seq<EnvVar>)
  {
    |ctx.oldKeys| <= |ctx.oldVars| && |ctx.oldKeys| <= |vars|
  }

  /**
   * Copies the fetched records into a fresh request list, and their keys into
   * `oldKeys`, in order.
   */
  method Seed(fetched: seq<StoredVar>) returns (vars: seq<EnvVar>, oldKeys: seq<string>)
    ensures |vars| == |fetched| == |oldKeys|
    ensures forall i :: 0 <= i < |fetched| ==>
      vars[i] == EnvVar(fetched[i].key, fetched[i].value, fetched[i].isSecret) && oldKeys[i] == fetched[i].key
    ensures vars == Copies(fetched) && oldKeys == Keys(fetched)
  {
    vars, oldKeys := [], [];
    for i := 0 to |fetched|
      invariant |vars| == |oldKeys| == i
      invariant forall j :: 0 <= j < i ==>
        vars[j] == EnvVar(fetched[j].key, fetched[j].value, fetched[j].isSecret) && oldKeys[j] == fetched[j].key
    {
      vars := vars + [EnvVar(fetched[i].key, fetched[i].value, fetched[i].isSecret)];
      oldKeys := oldKeys + [fetched[i].key];
    }
  }

  /**
   * The three-way rule for one accepted candidate: a key among the old keys is
   * skipped unless updates are allowed, in which case the record at its first
   * position is rewritten (old key, new value, secrecy only raised); any other
   * key is appended with the requested secrecy.
   */
  function ApplyCandidate(ctx: Context, vars: seq<EnvVar>, key: string, value: string): (r: (seq<EnvVar>, Notice))
    requires Fits(ctx, vars)
    ensures |vars| <= |r.0|
  {
    if key in ctx.oldKeys then
      if !ctx.updateVars then (vars, KeyExists(key))
      else
        var n := FirstIndex(ctx.oldKeys, key);
        (vars[n := Updated(ctx.oldVars[n], value, ctx.makeSecret)], Updating(key))
    else (vars + [EnvVar(key, value, ctx.makeSecret)], Adding(key))
  }

  /** `addVariableFromFlag`: merges the inline key/value pair. */
  method AddVariableFromFlag(ctx: Context, vars: seq<EnvVar>, key: string, value: string)
    returns (res: seq<EnvVar>, notice: Notice)
    requires Fits(ctx, vars)
    ensures key in ctx.oldKeys && !ctx.updateVars ==> res == vars && notice == KeyExists(key)
    ensures key in ctx.oldKeys && ctx.updateVars ==>
      var n := FirstIndex(ctx.oldKeys, key);
      && |res| == |vars|
      && res[n] == EnvVar(ctx.oldVars[n].key, value, ctx.makeSecret || ctx.oldVars[n].isSecret)
      && (forall j :: 0 <= j < |vars| && j != n ==> res[j] == vars[j])
      && notice == Updating(key)
    ensures key !in ctx.oldKeys ==> res == vars + [EnvVar(key, value, ctx.makeSecret)] && notice == Adding(key)
    ensures (res, notice) == ApplyCandidate(ctx, vars, key, value)
  {
    var exist, num := Contains(ctx.oldKeys, key);
    if exist && !ctx.updateVars {
      res, notice := vars, KeyExists(key);
    } else if exist && ctx.updateVars {
      var secret := ctx.makeSecret;
      if !ctx.makeSecret {
        secret := ctx.oldVars[num].isSecret;
      }
      res := vars[num := EnvVar(ctx.oldVars[num].key, value, secret)];
      notice := Updating(key);
    } else {
      res := vars + [EnvVar(key, value, ctx.makeSecret)];
      notice := Adding(key);
    }
  }

  /**
   * The inline pair is merged only when both halves are non-empty; a lone key
   * or a lone value is reported and changes nothing.
   */
  function FlagStep(ctx: Context, vars: seq<EnvVar>, key: string, value: string): (r: (seq<EnvVar>, seq<Notice>))
    requires Fits(ctx, vars)
    ensures |vars| <= |r.0|
    ensures key == "" || value == "" ==> r.0 == vars
  {
    if key != "" && value != "" then
      var applied := ApplyCandidate(ctx, vars, key, value);
      (applied.0, [applied.1])
    else if value == "" && key != "" then (vars, [MissingValue(key)])
    else if value != "" && key == "" then (vars, [MissingKey(value)])
    else (vars, [])
  }

  /** The state of the file loop: the request list, the keys taken by earlier lines, the notices. */
  datatype FileState = FileState(vars: seq<EnvVar>, fileKeys: seq<string>, log: seq<Notice>)

  /** A file pass either runs on or panics at a line without `=`. */
  datatype FileOutcome = Running(state: FileState) | Crashed(line: nat)

  /** Go's `strings.HasPrefix(line, "#")`. */
  predicate IsComment(line: string): (r: bool)
    ensures r <==> "#" <= line
  {
    |line| > 0 && line[0] == '#'
  }

  /**
   * A line on which the file loop panics: it is read as a key/value pair
   * (neither a comment nor blank) but has no `=`, so piece `[1]` is missing.
   */
  predicate Panics(line: string)
  {
    !IsComment(line) && line != "" && '=' !in line
  }

  /**
   * One line of the file loop (line number `at`). Comments and blank lines
   * are passed over silently; a line without `=` panics; an empty key or
   * value and a key taken by an earlier line are reported and skipped; the
   * rest goes through the three-way rule, and the key is recorded unless it
   * was skipped as existing. Existence is checked against the old keys only.
   */
  function ApplyLine(ctx: Context, st: FileState, line: string, at: nat): (r: FileOutcome)
    requires Fits(ctx, st.vars)
    ensures r.Running? ==> |st.vars| <= |r.state.vars|
    ensures r.Crashed? <==> Panics(line)
    ensures r.Crashed? ==> r.line == at
  {
    if IsComment(line) || line == "" then Running(st)
    else match SplitKeyValue(line)
      case None => Crashed(at)
      case Some(kv) =>
        if kv.key == "" then Running(st.(log := st.log + [EmptyKey(kv.value)]))
        else if kv.value == "" then Running(st.(log := st.log + [EmptyValue(kv.key)]))
        else if kv.key in st.fileKeys then Running(st.(log := st.log + [DuplicateInFile(kv.key)]))
        else if kv.key in ctx.oldKeys && !ctx.updateVars then Running(st.(log := st.log + [KeyExists(kv.key)]))
        else
          var applied := ApplyCandidate(ctx, st.vars, kv.key, kv.value);
          Running(FileState(applied.0, st.fileKeys + [kv.key], st.log + [applied.1]))
  }

  /** The file loop over `lines`, from a request list `vars`, as a left fold of `ApplyLine`. */
  function MergeFile(ctx: Context, vars: seq<EnvVar>, lines: seq<string>): (r: FileOutcome)
    requires Fits(ctx, vars)
    ensures r.Running? ==> |vars| <= |r.state.vars|
    ensures r.Crashed? ==> r.line < |lines|
    decreases |lines|
  {
    if lines == [] then Running(FileState(vars, [], []))
    else
      match MergeFile(ctx, vars, lines[..|lines| - 1])
      case Crashed(at) => Crashed(at)
      case Running(st) => ApplyLine(ctx, st, lines[|lines| - 1], |lines| - 1)
  }

  /**
   * The file pass panics exactly when some line is neither a comment nor
   * blank and has no `=`, and it panics at the first such line.
   */
  lemma {:induction false} MergeFilePanics(ctx: Context, vars: seq<EnvVar>, lines: seq<string>)
    requires Fits(ctx, vars)
    ensures MergeFile(ctx, vars, lines).Crashed? <==> exists i :: 0 <= i < |lines| && Panics(lines[i])
    ensures MergeFile(ctx, vars, lines).Crashed? ==>
      var at := MergeFile(ctx, vars, lines).line;
      Panics(lines[at]) && forall j :: 0 <= j < at ==> !Panics(lines[j])
    decreases |lines|
  {
    if lines != [] {
      var prefix := lines[..|lines| - 1];
      MergeFilePanics(ctx, vars, prefix);
      assert forall i :: 0 <= i < |prefix| ==> prefix[i] == lines[i];
      if MergeFile(ctx, vars, prefix).Running? {
        assert forall i :: 0 <= i < |lines| && Panics(lines[i]) ==> i == |lines| - 1;
      }
    }
  }

  /** Once the fold has panicked on a prefix, it has panicked on the whole file. */
  lemma {:induction false} CrashPersists(ctx: Context, vars: seq<EnvVar>, lines: seq<string>, k: nat)
    requires Fits(ctx, vars)
    requires k <= |lines|
    requires MergeFile(ctx, vars, lines[..k]).Crashed?
    ensures MergeFile(ctx, vars, lines) == MergeFile(ctx, vars, lines[..k])
    decreases |lines| - k
  {
    if k < |lines| {
      var longer := lines[..k + 1];
      assert longer[..k] == lines[..k];
      CrashPersists(ctx, vars, lines, k + 1);
    } else {
      assert lines[..k] == lines;
    }
  }

  /** `addVariablesFromFile`: merges the lines of an environment file. */
  method AddVariablesFromFile(ctx: Context, vars0: seq<EnvVar>, lines: seq<string>) returns (r: FileOutcome)
    requires Fits(ctx, vars0)
    ensures r == MergeFile(ctx, vars0, lines)
  {
    var vars, newKeys, log := vars0, [], [];
    for i := 0 to |lines|
      invariant MergeFile(ctx, vars0, lines[..i]) == Running(FileState(vars, newKeys, log))
    {
      var line := lines[i];
      assert lines[..i + 1][..i] == lines[..i];
      if IsComment(line) {
        continue;
      }
      if line == "" {
        continue;
      }
      var kv := SplitKeyValue(line);
      if kv.None? {
        CrashPersists(ctx, vars0, lines, i + 1);
        return Crashed(i);
      }
      var key, value := kv.value.key, kv.value.value;
      if key == "" {
        log := log + [EmptyKey(value)];
        continue;
      }
      if value == "" {
        log := log + [EmptyValue(key)];
        continue;
      }
      var existFile, _ := Contains(newKeys, key);
      if existFile {
        log := log + [DuplicateInFile(key)];
        continue;
      }
      var exist, num := Contains(ctx.oldKeys, key);
      if exist {
        if !ctx.updateVars {
          log := log + [KeyExists(key)];
          continue;
        }
        log := log + [Updating(key)];
        var secret := ctx.makeSecret;
        if !ctx.makeSecret {
          secret := ctx.oldVars[num].isSecret;
        }
        vars := vars[num := EnvVar(ctx.oldVars[num].key, value, secret)];
        newKeys := newKeys + [key];
        continue;
      }
      vars := vars + [EnvVar(key, value, ctx.makeSecret)];
      newKeys := newKeys + [key];
      log := log + [Adding(key)];
    }
    assert lines[..|lines|] == lines;
    return Running(FileState(vars, newKeys, log));
  }

  /** What the modify path sends: the request list and the notices, or the panic. */
  datatype Outcome = Payload(vars: seq<EnvVar>, log: seq<Notice>) | Panicked(line: nat)

  /**
   * The whole merge of `VariableModify` for the fetched records `fetched`: seed,
   * the inline pair, then the file when one is given (`None` when no file
   * was asked for; a file that cannot be read contributes the lines read).
   */
  function Reconcile(fetched: seq<StoredVar>, key: string, value: string, file: Option<seq<string>>,
                     updateVars: bool, makeSecret: bool): (r: Outcome)
    ensures r.Panicked? <==> file.Some? && exists i :: 0 <= i < |file.value| && Panics(file.value[i])
    ensures r.Panicked? ==>
      && r.line < |file.value|
      && Panics(file.value[r.line])
      && forall j :: 0 <= j < r.line ==> !Panics(file.value[j])
    ensures r.Payload? ==> |fetched| <= |r.vars|
  {
    var ctx := ContextOf(fetched, updateVars, makeSecret);
    var (vars1, log1) := FlagStep(ctx, Copies(fetched), key, value);
    match file
    case None => Payload(vars1, log1)
    case Some(lines) =>
      MergeFilePanics(ctx, vars1, lines);
      match MergeFile(ctx, vars1, lines)
      case Crashed(at) => Panicked(at)
      case Running(st) => Payload(st.vars, log1 + st.log)
  }
}
