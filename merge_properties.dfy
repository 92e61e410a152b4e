/**
 * What the merge guarantees, and where it departs from key uniqueness:
 * records keep their positions, secrecy is only ever raised, every record a
 * candidate touches has a non-empty key and value, the first file line for a
 * key wins, rejected lines have no effect, and create-only passes leave the
 * existing records alone.
 */
module MergeProperties {
  import opened Wrappers
  import opened Strings
  import opened Variables
  import opened Search
  import opened Merge

  /** Position `i` below `|oldKeys|` was rewritten by a file line for its key. */
  predicate Overwritten(ctx: Context, st: FileState, i: int)
    requires 0 <= i < |st.vars|
  {
    && i < |ctx.oldKeys| && i < |ctx.oldVars|
    && ctx.updateVars
    && ctx.oldKeys[i] in st.fileKeys
    && i == FirstIndex(ctx.oldKeys, ctx.oldKeys[i])
    && st.vars[i].key == ctx.oldVars[i].key
    && st.vars[i].value != ""
    && st.vars[i].isSecret == (ctx.makeSecret || ctx.oldVars[i].isSecret)
  }

  /** Position `i` holds a record appended by a file line. */
  predicate Appended(ctx: Context, st: FileState, i: int)
    requires 0 <= i < |st.vars|
  {
    && st.vars[i].key in st.fileKeys
    && st.vars[i].key !in ctx.oldKeys
    && st.vars[i].key != ""
    && st.vars[i].value != ""
    && st.vars[i].isSecret == ctx.makeSecret
  }

  /**
   * The invariant of the file loop started from `vars0`: no key is recorded
   * twice, every earlier position is either untouched or rewritten for its
   * own key, and every later position is a distinct appended record.
   */
  predicate Conforms(ctx: Context, vars0: seq<EnvVar>, st: FileState)
  {
    && |vars0| <= |st.vars|
    && Distinct(st.fileKeys)
    && (forall i :: 0 <= i < |vars0| ==> st.vars[i] == vars0[i] || Overwritten(ctx, st, i))
    && (forall i :: |vars0| <= i < |st.vars| ==> Appended(ctx, st, i))
    && (forall i, j :: |vars0| <= i < j < |st.vars| ==> st.vars[i].key != st.vars[j].key)
  }

  /** One line keeps the invariant. */
  lemma ApplyLineConforms(ctx: Context, vars0: seq<EnvVar>, st: FileState, line: string, at: nat)
    requires Fits(ctx, vars0) && Fits(ctx, st.vars)
    requires Conforms(ctx, vars0, st)
    ensures ApplyLine(ctx, st, line, at).Running? ==> Conforms(ctx, vars0, ApplyLine(ctx, st, line, at).state)
  {
    var r := ApplyLine(ctx, st, line, at);
    if r.Running? {
      var st' := r.state;
      if st'.vars == st.vars && st'.fileKeys == st.fileKeys {
        forall i | 0 <= i < |vars0| ensures st'.vars[i] == vars0[i] || Overwritten(ctx, st', i) {
          if st.vars[i] != vars0[i] {
            assert Overwritten(ctx, st, i);
          }
        }
        forall i | |vars0| <= i < |st'.vars| ensures Appended(ctx, st', i) {
          assert Appended(ctx, st, i);
        }
      } else {
        // Only the three-way rule changes the list or the recorded keys.
        var kv := SplitKeyValue(line).value;
        var key := kv.key;
        assert key != "" && kv.value != "" && key !in st.fileKeys;
        assert st'.fileKeys == st.fileKeys + [key];
        forall i | 0 <= i < |vars0| ensures st'.vars[i] == vars0[i] || Overwritten(ctx, st', i) {
          if st'.vars[i] != vars0[i] && st.vars[i] != vars0[i] {
            assert Overwritten(ctx, st, i);
          }
        }
        forall i | |vars0| <= i < |st'.vars| ensures Appended(ctx, st', i) {
          if i < |st.vars| {
            assert Appended(ctx, st, i);
            assert st'.vars[i] == st.vars[i];
          } else {
            assert key !in ctx.oldKeys;
            assert st'.vars[i] == EnvVar(key, kv.value, ctx.makeSecret);
          }
        }
        forall i, j | |vars0| <= i < j < |st'.vars| ensures st'.vars[i].key != st'.vars[j].key {
          if j >= |st.vars| {
            assert Appended(ctx, st, i);
          }
        }
      }
    }
  }

  /** The file loop keeps the invariant, whatever the lines. */
  lemma {:induction false} MergeFileConforms(ctx: Context, vars0: seq<EnvVar>, lines: seq<string>)
    requires Fits(ctx, vars0)
    ensures MergeFile(ctx, vars0, lines).Running? ==> Conforms(ctx, vars0, MergeFile(ctx, vars0, lines).state)
    decreases |lines|
  {
    if lines != [] {
      var prefix := lines[..|lines| - 1];
      MergeFileConforms(ctx, vars0, prefix);
      var p := MergeFile(ctx, vars0, prefix);
      if p.Running? {
        ApplyLineConforms(ctx, vars0, p.state, lines[|lines| - 1], |lines| - 1);
      }
    }
  }

  /** One file line neither removes recorded keys nor shrinks the list. */
  lemma ApplyLineGrows(ctx: Context, st: FileState, line: string, at: nat)
    requires Fits(ctx, st.vars)
    ensures ApplyLine(ctx, st, line, at).Running? ==>
      var st' := ApplyLine(ctx, st, line, at).state;
      |st.vars| <= |st'.vars| && st.fileKeys <= st'.fileKeys
  {
  }

  /**
   * If the whole file runs, so does every prefix, and the keys recorded by the
   * prefix are among those recorded by the whole file.
   */
  lemma {:induction false} MergeFilePrefix(ctx: Context, vars0: seq<EnvVar>, lines: seq<string>, k: nat)
    requires Fits(ctx, vars0)
    requires k <= |lines|
    requires MergeFile(ctx, vars0, lines).Running?
    ensures MergeFile(ctx, vars0, lines[..k]).Running?
    ensures MergeFile(ctx, vars0, lines[..k]).state.fileKeys <= MergeFile(ctx, vars0, lines).state.fileKeys
    ensures |MergeFile(ctx, vars0, lines[..k]).state.vars| <= |MergeFile(ctx, vars0, lines).state.vars|
    decreases |lines| - k
  {
    if k == |lines| {
      assert lines[..k] == lines;
    } else {
      var shorter := lines[..|lines| - 1];
      assert shorter[..k] == lines[..k];
      var p := MergeFile(ctx, vars0, shorter);
      ApplyLineGrows(ctx, p.state, lines[|lines| - 1], |lines| - 1);
      MergeFilePrefix(ctx, vars0, shorter, k);
    }
  }

  /** The request list holds, below `|oldKeys|`, the old keys in their positions. */
  predicate KeysAligned(ctx: Context, vars: seq<EnvVar>)
  {
    && |ctx.oldKeys| <= |vars|
    && |ctx.oldKeys| <= |ctx.oldVars|
    && (forall i :: 0 <= i < |ctx.oldKeys| ==> vars[i].key == ctx.oldKeys[i] && ctx.oldVars[i].key == ctx.oldKeys[i])
  }

  /**
   * First line wins: once a file line has been applied for `key`, no later
   * line changes a record that carries `key`. (The stored key of a rewritten
   * position is its old key, so a rewrite for another key never lands there.)
   */
  lemma {:induction false} RecordedKeyIsFrozen(ctx: Context, vars0: seq<EnvVar>, lines: seq<string>, k: nat, key: string)
    requires KeysAligned(ctx, vars0)
    requires k <= |lines|
    requires MergeFile(ctx, vars0, lines).Running?
    requires MergeFile(ctx, vars0, lines[..k]).Running?
    requires key in MergeFile(ctx, vars0, lines[..k]).state.fileKeys
    ensures |MergeFile(ctx, vars0, lines[..k]).state.vars| <= |MergeFile(ctx, vars0, lines).state.vars|
    ensures
      var before := MergeFile(ctx, vars0, lines[..k]).state.vars;
      var after := MergeFile(ctx, vars0, lines).state.vars;
      forall i :: 0 <= i < |before| && before[i].key == key ==> after[i] == before[i]
    decreases |lines| - k
  {
    MergeFilePrefix(ctx, vars0, lines, k);
    if k == |lines| {
      assert lines[..k] == lines;
    } else {
      var shorter := lines[..|lines| - 1];
      assert shorter[..k] == lines[..k];
      MergeFilePrefix(ctx, vars0, lines, |lines| - 1);
      RecordedKeyIsFrozen(ctx, vars0, shorter, k, key);
      MergeFilePrefix(ctx, vars0, shorter, k);
      var before := MergeFile(ctx, vars0, lines[..k]).state.vars;
      var mid := MergeFile(ctx, vars0, shorter).state;
      var after := MergeFile(ctx, vars0, lines).state;
      MergeFileConforms(ctx, vars0, shorter);
      assert key in mid.fileKeys;
      var line := lines[|lines| - 1];
      if !IsComment(line) && line != "" && SplitKeyValue(line).Some? {
        var kv := SplitKeyValue(line).value;
        if kv.key != "" && kv.value != "" && kv.key !in mid.fileKeys && kv.key in ctx.oldKeys && ctx.updateVars {
          // The line rewrites position n, whose key is the old key kv.key, not `key`.
          var n := FirstIndex(ctx.oldKeys, kv.key);
          KeyOfOldPosition(ctx, vars0, mid, n);
          assert after.vars == mid.vars[n := after.vars[n]];
          assert mid.vars[n].key != key;
        }
      }
      forall i | 0 <= i < |before| && before[i].key == key ensures after.vars[i] == before[i] {
        assert mid.vars[i] == before[i];
      }
    }
  }

  /** A position below `|oldKeys|` keeps its old key through the file loop. */
  lemma KeyOfOldPosition(ctx: Context, vars0: seq<EnvVar>, st: FileState, n: nat)
    requires KeysAligned(ctx, vars0)
    requires Conforms(ctx, vars0, st)
    requires n < |ctx.oldKeys|
    ensures st.vars[n].key == ctx.oldKeys[n]
  {
    if st.vars[n] != vars0[n] {
      assert Overwritten(ctx, st, n);
    }
  }

  /** The line is read as a key/value pair whose key is `k`. */
  predicate NamesKey(line: string, k: string)
  {
    SplitKeyValue(line).Some? && SplitKeyValue(line).value.key == k
  }

  /** Every key the file pass records is the key of one of the file's lines. */
  lemma {:induction false} FileKeysFromLines(ctx: Context, vars0: seq<EnvVar>, lines: seq<string>)
    requires Fits(ctx, vars0)
    ensures MergeFile(ctx, vars0, lines).Running? ==>
      forall k :: k in MergeFile(ctx, vars0, lines).state.fileKeys ==>
        exists i :: 0 <= i < |lines| && NamesKey(lines[i], k)
    decreases |lines|
  {
    if lines != [] {
      var prefix := lines[..|lines| - 1];
      FileKeysFromLines(ctx, vars0, prefix);
      var p := MergeFile(ctx, vars0, prefix);
      var r := MergeFile(ctx, vars0, lines);
      if p.Running? && r.Running? {
        var line := lines[|lines| - 1];
        forall k | k in r.state.fileKeys ensures exists i :: 0 <= i < |lines| && NamesKey(lines[i], k) {
          if k in p.state.fileKeys {
            var i :| 0 <= i < |prefix| && NamesKey(prefix[i], k);
            assert lines[i] == prefix[i];
          } else {
            assert NamesKey(lines[|lines| - 1], k);
          }
        }
      }
    }
  }


  /** A key that no line of the file names is never recorded by the file pass. */
  lemma UnnamedKeyNotRecorded(ctx: Context, vars0: seq<EnvVar>, lines: seq<string>, key: string)
    requires Fits(ctx, vars0)
    requires forall j :: 0 <= j < |lines| ==> !NamesKey(lines[j], key)
    ensures MergeFile(ctx, vars0, lines).Running? ==> key !in MergeFile(ctx, vars0, lines).state.fileKeys
  {
    FileKeysFromLines(ctx, vars0, lines);
  }

  /**
   * A record among the old keys that no file line names is left exactly as
   * the file pass found it.
   */
  lemma UntargetedUnchangedInFile(ctx: Context, vars0: seq<EnvVar>, lines: seq<string>, n: nat)
    requires Fits(ctx, vars0)
    requires n < |ctx.oldKeys|
    requires forall j :: 0 <= j < |lines| ==> !NamesKey(lines[j], ctx.oldKeys[n])
    ensures MergeFile(ctx, vars0, lines).Running? ==> MergeFile(ctx, vars0, lines).state.vars[n] == vars0[n]
  {
    var r := MergeFile(ctx, vars0, lines);
    if r.Running? {
      MergeFileConforms(ctx, vars0, lines);
      FileKeysFromLines(ctx, vars0, lines);
      if ctx.oldKeys[n] in r.state.fileKeys {
        assert false;
      }
      assert !Overwritten(ctx, r.state, n);
    }
  }

  /** A file line `k=v` that passes every check goes through the three-way rule. */
  lemma AcceptedLine(ctx: Context, st: FileState, k: string, v: string, at: nat)
    requires Fits(ctx, st.vars)
    requires '=' !in k && '=' !in v && k != "" && v != "" && k[0] != '#'
    requires k !in st.fileKeys && (k in ctx.oldKeys ==> ctx.updateVars)
    ensures ApplyLine(ctx, st, k + "=" + v, at) ==
      var applied := ApplyCandidate(ctx, st.vars, k, v);
      Running(FileState(applied.0, st.fileKeys + [k], st.log + [applied.1]))
  {
    KeyValueOfLine(k, v, "");
    assert k + "=" + v + "" == k + "=" + v;
    assert (k + "=" + v)[0] == k[0];
  }

  /** An accepted file line for a key that was not fetched is appended with the requested secrecy. */
  lemma AppendedLine(ctx: Context, st: FileState, k: string, v: string, at: nat)
    requires Fits(ctx, st.vars)
    requires '=' !in k && '=' !in v && k != "" && v != "" && k[0] != '#'
    requires k !in st.fileKeys && k !in ctx.oldKeys
    ensures ApplyLine(ctx, st, k + "=" + v, at) ==
      Running(FileState(st.vars + [EnvVar(k, v, ctx.makeSecret)], st.fileKeys + [k], st.log + [Adding(k)]))
  {
    AcceptedLine(ctx, st, k, v, at);
  }

  /** A file line `k=v` whose key an earlier line recorded is reported and changes nothing. */
  lemma DuplicateLine(ctx: Context, st: FileState, k: string, v: string, at: nat)
    requires Fits(ctx, st.vars)
    requires '=' !in k && '=' !in v && k != "" && v != "" && k[0] != '#'
    requires k in st.fileKeys
    ensures ApplyLine(ctx, st, k + "=" + v, at) == Running(st.(log := st.log + [DuplicateInFile(k)]))
  {
    KeyValueOfLine(k, v, "");
    assert k + "=" + v + "" == k + "=" + v;
    assert (k + "=" + v)[0] == k[0];
  }

  /** A line the loop passes over or rejects on its own, whatever came before. */
  predicate Rejected(line: string)
  {
    || IsComment(line)
    || line == ""
    || (SplitKeyValue(line).Some? && (SplitKeyValue(line).value.key == "" || SplitKeyValue(line).value.value == ""))
  }

  /** Two outcomes agree on everything but the notices and the panicking line number. */
  predicate SameEffect(a: FileOutcome, b: FileOutcome)
  {
    && a.Running? == b.Running?
    && (a.Running? ==> a.state.vars == b.state.vars && a.state.fileKeys == b.state.fileKeys)
  }

  /**
   * A rejected line is inert: the file with it has the same effect on the
   * request list (and on the recorded keys) as the file without it.
   */
  lemma {:induction false} RejectedLineIsInert(ctx: Context, vars0: seq<EnvVar>, before: seq<string>, bad: string, after: seq<string>)
    requires Fits(ctx, vars0)
    requires Rejected(bad)
    ensures SameEffect(MergeFile(ctx, vars0, before + [bad] + after), MergeFile(ctx, vars0, before + after))
    decreases |after|
  {
    var with, without := before + [bad] + after, before + after;
    if after == [] {
      assert with[..|with| - 1] == before;
      assert without == before;
    } else {
      var a' := after[..|after| - 1];
      var last := after[|after| - 1];
      assert with[..|with| - 1] == before + [bad] + a';
      assert with[|with| - 1] == last;
      assert without[..|without| - 1] == before + a';
      assert without[|without| - 1] == last;
      RejectedLineIsInert(ctx, vars0, before, bad, a');
    }
  }
}

/** Properties of a whole merge pass of `VariableModify`. */
module ReconcileProperties {
  import opened Wrappers
  import opened Variables
  import opened Search
  import opened Merge
  import opened MergeProperties

  /**
   * What a merge pass may do to the request list seeded from `fetched`: every
   * fetched record stays at its position with its key and is either resent
   * unchanged or, when updates are allowed and it is the first record with
   * its key, rewritten with a non-empty value and its secrecy only raised;
   * every record after them is new: a non-empty key that was not fetched, a
   * non-empty value and the requested secrecy.
   */
  predicate Reconciled(fetched: seq<StoredVar>, updateVars: bool, makeSecret: bool, vs: seq<EnvVar>)
  {
    && |fetched| <= |vs|
    && (forall i :: 0 <= i < |fetched| ==>
          && vs[i].key == fetched[i].key
          && (fetched[i].isSecret ==> vs[i].isSecret)
          && (|| vs[i] == Copy(fetched[i])
              || (&& updateVars
                  && i == FirstIndex(Keys(fetched), fetched[i].key)
                  && vs[i].value != ""
                  && vs[i].isSecret == (makeSecret || fetched[i].isSecret))))
    && (forall i :: |fetched| <= i < |vs| ==>
          && vs[i].key !in Keys(fetched)
          && vs[i].key != ""
          && vs[i].value != ""
          && vs[i].isSecret == makeSecret)
  }

  /** The inline step keeps a reconciled list reconciled. */
  lemma FlagStepReconciled(fetched: seq<StoredVar>, updateVars: bool, makeSecret: bool, key: string, value: string)
    ensures
      var ctx := ContextOf(fetched, updateVars, makeSecret);
      Reconciled(fetched, updateVars, makeSecret, FlagStep(ctx, Copies(fetched), key, value).0)
  {
    var ctx := ContextOf(fetched, updateVars, makeSecret);
    var vs := FlagStep(ctx, Copies(fetched), key, value).0;
    forall i | 0 <= i < |fetched|
      ensures vs[i].key == fetched[i].key && (fetched[i].isSecret ==> vs[i].isSecret)
      ensures vs[i] == Copy(fetched[i]) || (updateVars && i == FirstIndex(Keys(fetched), fetched[i].key) &&
                vs[i].value != "" && vs[i].isSecret == (makeSecret || fetched[i].isSecret))
    {
      if vs[i] != Copies(fetched)[i] {
        assert key in ctx.oldKeys && updateVars && i == FirstIndex(ctx.oldKeys, key);
      }
    }
  }

  /** The file loop keeps a reconciled list reconciled. */
  lemma MergeFileReconciled(fetched: seq<StoredVar>, updateVars: bool, makeSecret: bool, vars1: seq<EnvVar>, lines: seq<string>)
    requires Reconciled(fetched, updateVars, makeSecret, vars1)
    ensures
      var ctx := ContextOf(fetched, updateVars, makeSecret);
      MergeFile(ctx, vars1, lines).Running? ==>
        Reconciled(fetched, updateVars, makeSecret, MergeFile(ctx, vars1, lines).state.vars)
  {
    var ctx := ContextOf(fetched, updateVars, makeSecret);
    var r := MergeFile(ctx, vars1, lines);
    if r.Running? {
      MergeFileConforms(ctx, vars1, lines);
      var vs := r.state.vars;
      forall i | 0 <= i < |fetched|
        ensures vs[i].key == fetched[i].key && (fetched[i].isSecret ==> vs[i].isSecret)
        ensures vs[i] == Copy(fetched[i]) || (updateVars && i == FirstIndex(Keys(fetched), fetched[i].key) &&
                  vs[i].value != "" && vs[i].isSecret == (makeSecret || fetched[i].isSecret))
      {
        if vs[i] != vars1[i] {
          assert Overwritten(ctx, r.state, i);
        }
      }
      forall i | |fetched| <= i < |vs|
        ensures vs[i].key !in Keys(fetched) && vs[i].key != "" && vs[i].value != "" && vs[i].isSecret == makeSecret
      {
        if i >= |vars1| {
          assert Appended(ctx, r.state, i);
        }
      }
    }
  }

  /**
   * Secrecy is never lowered and the fetched records keep their positions and
   * keys; all other records are new, with non-empty keys and values.
   */
  lemma ReconcileKeepsExisting(fetched: seq<StoredVar>, key: string, value: string, file: Option<seq<string>>,
                               updateVars: bool, makeSecret: bool)
    ensures Reconcile(fetched, key, value, file, updateVars, makeSecret).Payload? ==>
      Reconciled(fetched, updateVars, makeSecret, Reconcile(fetched, key, value, file, updateVars, makeSecret).vars)
  {
    var ctx := ContextOf(fetched, updateVars, makeSecret);
    FlagStepReconciled(fetched, updateVars, makeSecret, key, value);
    if file.Some? {
      MergeFileReconciled(fetched, updateVars, makeSecret, FlagStep(ctx, Copies(fetched), key, value).0, file.value);
    }
  }

  /**
   * Nothing else changes: a fetched record whose key is neither the inline
   * key nor the key of any file line is resent exactly as it was.
   */
  lemma UntargetedUnchanged(fetched: seq<StoredVar>, key: string, value: string, file: Option<seq<string>>,
                            updateVars: bool, makeSecret: bool, n: nat)
    requires n < |fetched|
    requires fetched[n].key != key
    requires file.Some? ==> forall j :: 0 <= j < |file.value| ==> !NamesKey(file.value[j], fetched[n].key)
    ensures Reconcile(fetched, key, value, file, updateVars, makeSecret).Payload? ==>
      Reconcile(fetched, key, value, file, updateVars, makeSecret).vars[n] == Copy(fetched[n])
  {
    var ctx := ContextOf(fetched, updateVars, makeSecret);
    var vars1 := FlagStep(ctx, Copies(fetched), key, value).0;
    assert vars1[n] == Copy(fetched[n]) by {
      if key != "" && value != "" && key in ctx.oldKeys && updateVars {
        var m := FirstIndex(ctx.oldKeys, key);
        assert ctx.oldKeys[m] == key;
        assert m != n;
      }
    }
    if file.Some? {
      UntargetedUnchangedInFile(ctx, vars1, file.value, n);
    }
  }

  /** Without `updateVars`, every fetched record is resent exactly as it was. */
  lemma ReconcileCreateOnly(fetched: seq<StoredVar>, key: string, value: string, file: Option<seq<string>>, makeSecret: bool)
    ensures Reconcile(fetched, key, value, file, false, makeSecret).Payload? ==>
      var vs := Reconcile(fetched, key, value, file, false, makeSecret).vars;
      |fetched| <= |vs| && vs[..|fetched|] == Copies(fetched)
  {
    ReconcileKeepsExisting(fetched, key, value, file, false, makeSecret);
  }

  /**
   * The request has no duplicate key when the fetched keys have none, unless
   * the inline pair was appended and a line of the file names its key.
   */
  lemma ReconcileDistinctKeys(fetched: seq<StoredVar>, key: string, value: string, file: Option<seq<string>>,
                              updateVars: bool, makeSecret: bool)
    requires Distinct(Keys(fetched))
    requires || file.None? || key == "" || value == "" || key in Keys(fetched)
             || forall j :: 0 <= j < |file.value| ==> !NamesKey(file.value[j], key)
    ensures Reconcile(fetched, key, value, file, updateVars, makeSecret).Payload? ==>
      DistinctKeys(Reconcile(fetched, key, value, file, updateVars, makeSecret).vars)
  {
    var ctx := ContextOf(fetched, updateVars, makeSecret);
    var vars1 := FlagStep(ctx, Copies(fetched), key, value).0;
    var r := Reconcile(fetched, key, value, file, updateVars, makeSecret);
    var inlineAppended := key != "" && value != "" && key !in Keys(fetched);
    ReconcileKeepsExisting(fetched, key, value, file, updateVars, makeSecret);
    if r.Payload? {
      var vs := r.vars;
      if file.Some? {
        MergeFileConforms(ctx, vars1, file.value);
        if inlineAppended {
          UnnamedKeyNotRecorded(ctx, vars1, file.value, key);
          assert |vars1| == |fetched| + 1 && vars1[|fetched|].key == key;
        } else {
          assert |vars1| == |fetched|;
        }
      }
      forall i, j | 0 <= i < j < |vs| ensures vs[i].key != vs[j].key {
        if j < |fetched| {
          assert Keys(fetched)[i] != Keys(fetched)[j];
        } else if i < |fetched| {
          assert vs[i].key in Keys(fetched);
        } else if file.Some? && inlineAppended && i == |fetched| {
          var st := MergeFile(ctx, vars1, file.value).state;
          assert Appended(ctx, st, j);
          assert vs[i] == vars1[i];
        }
      }
    }
  }

}
