/**
 * Concrete runs of the merge, the listing and the export: the behaviour a
 * user sees, including the places where the code departs from a merge that
 * keeps keys unique.
 */
module Scenarios {
  import opened Wrappers
  import opened Strings
  import opened Variables
  import opened Search
  import opened Merge
  import opened MergeProperties
  import opened ReconcileProperties
  import opened Commands

  /** Create-only: an existing key given inline is reported and left as it was. */
  lemma InlineExistingKeyCreateOnly()
    ensures Reconcile([StoredVar("K1", "V1", false, "t")], "K1", "V2", None, false, false)
         == Payload([EnvVar("K1", "V1", false)], [KeyExists("K1")])
  {
    var fetched := [StoredVar("K1", "V1", false, "t")];
    assert Keys(fetched) == ["K1"];
    assert Copies(fetched) == [EnvVar("K1", "V1", false)];
  }

  /** With updates allowed, the inline value replaces the old one. */
  lemma InlineExistingKeyUpdate()
    ensures Reconcile([StoredVar("K1", "V1", false, "t")], "K1", "V2", None, true, false)
         == Payload([EnvVar("K1", "V2", false)], [Updating("K1")])
  {
    var fetched := [StoredVar("K1", "V1", false, "t")];
    assert Keys(fetched) == ["K1"];
    assert FirstIndex(["K1"], "K1") == 0;
    assert Copies(fetched) == [EnvVar("K1", "V1", false)];
  }

  /** An update without the secret flag keeps a secret secret. */
  lemma UpdateKeepsSecret()
    ensures Reconcile([StoredVar("S", "x", true, "t")], "S", "y", None, true, false)
         == Payload([EnvVar("S", "y", true)], [Updating("S")])
  {
    var fetched := [StoredVar("S", "x", true, "t")];
    assert Keys(fetched) == ["S"];
    assert FirstIndex(["S"], "S") == 0;
    assert Copies(fetched) == [EnvVar("S", "x", true)];
  }

  /** A one-line file is that line applied to a fresh loop state. */
  lemma OneLineFile(ctx: Context, vars: seq<EnvVar>, line: string)
    requires Fits(ctx, vars)
    ensures MergeFile(ctx, vars, [line]) == ApplyLine(ctx, FileState(vars, [], []), line, 0)
  {
    assert [line][..0] == [];
  }

  /** One more line is applied to the state the earlier lines left. */
  lemma NextLine(ctx: Context, vars: seq<EnvVar>, lines: seq<string>, line: string)
    requires Fits(ctx, vars)
    ensures MergeFile(ctx, vars, lines + [line]) ==
      match MergeFile(ctx, vars, lines)
      case Crashed(at) => Crashed(at)
      case Running(st) => ApplyLine(ctx, st, line, |lines|)
  {
    assert (lines + [line])[..|lines|] == lines;
  }

  /** Of two file lines with the same key the first wins; the later one is reported. */
  lemma FileFirstLineWins(makeSecret: bool)
    ensures Reconcile([], "", "", Some(["A=1", "B=2", "A=3"]), false, makeSecret)
         == Payload([EnvVar("A", "1", makeSecret), EnvVar("B", "2", makeSecret)],
                    [Adding("A"), Adding("B"), DuplicateInFile("A")])
  {
    var ctx := ContextOf([], false, makeSecret);
    assert Copies([]) == [] && ctx.oldKeys == [] && ctx.oldVars == [];
    ThreeLines(ctx);
    assert [] + [Adding("A"), Adding("B"), DuplicateInFile("A")] == [Adding("A"), Adding("B"), DuplicateInFile("A")];
  }

  /** The file pass over `A=1`, `B=2`, `A=3` with no fetched records. */
  lemma ThreeLines(ctx: Context)
    requires ctx.oldKeys == [] && ctx.oldVars == []
    ensures MergeFile(ctx, [], ["A=1", "B=2", "A=3"]) ==
      Running(FileState([EnvVar("A", "1", ctx.makeSecret), EnvVar("B", "2", ctx.makeSecret)],
                        ["A", "B"], [Adding("A"), Adding("B"), DuplicateInFile("A")]))
  {
    FirstTwoLines(ctx);
    ThirdLine(ctx);
    NextLine(ctx, [], ["A=1", "B=2"], "A=3");
    assert ["A=1", "B=2"] + ["A=3"] == ["A=1", "B=2", "A=3"];
  }

  /** The third line of the file above repeats `A` and is reported. */
  lemma ThirdLine(ctx: Context)
    requires ctx.oldKeys == [] && ctx.oldVars == []
    ensures
      var st2 := FileState([EnvVar("A", "1", ctx.makeSecret), EnvVar("B", "2", ctx.makeSecret)],
                           ["A", "B"], [Adding("A"), Adding("B")]);
      ApplyLine(ctx, st2, "A=3", 2) == Running(st2.(log := st2.log + [DuplicateInFile("A")]))
  {
    var st2 := FileState([EnvVar("A", "1", ctx.makeSecret), EnvVar("B", "2", ctx.makeSecret)],
                         ["A", "B"], [Adding("A"), Adding("B")]);
    assert "A" + "=" + "3" == "A=3";
    assert "A" in st2.fileKeys;
    DuplicateLine(ctx, st2, "A", "3", 2);
  }

  /** The first two lines of the file above: both keys are new and appended. */
  lemma FirstTwoLines(ctx: Context)
    requires ctx.oldKeys == [] && ctx.oldVars == []
    ensures MergeFile(ctx, [], ["A=1", "B=2"]) ==
      Running(FileState([EnvVar("A", "1", ctx.makeSecret), EnvVar("B", "2", ctx.makeSecret)],
                        ["A", "B"], [Adding("A"), Adding("B")]))
  {
    var a, b := EnvVar("A", "1", ctx.makeSecret), EnvVar("B", "2", ctx.makeSecret);
    var st1 := FileState([a], ["A"], [Adding("A")]);
    FirstLine(ctx);
    assert "B" + "=" + "2" == "B=2";
    assert "B" !in st1.fileKeys;
    AppendedLine(ctx, st1, "B", "2", 1);
    assert [a] + [b] == [a, b] && ["A"] + ["B"] == ["A", "B"] && [Adding("A")] + [Adding("B")] == [Adding("A"), Adding("B")];
    NextLine(ctx, [], ["A=1"], "B=2");
    assert ["A=1"] + ["B=2"] == ["A=1", "B=2"];
  }

  /** The first line of the file above: its key is new and appended. */
  lemma FirstLine(ctx: Context)
    requires ctx.oldKeys == [] && ctx.oldVars == []
    ensures MergeFile(ctx, [], ["A=1"]) ==
      Running(FileState([EnvVar("A", "1", ctx.makeSecret)], ["A"], [Adding("A")]))
  {
    var a := EnvVar("A", "1", ctx.makeSecret);
    assert "A" + "=" + "1" == "A=1";
    assert [] + [a] == [a] && [] + ["A"] == ["A"] && [] + [Adding("A")] == [Adding("A")];
    OneLineFile(ctx, [], "A=1");
    AppendedLine(ctx, FileState([], [], []), "A", "1", 0);
  }

  /** A line with an empty key is reported and changes nothing. */
  lemma FileEmptyKeyRejected()
    ensures Reconcile([], "", "", Some(["=value"]), false, false) == Payload([], [EmptyKey("value")])
  {
    var ctx := ContextOf([], false, false);
    assert Copies([]) == [];
    assert SplitKeyValue("=value") == Some(KeyValue("", "value")) by {
      KeyValueOfLine("", "value", "");
      assert "" + "=" + "value" + "" == "=value";
    }
    OneLineFile(ctx, [], "=value");
    assert [] + [EmptyKey("value")] == [EmptyKey("value")];
  }

  /** An appended inline key and a file line with another key give two distinct records. */
  lemma InlineThenOtherFileKeyDistinct()
    ensures Reconcile([], "K", "V", Some(["A=1"]), false, false).Payload?
    ensures DistinctKeys(Reconcile([], "K", "V", Some(["A=1"]), false, false).vars)
  {
    assert SplitKeyValue("A=1") == Some(KeyValue("A", "1")) by {
      KeyValueOfLine("A", "1", "");
      assert "A" + "=" + "1" + "" == "A=1";
    }
    assert !Panics("A=1") by {
      assert "A=1"[1] == '=';
    }
    assert !NamesKey(["A=1"][0], "K");
    ReconcileDistinctKeys([], "K", "V", Some(["A=1"]), false, false);
  }

  /**
   * Departure from key uniqueness: the file is checked against the fetched
   * keys only, so a key the inline pair has just appended is appended again.
   */
  lemma InlineThenFileDuplicatesKey()
    ensures Reconcile([], "K", "V", Some(["K=W"]), false, false)
         == Payload([EnvVar("K", "V", false), EnvVar("K", "W", false)], [Adding("K"), Adding("K")])
    ensures !DistinctKeys(Reconcile([], "K", "V", Some(["K=W"]), false, false).vars)
  {
    var ctx := ContextOf([], false, false);
    assert Copies([]) == [] && ctx.oldKeys == [];
    var v1 := [EnvVar("K", "V", false)];
    assert [] + v1 == v1;
    assert FlagStep(ctx, [], "K", "V") == (v1, [Adding("K")]);
    assert "K" + "=" + "W" == "K=W";
    OneLineFile(ctx, v1, "K=W");
    AcceptedLine(ctx, FileState(v1, [], []), "K", "W", 0);
    assert [] + ["K"] == ["K"] && [] + [Adding("K")] == [Adding("K")];
    assert MergeFile(ctx, v1, ["K=W"])
        == Running(FileState([EnvVar("K", "V", false), EnvVar("K", "W", false)], ["K"], [Adding("K")]));
    var vs := Reconcile([], "K", "V", Some(["K=W"]), false, false).vars;
    assert vs[0].key == vs[1].key;
  }

  /** A file line for a key the inline pair has just updated overwrites that update. */
  lemma FileOverridesInlineUpdate()
    ensures Reconcile([StoredVar("K", "V1", false, "t")], "K", "V2", Some(["K=V3"]), true, false)
         == Payload([EnvVar("K", "V3", false)], [Updating("K"), Updating("K")])
  {
    var fetched := [StoredVar("K", "V1", false, "t")];
    var ctx := ContextOf(fetched, true, false);
    assert ctx.oldKeys == ["K"] && ctx.oldVars == fetched;
    assert FirstIndex(["K"], "K") == 0;
    assert Copies(fetched) == [EnvVar("K", "V1", false)];
    var v1 := [EnvVar("K", "V2", false)];
    assert [EnvVar("K", "V1", false)][0 := EnvVar("K", "V2", false)] == v1;
    assert FlagStep(ctx, Copies(fetched), "K", "V2") == (v1, [Updating("K")]);
    assert "K" + "=" + "V3" == "K=V3";
    OneLineFile(ctx, v1, "K=V3");
    AcceptedLine(ctx, FileState(v1, [], []), "K", "V3", 0);
    assert v1[0 := EnvVar("K", "V3", false)] == [EnvVar("K", "V3", false)];
    assert [] + ["K"] == ["K"] && [] + [Updating("K")] == [Updating("K")];
    assert MergeFile(ctx, v1, ["K=V3"])
        == Running(FileState([EnvVar("K", "V3", false)], ["K"], [Updating("K")]));
  }

  /** The value is the text between the first and the second `=` only. */
  lemma ValueEndsAtSecondEquals()
    ensures SplitKeyValue("A=b=c") == Some(KeyValue("A", "b"))
  {
    KeyValueOfLine("A", "b", "=c");
    assert "A" + "=" + "b" + "=c" == "A=b=c";
  }

  /** A non-comment line without `=` panics, at its own line number. */
  lemma LineWithoutEqualsPanics()
    ensures Reconcile([], "", "", Some(["# comment", "", "abc"]), false, false) == Panicked(2)
  {
    var lines := ["# comment", "", "abc"];
    assert '=' !in "abc";
    var ctx := ContextOf([], false, false);
    assert Copies([]) == [];
    assert IsComment("# comment") && !IsComment("abc");
    assert MergeFile(ctx, [], lines[..0]) == Running(FileState([], [], []));
    assert lines[..1][..0] == lines[..0];
    assert MergeFile(ctx, [], lines[..1]) == Running(FileState([], [], []));
    assert lines[..2][..1] == lines[..1];
    assert MergeFile(ctx, [], lines[..2]) == Running(FileState([], [], []));
    assert lines[..3][..2] == lines[..2] && lines[..3] == lines;
    assert MergeFile(ctx, [], lines) == Crashed(2);
  }

  /** The export writes a secret value in full. */
  lemma ExportWritesSecretValue()
    ensures ExportText(Matching([StoredVar("S", "x", true, "t")], "")) == "\nS=x"
  {
  }

  /** With a key filter the listing stops at the first of two records with that key. */
  lemma ListStopsAtFirstMatch()
    ensures
      var vars := [StoredVar("A", "1", false, "t"), StoredVar("A", "2", false, "t")];
      Selected(vars, "A") == [vars[0]]
  {
    var vars := [StoredVar("A", "1", false, "t"), StoredVar("A", "2", false, "t")];
    assert Keys(vars)[0] == "A";
    assert FirstIndex(Keys(vars), "A") == 0;
  }

  /** The export writes both records with the filter key, in order. */
  lemma ExportWritesEveryMatch()
    ensures
      var vars := [StoredVar("A", "1", false, "t"), StoredVar("A", "2", false, "t")];
      ExportText(Matching(vars, "A")) == "\nA=1\nA=2"
  {
    var v0, v1 := StoredVar("A", "1", false, "t"), StoredVar("A", "2", false, "t");
    MatchingOne(v0, "A");
    MatchingOne(v1, "A");
    MatchingAppend([v0], [v1], "A");
    assert [v0] + [v1] == [v0, v1];
    ExportTextSnoc([v0], v1);
    assert [v0][1..] == [];
    assert ExportLine(v0) == "A=1" && ExportLine(v1) == "A=2";
  }
}
