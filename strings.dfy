/**
 * Go's `strings.Split` with a one-character separator, and the key/value
 * extraction that the environment-file importer builds on it.
 */
module Strings {
  import opened Wrappers

  /**
   * The pieces of `s` between occurrences of `sep`: Go's `strings.Split(s, sep)`
   * for a non-empty separator. A string without `sep` (the empty string
   * included) yields the one-element list `[s]`.
   */
  function Split(s: string, sep: char): (parts: seq<string>)
    ensures |parts| >= 1
    decreases |s|
  {
    if s == [] then [[]]
    else
      var rest := Split(s[1..], sep);
      if s[0] == sep then [[]] + rest
      else [[s[0]] + rest[0]] + rest[1..]
  }

  /** Go's `strings.Join(parts, sep)`: the inverse of `Split`. */
  function Join(parts: seq<string>, sep: char): (s: string)
  {
    if |parts| == 0 then []
    else if |parts| == 1 then parts[0]
    else parts[0] + [sep] + Join(parts[1..], sep)
  }

  /** A first piece `x` joins like an empty first piece with `x` in front. */
  lemma JoinFirst(x: string, rest: seq<string>, sep: char)
    ensures Join([x] + rest, sep) == x + Join([""] + rest, sep)
  {
    if rest != [] {
      assert ([x] + rest)[1..] == rest && ([""] + rest)[1..] == rest;
    }
  }

  /** Prepending to the first piece prepends to the joined string. */
  lemma {:induction false} JoinPrepend(c: char, parts: seq<string>, sep: char)
    requires |parts| >= 1
    ensures Join([[c] + parts[0]] + parts[1..], sep) == [c] + Join(parts, sep)
  {
    var ps := [[c] + parts[0]] + parts[1..];
    assert ps[1..] == parts[1..];
  }

  /** Joining the pieces of `s` gives `s` back. */
  lemma {:induction false} JoinSplit(s: string, sep: char)
    ensures Join(Split(s, sep), sep) == s
    decreases |s|
  {
    if s != [] {
      var rest := Split(s[1..], sep);
      JoinSplit(s[1..], sep);
      if s[0] == sep {
        var ps := [[]] + rest;
        assert ps[1..] == rest;
        assert s == [sep] + s[1..];
      } else {
        JoinPrepend(s[0], rest, sep);
        assert s == [s[0]] + s[1..];
      }
    }
  }

  /** No piece of `Split(s, sep)` contains the separator. */
  lemma {:induction false} SplitPiecesFree(s: string, sep: char)
    ensures forall i :: 0 <= i < |Split(s, sep)| ==> sep !in Split(s, sep)[i]
    decreases |s|
  {
    if s != [] {
      SplitPiecesFree(s[1..], sep);
    }
  }

  /** `Split` yields more than one piece exactly when `s` holds the separator. */
  lemma {:induction false} SplitCount(s: string, sep: char)
    ensures |Split(s, sep)| >= 2 <==> sep in s
    decreases |s|
  {
    if s != [] {
      SplitCount(s[1..], sep);
      assert sep in s <==> s[0] == sep || sep in s[1..];
    }
  }

  /** Splitting a join of separator-free pieces gives the pieces back. */
  lemma {:induction false} SplitJoin(parts: seq<string>, sep: char)
    requires |parts| >= 1
    requires forall i :: 0 <= i < |parts| ==> sep !in parts[i]
    ensures Split(Join(parts, sep), sep) == parts
    decreases |parts|, |parts[0]|
  {
    var s := Join(parts, sep);
    if parts[0] == [] {
      if |parts| == 1 {
        assert s == [];
      } else {
        SplitJoin(parts[1..], sep);
        assert s == [sep] + Join(parts[1..], sep);
        assert s[1..] == Join(parts[1..], sep);
        assert parts == [[]] + parts[1..];
      }
    } else {
      var c := parts[0][0];
      var tail := [parts[0][1..]] + parts[1..];
      assert tail[1..] == parts[1..];
      assert c != sep by { assert c == parts[0][0]; }
      forall i | 0 <= i < |tail| ensures sep !in tail[i] {
        if i == 0 {
          assert forall x :: x in tail[0] ==> x in parts[0];
        } else {
          assert tail[i] == parts[i];
        }
      }
      SplitJoin(tail, sep);
      assert [c] + tail[0] == parts[0];
      assert [[c] + tail[0]] + tail[1..] == parts;
      JoinPrepend(c, tail, sep);
      assert s == [c] + Join(tail, sep);
      assert s[0] == c && s[1..] == Join(tail, sep);
    }
  }

  /** A `KEY=VALUE` line as the importer reads it. */
  datatype KeyValue = KeyValue(key: string, value: string)

  /**
   * The key is piece 0 and the value piece 1 of `strings.Split(line, "=")`.
   * A line without `=` has no piece 1: Go panics on the index, and `None`
   * stands for that here.
   */
  function SplitKeyValue(line: string): (kv: Option<KeyValue>)
    ensures kv.None? <==> '=' !in line
    ensures kv.Some? ==>
      var k, v := kv.value.key, kv.value.value;
      && '=' !in k && '=' !in v
      && |k| + 1 + |v| <= |line|
      && line[..|k| + 1 + |v|] == k + "=" + v
      && (|k| + 1 + |v| == |line| || line[|k| + 1 + |v|] == '=')
  {
    var parts := Split(line, '=');
    SplitCount(line, '=');
    SplitPiecesFree(line, '=');
    if |parts| < 2 then None
    else
      JoinSplit(line, '=');
      assert Join(parts, '=') == parts[0] + "=" + Join(parts[1..], '=');
      assert |parts| == 2 ==> Join(parts[1..], '=') == parts[1];
      assert |parts| > 2 ==> Join(parts[1..], '=') == parts[1] + "=" + Join(parts[2..], '=');
      Some(KeyValue(parts[0], parts[1]))
  }

  /**
   * A line `k=…` always has a key and a value, and its key is `k` when `k`
   * holds no `=`, whatever follows.
   */
  lemma KeyOfLine(k: string, rest: string)
    ensures SplitKeyValue(k + "=" + rest).Some?
    ensures '=' !in k ==> SplitKeyValue(k + "=" + rest).value.key == k
  {
    var line := k + "=" + rest;
    assert line[|k|] == '=';
    if '=' !in k {
      var k' := SplitKeyValue(line).value.key;
      assert forall j :: 0 <= j < |k| ==> line[j] == k[j] && line[j] != '=';
      assert forall j :: 0 <= j < |k'| ==> line[j] == k'[j] && line[j] != '=';
      assert line[|k'|] == '=';
      assert |k'| == |k|;
      assert k' == line[..|k|] == k;
    }
  }

  /**
   * The line `k=v` followed by nothing or by another `=` reads as key `k`
   * and value `v` when neither holds `=`: what follows the second `=` is
   * dropped.
   */
  lemma KeyValueOfLine(k: string, v: string, rest: string)
    requires '=' !in k && '=' !in v
    requires rest == [] || rest[0] == '='
    ensures SplitKeyValue(k + "=" + v + rest) == Some(KeyValue(k, v))
  {
    var line := k + "=" + v + rest;
    assert line == k + "=" + (v + rest);
    KeyOfLine(k, v + rest);
    var v' := SplitKeyValue(line).value.value;
    // The value ends where `v` ends: at the end of the line or at the next `=`.
    assert forall j :: |k| < j < |k| + 1 + |v| ==> line[j] == v[j - |k| - 1] && line[j] != '=';
    assert forall j :: |k| < j < |k| + 1 + |v'| ==> line[j] == v'[j - |k| - 1] && line[j] != '=';
    assert |k| + 1 + |v| == |line| || line[|k| + 1 + |v|] == '=';
    assert |v'| == |v|;
    assert v' == line[|k| + 1..|k| + 1 + |v|] == v;
  }
}
