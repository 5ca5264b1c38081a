/** The `.env` reader and the error wrapper (sptt/util.go). */
module Util {
  import opened Types
  import opened Strings

  /** `wrapErr`: `nil` stays `nil`; any other error gets a stack trace in front
      of its message and so is no longer equal to a sentinel error. */
  function WrapErr(e: Option<Error>): (r: Option<Error>)
    ensures r.None? <==> e.None?
    ensures e.Some? ==> r == Some(Traced(e.value))
  {
    match e
    case None => None
    case Some(err) => Some(Traced(err))
  }

  /** A wrapped error is never one of the sentinels callers compare against. */
  lemma WrappedIsNoSentinel(e: Error)
    ensures WrapErr(Some(e)) != Some(Forbidden)
    ensures WrapErr(Some(e)) != Some(EmptyGames)
    ensures WrapErr(None) == None
  {
  }

  /** One pair of surrounding double quotes removed, when there is a pair. */
  function Unquote(v: string): (r: string)
    ensures r == v || v == "\"" + r + "\""
  {
    if |v| > 1 && v[0] == '"' && v[|v| - 1] == '"' then
      assert v == [v[0]] + v[1..|v| - 1] + [v[|v| - 1]];
      v[1..|v| - 1]
    else v
  }

  /** Quoting a value and reading it back gives the value, and a value that
      is not wrapped in a pair of quotes is read as it is (a lone `"` too). */
  lemma UnquoteQuoted(x: string, v: string)
    ensures Unquote("\"" + x + "\"") == x
    ensures !(|v| > 1 && v[0] == '"' && v[|v| - 1] == '"') ==> Unquote(v) == v
    ensures Unquote("\"") == "\""
  {
    var q := "\"" + x + "\"";
    assert q[1..|q| - 1] == x;
  }

  /** The key/value pair one line contributes, if any: after trimming, blank
      lines and lines starting with `#` contribute nothing, nor does a line
      without `=`; otherwise the line splits at its first `=`, both sides are
      trimmed and the value loses one pair of surrounding quotes. */
  function ParseLine(line: string): Option<(string, string)> {
    var t := TrimSpace(line);
    if |t| == 0 || t[0] == '#' then None
    else
      var i := IndexOf(t, '=');
      if i == |t| then None
      else Some((TrimSpace(t[..i]), Unquote(TrimSpace(t[i + 1..]))))
  }

  /** What each line contributes, in order. */
  function ParseAll(lines: seq<string>): (ps: seq<Option<(string, string)>>)
    ensures |ps| == |lines|
    ensures forall i :: 0 <= i < |lines| ==> ps[i] == ParseLine(lines[i])
  {
    seq(|lines|, (i: int) requires 0 <= i < |lines| => ParseLine(lines[i]))
  }

  /** The map a list of contributions leaves: each pair is stored under its
      key, so a later pair overwrites an earlier one. */
  function StorePairs(ps: seq<Option<(string, string)>>): map<string, string> {
    if ps == [] then map[]
    else
      var env := StorePairs(ps[..|ps| - 1]);
      match ps[|ps| - 1]
      case None => env
      case Some(kv) => env[kv.0 := kv.1]
  }

  /** The mapping a file's lines produce. */
  function EnvOf(lines: seq<string>): map<string, string> {
    StorePairs(ParseAll(lines))
  }

  lemma EnvOfStep(lines: seq<string>, n: nat)
    requires n < |lines|
    ensures EnvOf(lines[..n + 1]) ==
      match ParseLine(lines[n])
      case None => EnvOf(lines[..n])
      case Some(kv) => EnvOf(lines[..n])[kv.0 := kv.1]
  {
    assert lines[..n + 1][..n] == lines[..n];
    var ps := ParseAll(lines[..n + 1]);
    assert ps[..n] == ParseAll(lines[..n]);
  }

  /** `GetEnv`: reads the file (given here as its contents, or `None` when it
      cannot be opened) line by line into a map. */
  method GetEnv(file: Option<string>) returns (r: Result<map<string, string>>)
    ensures file.None? ==> r == Err(Traced(OpenFailed))
    ensures file.Some? ==> r == Ok(EnvOf(Split(file.value, '\n')))
  {
    if file.None? {
      return Err(Traced(OpenFailed));
    }
    var lines := Split(file.value, '\n');
    var env: map<string, string> := map[];
    for n := 0 to |lines|
      invariant env == EnvOf(lines[..n])
    {
      EnvOfStep(lines, n);
      var line := TrimSpace(lines[n]);
      if |line| == 0 || line[0] == '#' {
        assert ParseLine(lines[n]) == None;
        continue;
      }
      var i := IndexOf(line, '=');
      if i == |line| {
        // the source logs a warning about the line and moves on
        assert ParseLine(lines[n]) == None;
        continue;
      }
      var lhs, rhs := TrimSpace(line[..i]), TrimSpace(line[i + 1..]);
      if |rhs| > 1 && rhs[0] == '"' && rhs[|rhs| - 1] == '"' {
        rhs := rhs[1..|rhs| - 1];
      }
      assert ParseLine(lines[n]) == Some((lhs, rhs));
      env := env[lhs := rhs];
    }
    assert lines[..|lines|] == lines;
    return Ok(env);
  }

  /** A line contributes nothing exactly when, trimmed, it is blank, a
      comment, or has no `=`. */
  lemma IgnoredLines(line: string)
    ensures ParseLine(line).None? <==> var t := TrimSpace(line); |t| == 0 || t[0] == '#' || '=' !in t
  {
    var t := TrimSpace(line);
    if |t| != 0 && t[0] != '#' {
      var i := IndexOf(t, '=');
      if i == |t| {
        assert t[..i] == t;
      } else {
        assert t[i] == '=';
      }
    }
  }

  /** A contributing line splits at its FIRST `=`: the trimmed line has an
      `=` at a position with none before it; the key is what comes before,
      trimmed, and the value what comes after, trimmed and unquoted (so it
      may hold `=`). */
  lemma SplitAtFirstEquals(line: string)
    requires ParseLine(line).Some?
    ensures var t := TrimSpace(line); var i := IndexOf(t, '=');
      i < |t| && t[i] == '=' && '=' !in t[..i]
      && ParseLine(line).value == (TrimSpace(t[..i]), Unquote(TrimSpace(t[i + 1..])))
  {
    var t := TrimSpace(line);
    assert |t| != 0 && t[0] != '#';
    var i := IndexOf(t, '=');
    assert i < |t| && t[i] == '=';
  }

  /** So the key holds no `=`. */
  lemma KeyHasNoEquals(line: string)
    requires ParseLine(line).Some?
    ensures '=' !in ParseLine(line).value.0
  {
    var t := TrimSpace(line);
    var i := IndexOf(t, '=');
    if '=' in ParseLine(line).value.0 {
      TrimSpaceWithin(t[..i], '=');
    }
  }

  /** A clean key: not empty, no `=`, not a comment, no surrounding whitespace. */
  predicate CleanKey(k: string) {
    |k| > 0 && '=' !in k && k[0] != '#' && !IsSpace(k[0]) && !IsSpace(k[|k| - 1])
  }

  /** Writing `key=value` and reading the line back gives the pair, the value
      unquoted; the value may itself hold `=`. */
  lemma {:induction false} ParseFormattedLine(k: string, v: string)
    requires CleanKey(k)
    requires v == [] || (!IsSpace(v[0]) && !IsSpace(v[|v| - 1]))
    ensures ParseLine(k + "=" + v) == Some((k, Unquote(v)))
  {
    var t := k + "=" + v;
    assert t[0] == k[0];
    assert t[|t| - 1] == if v == [] then '=' else v[|v| - 1];
    TrimSpaceClean(t);
    TrimSpaceClean(k);
    TrimSpaceClean(v);
    assert t == k + ("=" + v);
    IndexOfAfter(k, "=" + v, '=');
    assert t[..|k|] == k;
    assert t[|k| + 1..] == v;
  }

  /** A key is in the result exactly when some pair has that key. */
  lemma {:induction false} StoredKeys(ps: seq<Option<(string, string)>>, k: string)
    ensures k in StorePairs(ps) <==> exists i :: 0 <= i < |ps| && ps[i].Some? && ps[i].value.0 == k
  {
    if ps != [] {
      var init := ps[..|ps| - 1];
      StoredKeys(init, k);
      if k in StorePairs(init) {
        var i :| 0 <= i < |init| && init[i].Some? && init[i].value.0 == k;
        assert ps[i] == init[i];
      }
      if exists i :: 0 <= i < |ps| && ps[i].Some? && ps[i].value.0 == k {
        var i :| 0 <= i < |ps| && ps[i].Some? && ps[i].value.0 == k;
        if i < |init| {
          assert init[i] == ps[i];
        }
      }
    }
  }

  /** The value stored under a key is the one from the LAST pair with that key. */
  lemma {:induction false} StoredLastWins(ps: seq<Option<(string, string)>>, i: nat)
    requires i < |ps| && ps[i].Some?
    requires forall j :: i < j < |ps| && ps[j].Some? ==> ps[j].value.0 != ps[i].value.0
    ensures ps[i].value.0 in StorePairs(ps) && StorePairs(ps)[ps[i].value.0] == ps[i].value.1
  {
    if i < |ps| - 1 {
      var init := ps[..|ps| - 1];
      assert forall j :: i < j < |init| ==> init[j] == ps[j];
      StoredLastWins(init, i);
    }
  }

  /** So every key of the result comes from a non-comment line holding `=`. */
  lemma EnvKeys(lines: seq<string>, k: string)
    ensures k in EnvOf(lines) <==>
      exists i :: 0 <= i < |lines| && ParseLine(lines[i]).Some? && ParseLine(lines[i]).value.0 == k
  {
    var ps := ParseAll(lines);
    StoredKeys(ps, k);
    if k in EnvOf(lines) {
      var i :| 0 <= i < |ps| && ps[i].Some? && ps[i].value.0 == k;
      assert ParseLine(lines[i]) == ps[i];
    }
    if exists i :: 0 <= i < |lines| && ParseLine(lines[i]).Some? && ParseLine(lines[i]).value.0 == k {
      var i :| 0 <= i < |lines| && ParseLine(lines[i]).Some? && ParseLine(lines[i]).value.0 == k;
      assert ps[i] == ParseLine(lines[i]);
    }
  }

  /** And a later duplicate key overwrites an earlier one. */
  lemma EnvLastWins(lines: seq<string>, i: nat)
    requires i < |lines| && ParseLine(lines[i]).Some?
    requires forall j :: i < j < |lines| && ParseLine(lines[j]).Some? ==>
      ParseLine(lines[j]).value.0 != ParseLine(lines[i]).value.0
    ensures var kv := ParseLine(lines[i]).value; kv.0 in EnvOf(lines) && EnvOf(lines)[kv.0] == kv.1
  {
    var ps := ParseAll(lines);
    StoredLastWins(ps, i);
  }
}
