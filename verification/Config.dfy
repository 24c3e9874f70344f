/**
  The runtime's configuration variables: set from the application's file, then the default file,
  then the environment.
 */
module Config {
  import opened ConfigLines
  import opened ConfigReader
  import opened Options

  /** config_val_t */
  datatype Val = Val(hasValue: bool, value: string, appSpecific: bool, fromEnv: bool)

  /** The part of a value that fits its buffer of `max` characters. */
  function Take(s: string, max: nat): (r: string)
    ensures r <= s && |r| == Min(|s|, max)
  {
    if |s| <= max then s else s[..max]
  }

  // ----- one line

  predicate HasPrefix(line: string, name: string) {
    |name| <= |line| && line[..|name|] == name
  }

  predicate Assigns(line: string, name: string) {
    HasPrefix(line, name) && |name| < |line| && line[|name|] == '='
  }

  /** The line names the variable but is no assignment to it: a fatal error. */
  predicate Invalid(line: string, name: string) {
    HasPrefix(line, name) && !Assigns(line, name)
  }

  predicate Skipped(line: string) {
    line == "" || line[0] == '#'
  }

  /** A variable after a line of a configuration file. */
  function ValAfter(v: Val, line: string, name: string, max: nat, app: bool, overwrite: bool): Val {
    if !Skipped(line) && Assigns(line, name) && (!v.hasValue || overwrite)
    then Val(true, Take(line[|name| + 1..], max), app, false) else v
  }

  predicate LineInvalid(vars: seq<string>, line: string) {
    !Skipped(line) && exists i :: 0 <= i < |vars| && Invalid(line, vars[i])
  }

  function ValsAfter(vars: seq<string>, vals: seq<Val>, line: string, max: nat, app: bool, overwrite: bool): seq<Val>
    requires |vals| == |vars|
  {
    seq(|vals|, i requires 0 <= i < |vals| => ValAfter(vals[i], line, vars[i], max, app, overwrite))
  }

  /** All lines in turn; None if one is invalid. */
  function Apply(vars: seq<string>, vals: seq<Val>, lines: seq<string>, max: nat, app: bool,
                 overwrite: bool): Option<seq<Val>>
    requires |vals| == |vars|
    decreases |lines|
  {
    if lines == [] then Some(vals)
    else if LineInvalid(vars, lines[0]) then None
    else Apply(vars, ValsAfter(vars, vals, lines[0], max, app, overwrite), lines[1..], max, app, overwrite)
  }

  // ----- what a file says about a variable

  /** The value of the first line that assigns to `name`. */
  function First(lines: seq<string>, name: string): Option<string> {
    if lines == [] then None
    else if !Skipped(lines[0]) && Assigns(lines[0], name) then Some(lines[0][|name| + 1..])
    else First(lines[1..], name)
  }

  function Filled(v: Val, value: Option<string>, max: nat, app: bool, env: bool): Val {
    if v.hasValue || value.None? then v else Val(true, Take(value.value, max), app, env)
  }

  /** Without overwriting, a file gives each unset variable its first assignment. */
  lemma {:induction false} ApplyFirst(vars: seq<string>, vals: seq<Val>, lines: seq<string>, max: nat, app: bool,
                                      i: nat)
    requires |vals| == |vars| && i < |vals| && Apply(vars, vals, lines, max, app, false).Some?
    ensures |Apply(vars, vals, lines, max, app, false).value| == |vars|
    ensures Apply(vars, vals, lines, max, app, false).value[i]
        == Filled(vals[i], First(lines, vars[i]), max, app, false)
    decreases |lines|
  {
    if lines != [] {
      ApplyFirst(vars, ValsAfter(vars, vals, lines[0], max, app, false), lines[1..], max, app, i);
    }
  }

  /** Only an invalid line stops it, whatever the values. */
  lemma {:induction false} ApplyStops(vars: seq<string>, vals: seq<Val>, lines: seq<string>, max: nat, app: bool,
                                      overwrite: bool)
    requires |vals| == |vars|
    ensures Apply(vars, vals, lines, max, app, overwrite).None? <==>
        exists k :: 0 <= k < |lines| && LineInvalid(vars, lines[k])
    decreases |lines|
  {
    if lines != [] {
      ApplyStops(vars, ValsAfter(vars, vals, lines[0], max, app, overwrite), lines[1..], max, app, overwrite);
      assert forall k :: 0 < k < |lines| ==> lines[k] == lines[1..][k - 1];
    }
  }

  // ----- all sources

  /** The lines of a file that may be missing, as the reader finds them. */
  function LinesOf(file: Option<string>, b: nat): seq<string>
    requires 0 < b
  {
    if file.None? then [] else Raw(file.value, b, 0, 0)
  }

  function Lookup(env: map<string, string>, name: string): Option<string> {
    if name in env then Some(env[name]) else None
  }

  /** The application's file, then the default file, then the environment. */
  function Settled(v: Val, name: string, app: seq<string>, dflt: seq<string>, env: map<string, string>, max: nat): Val {
    var fromFiles := Filled(Filled(v, First(app, name), max, true, false), First(dflt, name), max, false, false);
    Filled(fromFiles, Lookup(env, name), max, false, true)
  }

  /** A file that ends in a newline and whose lines fit settles a variable by its own lines. */
  lemma SettledByLines(f: string, b: nat)
    requires 0 < b && Fits(f, b, 0) && (f == "" || f[|f| - 1] == '\n')
    ensures LinesOf(Some(f), b) == Split(f, 0)
  {
    WholeFile(f, b);
  }

  // ----- the values

  class ConfigInfo {
    const vars: seq<string>
    const maxValue: nat
    var vals: seq<Val>

    ghost predicate Valid()
      reads this
    {
      |vals| == |vars| && forall i :: 0 <= i < |vars| ==> '=' !in vars[i]
    }

    constructor (names: seq<string>, max: nat)
      requires forall i :: 0 <= i < |names| ==> '=' !in names[i]
      ensures Valid() && vars == names && maxValue == max
      ensures forall i :: 0 <= i < |vals| ==> !vals[i].hasValue
    {
      vars, maxValue := names, max;
      vals := seq(|names|, i => Val(false, "", false, false));
    }

    /** process_config_line outside query mode; not `ok` is the fatal usage error. */
    method ProcessConfigLine(line: string, app: bool, overwrite: bool) returns (ok: bool)
      requires Valid() && !Skipped(line)
      modifies this`vals
      ensures Valid()
      ensures ok <==> !LineInvalid(vars, line)
      ensures ok ==> vals == ValsAfter(vars, old(vals), line, maxValue, app, overwrite)
    {
      var i := 0;
      ok := true;
      while i < |vars|
        invariant 0 <= i <= |vars| == |vals|
        invariant forall j :: 0 <= j < i ==> !Invalid(line, vars[j])
        invariant forall j :: 0 <= j < i ==> vals[j] == ValAfter(old(vals)[j], line, vars[j], maxValue, app, overwrite)
        invariant forall j :: i <= j < |vals| ==> vals[j] == old(vals)[j]
      {
        if HasPrefix(line, vars[i]) {
          var val := IndexOf(line, '=');
          assert forall j :: 0 <= j < |vars[i]| ==> line[j] == line[..|vars[i]|][j];
          if val == |line| || val != |vars[i]| {
            assert Invalid(line, vars[i]);
            return false;
          }
          if !vals[i].hasValue || overwrite {
            vals := vals[i := Val(true, Take(line[val + 1..], maxValue), app, false)];
          }
        }
        i := i + 1;
      }
      assert vals == ValsAfter(vars, old(vals), line, maxValue, app, overwrite);
    }

    /** read_config_file outside query mode, with a buffer of `bufSize` characters. */
    method ReadConfigFile(f: string, bufSize: nat, app: bool, overwrite: bool) returns (ok: bool)
      requires Valid() && 1 < bufSize && IsText(f)
      modifies this`vals
      ensures Valid()
      ensures Apply(vars, old(vals), Raw(f, bufSize - 1, 0, 0), maxValue, app, overwrite) ==
                if ok then Some(vals) else None
    {
      hide Raw, Apply, Ready;
      var buf := new char[bufSize];
      ghost var b, at := bufSize - 1, Place(0, 0);
      var r := Cursor(-1, 0, 0);
      ReadyFirst(buf[..], f);
      ghost var result := Apply(vars, vals, Raw(f, b, 0, 0), maxValue, app, overwrite);
      ok := true;
      while true
        invariant Valid() && Ready(buf[..], f, r, at) && at.Inside(f, b)
        invariant result == Apply(vars, vals, Raw(f, b, at.buffer, at.line), maxValue, app, overwrite)
        decreases |f| - at.line
      {
        var more, s;
        more, s, r, at := NextLine(buf, f, r, at);
        if !more {
          break;
        }
        ApplyOne(vars, vals, s, Raw(f, b, at.buffer, at.line), maxValue, app, overwrite);
        if Skipped(s) {
          continue;
        }
        ok := ProcessConfigLine(s, app, overwrite);
        if !ok {
          return;
        }
      }
      ApplyNone(vars, vals, maxValue, app, overwrite);
    }

    /** set_config_from_env */
    method SetConfigFromEnv(env: map<string, string>)
      requires Valid()
      modifies this`vals
      ensures Valid()
      ensures forall i :: 0 <= i < |vals| ==>
          vals[i] == Filled(old(vals)[i], Lookup(env, vars[i]), maxValue, false, true)
    {
      var i := 0;
      while i < |vars|
        invariant 0 <= i <= |vars| == |vals|
        invariant forall j :: 0 <= j < i ==>
            vals[j] == Filled(old(vals)[j], Lookup(env, vars[j]), maxValue, false, true)
        invariant forall j :: i <= j < |vals| ==> vals[j] == old(vals)[j]
      {
        if !vals[i].hasValue && vars[i] in env {
          vals := vals[i := Val(true, Take(env[vars[i]], maxValue), false, true)];
        }
        i := i + 1;
      }
    }

    /** config_read for the current process, once the files to read are known. */
    method ConfigRead(app: Option<string>, dflt: Option<string>, env: map<string, string>, bufSize: nat)
        returns (ok: bool)
      requires Valid() && 1 < bufSize
      requires (app.Some? ==> IsText(app.value)) && (dflt.Some? ==> IsText(dflt.value))
      modifies this`vals
      ensures Valid()
      ensures ok <==> forall line ::
                line in LinesOf(app, bufSize - 1) || line in LinesOf(dflt, bufSize - 1) ==> !LineInvalid(vars, line)
      ensures ok ==> forall i :: 0 <= i < |vals| ==>
                vals[i] == Settled(old(vals)[i], vars[i],
                                   LinesOf(app, bufSize - 1), LinesOf(dflt, bufSize - 1), env, maxValue)
    {
      hide Raw, Apply, First, LineInvalid;
      ghost var b, v0 := bufSize - 1, vals;
      ReadFacts(vars, v0, LinesOf(app, b), maxValue, true);
      if app.Some? {
        ok := ReadConfigFile(app.value, bufSize, true, false);
        if !ok {
          return;
        }
      } else {
        ApplyNone(vars, v0, maxValue, true, false);
      }
      ghost var v1 := vals;
      ReadFacts(vars, v1, LinesOf(dflt, b), maxValue, false);
      if dflt.Some? {
        ok := ReadConfigFile(dflt.value, bufSize, false, false);
        if !ok {
          return;
        }
      } else {
        ApplyNone(vars, v1, maxValue, false, false);
      }
      SetConfigFromEnv(env);
      ok := true;
    }
  }

  /** strchr, or the length. */
  method IndexOf(line: string, c: char) returns (k: nat)
    ensures k <= |line| && (k < |line| ==> line[k] == c) && forall j :: 0 <= j < k ==> line[j] != c
  {
    k := 0;
    while k < |line| && line[k] != c
      invariant k <= |line| && forall j :: 0 <= j < k ==> line[j] != c
    {
      k := k + 1;
    }
  }

  lemma ApplyNone(vars: seq<string>, vals: seq<Val>, max: nat, app: bool, overwrite: bool)
    requires |vals| == |vars|
    ensures Apply(vars, vals, [], max, app, overwrite) == Some(vals)
  {
  }

  lemma ApplyOne(vars: seq<string>, vals: seq<Val>, line: string, lines: seq<string>, max: nat, app: bool,
                 overwrite: bool)
    requires |vals| == |vars|
    ensures Apply(vars, vals, [line] + lines, max, app, overwrite)
         == if LineInvalid(vars, line) then None
           else Apply(vars, ValsAfter(vars, vals, line, max, app, overwrite), lines, max, app, overwrite)
    ensures Skipped(line) ==> !LineInvalid(vars, line) && ValsAfter(vars, vals, line, max, app, overwrite) == vals
  {
    assert ([line] + lines)[1..] == lines;
  }

  lemma ReadFacts(vars: seq<string>, vals: seq<Val>, lines: seq<string>, max: nat, app: bool)
    requires |vals| == |vars|
    ensures Apply(vars, vals, lines, max, app, false).None? <==> exists line :: line in lines && LineInvalid(vars, line)
    ensures Apply(vars, vals, lines, max, app, false).Some? ==>
              var r := Apply(vars, vals, lines, max, app, false).value;
              |r| == |vars| && forall i :: 0 <= i < |r| ==>
                r[i] == Filled(vals[i], First(lines, vars[i]), max, app, false)
  {
    ApplyStops(vars, vals, lines, max, app, false);
    if Apply(vars, vals, lines, max, app, false).Some? {
      ApplyLength(vars, vals, lines, max, app, false);
      forall i: nat | i < |vars| {
        ApplyFirst(vars, vals, lines, max, app, i);
      }
    }
  }

  lemma {:induction false} ApplyLength(vars: seq<string>, vals: seq<Val>, lines: seq<string>, max: nat, app: bool,
                                       overwrite: bool)
    requires |vals| == |vars| && Apply(vars, vals, lines, max, app, overwrite).Some?
    ensures |Apply(vars, vals, lines, max, app, overwrite).value| == |vars|
    decreases |lines|
  {
    if lines != [] {
      ApplyLength(vars, ValsAfter(vars, vals, lines[0], max, app, overwrite), lines[1..], max, app, overwrite);
    }
  }
}
