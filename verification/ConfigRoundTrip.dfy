/**
  Configuration files written line by line are read back: every variable gets the value that was
  written for it first, in the application's file before the default one.
 */
module ConfigRoundTrip {
  import opened Config
  import opened ConfigLines
  import opened ConfigReader
  import opened Options

  /** A line of a file. */
  datatype Entry = Setting(name: string, value: string) | Comment(text: string) | Blank

  function LineOf(x: Entry): string {
    match x
    case Setting(name, value) => name + "=" + value
    case Comment(text) => "#" + text
    case Blank => ""
  }

  function LinesFor(xs: seq<Entry>): seq<string> {
    if xs == [] then [] else [LineOf(xs[0])] + LinesFor(xs[1..])
  }

  /** The line up to its newline. */
  function Full(x: Entry, crlf: bool): string {
    LineOf(x) + if crlf then "\r" else ""
  }

  /** The file with one entry per line. */
  function Render(xs: seq<Entry>, crlf: bool): string {
    if xs == [] then "" else Full(xs[0], crlf) + "\n" + Render(xs[1..], crlf)
  }

  predicate Plain(s: string) {
    '\n' !in s && '\r' !in s && '\0' !in s
  }

  /** What can be written on a line of a file that is read with a buffer of `b` characters. */
  predicate Writable(x: Entry, b: nat) {
    && |LineOf(x)| + 1 < b && Plain(LineOf(x))
    && (x.Setting? ==> x.name != "" && x.name[0] != '#' && '=' !in x.name)
  }

  predicate AllWritable(xs: seq<Entry>, b: nat) {
    forall i :: 0 <= i < |xs| ==> Writable(xs[i], b)
  }

  /** The value written first for `name`. */
  function Written(xs: seq<Entry>, name: string): Option<string> {
    if xs == [] then None
    else if xs[0].Setting? && xs[0].name == name then Some(xs[0].value)
    else Written(xs[1..], name)
  }

  lemma LineFacts(x: Entry, b: nat)
    requires Writable(x, b)
    ensures Skipped(LineOf(x)) <==> !x.Setting?
    ensures forall crlf :: Chomp(Full(x, crlf)) == LineOf(x) && '\n' !in Full(x, crlf) && |Full(x, crlf)| < b
  {
    var l := LineOf(x);
    assert x.Setting? ==> l[0] == x.name[0];
    assert l != "" ==> l[|l| - 1] in l;
    assert Full(x, false) == l;
  }

  // ----- the lines of the file

  /** A line that ends in a newline. */
  lemma OneLine(pre: string, l: string, rest: string)
    requires '\n' !in l
    ensures var f, p := pre + l + "\n" + rest, pre + l + "\n";
      && f == p + rest && Split(f, |pre|) == [Chomp(l)] + Split(f, |p|)
      && forall b: nat {:trigger Fits(f, b, |pre|)} :: |l| < b && Fits(f, b, |p|) ==> Fits(f, b, |pre|)
  {
    var f, q := pre + l + "\n" + rest, |pre|;
    forall i | q <= i < q + |l| ensures f[i] != '\n' {
      assert f[i] == l[i - q];
    }
    NextNewlineIs(f, q, |f|, q + |l|);
    hide NextNewline, Chomp;
    assert f[q..q + |l|] == l;
  }

  /** From the line of `xs` on. */
  lemma {:induction false} RenderedLines(pre: string, xs: seq<Entry>, crlf: bool, b: nat)
    requires 0 < b && AllWritable(xs, b)
    ensures var f := pre + Render(xs, crlf); Split(f, |pre|) == LinesFor(xs) && Fits(f, b, |pre|)
    decreases |xs|
  {
    hide NextNewline, LineOf, Chomp, Full, Split, Fits;
    if xs == [] {
      NoLine(pre + Render(xs, crlf), b);
    } else {
      var l, rest := Full(xs[0], crlf), Render(xs[1..], crlf);
      LineFacts(xs[0], b);
      OneLine(pre, l, rest);
      var p := pre + l + "\n";
      Regrouped(pre, l, rest);
      RenderedLines(p, xs[1..], crlf, b);
    }
  }

  lemma NoLine(f: string, b: nat)
    requires 0 < b
    ensures Split(f, |f|) == [] && Fits(f, b, |f|)
  {
  }

  lemma Regrouped(pre: string, l: string, rest: string)
    ensures pre + (l + "\n" + rest) == pre + l + "\n" + rest
  {
  }

  lemma {:induction false} RenderedText(xs: seq<Entry>, crlf: bool, b: nat)
    requires AllWritable(xs, b)
    ensures var f := Render(xs, crlf); IsText(f) && (f == "" || f[|f| - 1] == '\n')
    decreases |xs|
  {
    if xs != [] {
      RenderedText(xs[1..], crlf, b);
      var l, r := Full(xs[0], crlf) + "\n", Render(xs[1..], crlf);
      assert Render(xs, crlf) == l + r;
      assert r == "" ==> l + r == l;
    }
  }

  // ----- what the lines say

  /** A line assigns to the variable it was written for, and to no other. */
  lemma AssignsOnly(x: Entry, b: nat, name: string)
    requires Writable(x, b) && x.Setting? && '=' !in name
    ensures Assigns(LineOf(x), name) <==> x.name == name
    ensures LineOf(x)[|x.name| + 1..] == x.value
    ensures Invalid(LineOf(x), name) <==> name < x.name
  {
    var l := LineOf(x);
    assert l[|x.name|] == '=' && l[..|x.name|] == x.name;
    if HasPrefix(l, name) {
      assert forall j :: 0 <= j < |name| ==> l[j] == name[j];
      assert |name| <= |x.name|;
      assert name == x.name[..|name|];
    }
    if name <= x.name {
      assert l[..|name|] == name;
    }
  }

  lemma {:induction false} FirstWritten(xs: seq<Entry>, b: nat, name: string)
    requires AllWritable(xs, b) && '=' !in name
    ensures First(LinesFor(xs), name) == Written(xs, name)
    decreases |xs|
  {
    if xs != [] {
      LineFacts(xs[0], b);
      if xs[0].Setting? {
        AssignsOnly(xs[0], b, name);
      }
      FirstWritten(xs[1..], b, name);
    }
  }

  /** A variable whose name begins another setting's makes that one's line invalid. */
  ghost predicate Clash(vars: seq<string>, xs: seq<Entry>) {
    exists i, j :: 0 <= i < |vars| && 0 <= j < |xs| && xs[j].Setting? && vars[i] < xs[j].name
  }

  lemma {:induction false} NthLine(xs: seq<Entry>, j: nat)
    requires j < |xs|
    ensures |LinesFor(xs)| == |xs| && LinesFor(xs)[j] == LineOf(xs[j])
  {
    if |xs| > 1 {
      NthLine(xs[1..], if j > 0 then j - 1 else 0);
    }
  }

  lemma ClashInvalid(vars: seq<string>, xs: seq<Entry>, b: nat)
    requires AllWritable(xs, b) && forall i :: 0 <= i < |vars| ==> '=' !in vars[i]
    ensures Clash(vars, xs) <==> exists line :: line in LinesFor(xs) && LineInvalid(vars, line)
  {
    var lines := LinesFor(xs);
    forall j | 0 <= j < |xs|
      ensures |lines| == |xs| && lines[j] == LineOf(xs[j])
      ensures LineInvalid(vars, lines[j]) <==> xs[j].Setting? && exists i :: 0 <= i < |vars| && vars[i] < xs[j].name
    {
      NthLine(xs, j);
      LineFacts(xs[j], b);
      if xs[j].Setting? {
        forall i | 0 <= i < |vars| ensures Invalid(lines[j], vars[i]) <==> vars[i] < xs[j].name {
          AssignsOnly(xs[j], b, vars[i]);
        }
      }
    }
    if Clash(vars, xs) {
      var i, j :| 0 <= i < |vars| && 0 <= j < |xs| && xs[j].Setting? && vars[i] < xs[j].name;
      assert lines[j] in lines && LineInvalid(vars, lines[j]);
    }
  }

  /** What a variable is to be: the value written in the application's file, else the one in the default file,
      else the one from the environment, whole if it fits. */
  ghost predicate Restored(v: Val, app: Option<string>, dflt: Option<string>, env: Option<string>, max: nat) {
    if app.Some? then v == Val(true, v.value, true, false) && ReadsAs(v.value, app.value, max)
    else if dflt.Some? then v == Val(true, v.value, false, false) && ReadsAs(v.value, dflt.value, max)
    else if env.Some? then v == Val(true, v.value, false, true) && ReadsAs(v.value, env.value, max)
    else !v.hasValue
  }

  ghost predicate ReadsAs(value: string, s: string, max: nat) {
    value <= s && (|s| <= max ==> value == s) && (|s| > max ==> |value| == max)
  }

  lemma SettledRestored(v: Val, name: string, app: seq<string>, dflt: seq<string>, env: map<string, string>, max: nat)
    requires !v.hasValue
    ensures Restored(Settled(v, name, app, dflt, env, max), First(app, name), First(dflt, name), Lookup(env, name), max)
  {
    hide First;
  }

  /** What reading a written file amounts to. */
  lemma WrittenFile(vars: seq<string>, xs: seq<Entry>, crlf: bool, b: nat)
    requires 0 < b && AllWritable(xs, b) && forall i :: 0 <= i < |vars| ==> '=' !in vars[i]
    ensures var f := Render(xs, crlf);
      && IsText(f) && LinesOf(Some(f), b) == LinesFor(xs)
      && (Clash(vars, xs) <==> exists line :: line in LinesFor(xs) && LineInvalid(vars, line))
      && forall i :: 0 <= i < |vars| ==> First(LinesFor(xs), vars[i]) == Written(xs, vars[i])
  {
    hide Render, First, LineInvalid, Clash, Split, Raw, Writable, Written;
    var f := Render(xs, crlf);
    RenderedText(xs, crlf, b);
    RenderedLines("", xs, crlf, b);
    assert "" + f == f;
    SettledByLines(f, b);
    ClashInvalid(vars, xs, b);
    forall i | 0 <= i < |vars| ensures First(LinesFor(xs), vars[i]) == Written(xs, vars[i]) {
      FirstWritten(xs, b, vars[i]);
    }
  }

  /** Reading two written files: it fails exactly when a variable's name begins the name of another setting in
      one of them; otherwise every variable is restored. */
  method ReadBack(c: ConfigInfo, xs: seq<Entry>, ys: seq<Entry>, crlf: bool, env: map<string, string>, bufSize: nat)
      returns (ok: bool)
    requires c.Valid() && 1 < bufSize && AllWritable(xs, bufSize - 1) && AllWritable(ys, bufSize - 1)
    requires forall i :: 0 <= i < |c.vals| ==> !c.vals[i].hasValue
    modifies c
    ensures ok <==> !Clash(c.vars, xs) && !Clash(c.vars, ys)
    ensures c.Valid()
    ensures ok ==> forall i :: 0 <= i < |c.vars| ==>
              Restored(c.vals[i], Written(xs, c.vars[i]), Written(ys, c.vars[i]), Lookup(env, c.vars[i]), c.maxValue)
  {
    hide Render, First, LineInvalid, Settled, Restored, Lookup, Clash, LinesOf, Writable, Written, LinesFor, IsText;
    var f, g := Render(xs, crlf), Render(ys, crlf);
    ghost var b, v0 := bufSize - 1, c.vals;
    WrittenFile(c.vars, xs, crlf, b);
    WrittenFile(c.vars, ys, crlf, b);
    forall i | 0 <= i < |c.vars|
      ensures Restored(Settled(v0[i], c.vars[i], LinesFor(xs), LinesFor(ys), env, c.maxValue),
                       Written(xs, c.vars[i]), Written(ys, c.vars[i]), Lookup(env, c.vars[i]), c.maxValue)
    {
      SettledRestored(v0[i], c.vars[i], LinesFor(xs), LinesFor(ys), env, c.maxValue);
    }
    ok := c.ConfigRead(Some(f), Some(g), env, bufSize);
  }
}
