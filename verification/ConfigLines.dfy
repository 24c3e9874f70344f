/**
  Lines of a configuration file: the plain split, and what a reader with a bounded buffer makes of
  the file.
 */
module ConfigLines {
  import opened Options

  /** The index of the first newline of `f` in [q, e), or `e`. */
  function NextNewline(f: string, q: nat, e: nat): (n: nat)
    requires q <= e <= |f|
    ensures q <= n <= e && (n < e ==> f[n] == '\n') && forall i :: q <= i < n ==> f[i] != '\n'
    decreases e - q
  {
    if q == e || f[q] == '\n' then q else NextNewline(f, q + 1, e)
  }

  lemma NextNewlineIs(f: string, q: nat, e: nat, n: nat)
    requires q <= n <= e <= |f| && (n < e ==> f[n] == '\n') && forall i :: q <= i < n ==> f[i] != '\n'
    ensures NextNewline(f, q, e) == n
  {
    assert forall m :: q <= m < n ==> f[m] != '\n';
  }

  /** One trailing carriage return goes. */
  function Chomp(s: string): string {
    if s != "" && s[|s| - 1] == '\r' then s[..|s| - 1] else s
  }

  /** The newline-terminated lines from offset `q` on. */
  function Split(f: string, q: nat): seq<string>
    requires q <= |f|
    decreases |f| - q
  {
    var n := NextNewline(f, q, |f|);
    if n == |f| then [] else [Chomp(f[q..n])] + Split(f, n + 1)
  }

  /** Where the text after the last newline starts. */
  function Rest(f: string, q: nat): (r: nat)
    requires q <= |f|
    ensures q <= r <= |f|
    decreases |f| - q
  {
    var n := NextNewline(f, q, |f|);
    if n == |f| then q else Rest(f, n + 1)
  }

  // ----- the reader

  /** The lines found with a buffer of `b` characters that holds the file from offset `p` on, from
      the line at offset `q` on. */
  function Raw(f: string, b: nat, p: nat, q: nat): seq<string>
    requires 0 < b && p <= q <= Min(p + b, |f|)
    decreases |f| - q, q - p
  {
    var e := Min(p + b, |f|);
    var n := NextNewline(f, q, e);
    if n < e then [Chomp(f[q..n])] + Raw(f, b, p, n + 1)
    else if p == q then
      if q == e then []
      else [if e - q == b then Chomp(f[q..e]) else f[q..e]] + Raw(f, b, e, e)
    else if e == |f| then []
    else Raw(f, b, q, q)
  }

  /** A terminated line as a buffer of `b` characters hands it on: what does not fit with its newline goes
      in pieces of `b` characters, the last one shorter and possibly empty. */
  function Pieces(s: string, b: nat): seq<string>
    requires 0 < b
  {
    if |s| < b then [Chomp(s)] else [Chomp(s[..b])] + Pieces(s[b..], b)
  }

  /** The same for text without a newline at the end of the file; its last piece keeps a carriage return. */
  function EndPieces(s: string, b: nat): seq<string>
    requires 0 < b
  {
    if s == "" then [] else if |s| < b then [s] else [Chomp(s[..b])] + EndPieces(s[b..], b)
  }

  /** The pieces of the newline-terminated lines from offset `q` on. */
  function SplitPieces(f: string, b: nat, q: nat): seq<string>
    requires 0 < b && q <= |f|
    decreases |f| - q
  {
    var n := NextNewline(f, q, |f|);
    if n == |f| then [] else Pieces(f[q..n], b) + SplitPieces(f, b, n + 1)
  }

  /** Every terminated line fits, with its newline, and so does the rest. */
  predicate Fits(f: string, b: nat, q: nat)
    requires q <= |f|
    decreases |f| - q
  {
    var n := NextNewline(f, q, |f|);
    if n == |f| then n - q < b else n - q < b && Fits(f, b, n + 1)
  }

  /** The offset of the buffer when the reader comes to the text after the last newline. */
  function Window(f: string, b: nat, p: nat, q: nat): (w: nat)
    requires 0 < b && p <= q <= |f|
    ensures p <= w <= |f|
    decreases |f| - q
  {
    var n := NextNewline(f, q, |f|);
    if n == |f| then p
    else if n < p + b then Window(f, b, p, n + 1)
    else if n < q + b then Window(f, b, q, n + 1)
    else Window(f, b, q + b, q + b)
  }

  /** The reader has not read the text after the last newline to the end of the file before it starts on
      it, or that text starts the buffer. */
  predicate RestRead(f: string, b: nat, p: nat, q: nat)
    requires 0 < b && p <= q <= |f|
  {
    var w := Window(f, b, p, q);
    Rest(f, q) == w || w + b < |f|
  }

  /** Some way into a line. */
  lemma Later(f: string, q: nat, m: nat)
    requires q <= |f| && q <= m <= NextNewline(f, q, |f|)
    ensures NextNewline(f, m, |f|) == NextNewline(f, q, |f|)
    ensures Rest(f, m) == if NextNewline(f, q, |f|) == |f| then m else Rest(f, q)
  {
    NextNewlineIs(f, m, |f|, NextNewline(f, q, |f|));
  }

  lemma RawEnd(f: string, b: nat)
    requires 0 < b
    ensures Raw(f, b, |f|, |f|) == []
  {
  }

  lemma RawStep(f: string, b: nat, p: nat, q: nat)
    requires 0 < b && p <= q <= Min(p + b, |f|)
    ensures var n := NextNewline(f, q, |f|);
      && (n < |f| && n < p + b ==> Raw(f, b, p, q) == [Chomp(f[q..n])] + Raw(f, b, p, n + 1))
      && (p < q && p + b <= n && p + b < |f| ==> Raw(f, b, p, q) == Raw(f, b, q, q))
      && (p < q && n == |f| <= p + b ==> Raw(f, b, p, q) == [])
      && (p == q && q + b <= n ==> Raw(f, b, p, q) == [Chomp(f[q..q + b])] + Raw(f, b, q + b, q + b))
      && (p == q && n == |f| < q + b ==> Raw(f, b, p, q) == if q == |f| then [] else [f[q..]])
  {
    hide NextNewline, Chomp;
    var e, n := Min(p + b, |f|), NextNewline(f, q, |f|);
    NextNewlineIs(f, q, e, if n < e then n else e);
    if p == q && n == |f| < q + b {
      RawEnd(f, b);
      assert f[q..|f|] == f[q..];
    }
  }

  lemma FirstPiece(f: string, b: nat, q: nat, n: nat)
    requires 0 < b && q + b <= n <= |f|
    ensures Pieces(f[q..n], b) == [Chomp(f[q..q + b])] + Pieces(f[q + b..n], b)
  {
    assert f[q..n][..b] == f[q..q + b] && f[q..n][b..] == f[q + b..n];
  }

  lemma LinePieces(f: string, b: nat, q: nat)
    requires 0 < b && q <= |f| && NextNewline(f, q, |f|) < |f|
    ensures var n := NextNewline(f, q, |f|);
      && SplitPieces(f, b, q) == Pieces(f[q..n], b) + SplitPieces(f, b, n + 1)
      && (n < q + b ==> Pieces(f[q..n], b) == [Chomp(f[q..n])])
  {
  }

  lemma SplitStep(f: string, b: nat, q: nat)
    requires 0 < b && q <= |f| && NextNewline(f, q, |f|) < |f|
    ensures var n := NextNewline(f, q, |f|);
      SplitPieces(f, b, q) ==
      if n < q + b then [Chomp(f[q..n])] + SplitPieces(f, b, n + 1)
      else [Chomp(f[q..q + b])] + SplitPieces(f, b, q + b)
  {
    hide NextNewline, Chomp, Rest, SplitPieces, Pieces;
    var n := NextNewline(f, q, |f|);
    LinePieces(f, b, q);
    if q + b <= n {
      Later(f, q, q + b);
      LinePieces(f, b, q + b);
      FirstPiece(f, b, q, n);
    }
  }

  lemma EndStep(f: string, b: nat, q: nat)
    requires 0 < b && q <= |f|
    ensures EndPieces(f[q..], b) ==
            if q + b <= |f| then [Chomp(f[q..q + b])] + EndPieces(f[q + b..], b)
            else if q == |f| then [] else [f[q..]]
    ensures NextNewline(f, q, |f|) == |f| ==> SplitPieces(f, b, q) == []
  {
    if q + b <= |f| {
      assert f[q..][..b] == f[q..q + b] && f[q..][b..] == f[q + b..];
    }
  }

  lemma RestStep(f: string, b: nat, p: nat, q: nat)
    requires 0 < b && p <= q <= |f|
    ensures var n := NextNewline(f, q, |f|);
      && (n == |f| ==> Rest(f, q) == q && (RestRead(f, b, p, q) <==> p == q || p + b < |f|))
      && (n < |f| && n < p + b ==>
           Rest(f, q) == Rest(f, n + 1) && (RestRead(f, b, p, q) <==> RestRead(f, b, p, n + 1)))
      && (p + b <= n < |f| ==> (RestRead(f, b, p, q) <==> RestRead(f, b, q, q)))
      && (p + b <= n < |f| && q + b <= n ==>
           Rest(f, q) == Rest(f, q + b) && (RestRead(f, b, p, q) <==> RestRead(f, b, q + b, q + b)))
  {
    hide NextNewline;
    var n := NextNewline(f, q, |f|);
    if q + b <= n < |f| {
      Later(f, q, q + b);
    }
  }

  /** What the reader should find from a line on. */
  ghost function Found(f: string, b: nat, p: nat, q: nat): seq<string>
    requires 0 < b && p <= q <= |f|
  {
    SplitPieces(f, b, q) + if RestRead(f, b, p, q) then EndPieces(f[Rest(f, q)..], b) else []
  }

  lemma FoundStep(f: string, b: nat, p: nat, q: nat)
    requires 0 < b && p <= q <= |f|
    ensures var n := NextNewline(f, q, |f|);
      && (n < |f| && n < p + b ==> Found(f, b, p, q) == [Chomp(f[q..n])] + Found(f, b, p, n + 1))
      && (p < q && p + b <= n && p + b < |f| ==> Found(f, b, p, q) == Found(f, b, q, q))
      && (p < q && n == |f| <= p + b ==> Found(f, b, p, q) == [])
      && (p == q && q + b <= n ==> Found(f, b, p, q) == [Chomp(f[q..q + b])] + Found(f, b, q + b, q + b))
      && (p == q && n == |f| < q + b ==> Found(f, b, p, q) == if q == |f| then [] else [f[q..]])
  {
    hide NextNewline, Chomp, SplitPieces, EndPieces, Rest, RestRead;
    var n := NextNewline(f, q, |f|);
    RestStep(f, b, p, q);
    RestStep(f, b, q, q);
    if n < |f| {
      SplitStep(f, b, q);
    } else {
      EndStep(f, b, q);
      if q + b <= n {
        Later(f, q, q + b);
        RestStep(f, b, q + b, q + b);
        EndStep(f, b, q + b);
      }
    }
  }

  /** The reader finds the lines of the file, in pieces where they do not fit, and the text after the last
      newline just when RestRead says so. */
  lemma {:induction false} RawLines(f: string, b: nat, p: nat, q: nat)
    requires 0 < b && p <= q <= Min(p + b, |f|)
    ensures Raw(f, b, p, q) ==
            SplitPieces(f, b, q) + if RestRead(f, b, p, q) then EndPieces(f[Rest(f, q)..], b) else []
    decreases |f| - q, q - p
  {
    hide Raw, NextNewline, Chomp, SplitPieces, EndPieces, Rest, RestRead;
    var n := NextNewline(f, q, |f|);
    FoundStep(f, b, p, q);
    RawStep(f, b, p, q);
    if n < |f| && n < p + b {
      RawLines(f, b, p, n + 1);
    } else if p < q && p + b < |f| {
      RawLines(f, b, q, q);
    } else if p == q && q + b <= n {
      RawLines(f, b, q + b, q + b);
    }
  }

  /** The lines of a file in which they fit are not cut. */
  lemma {:induction false} Uncut(f: string, b: nat, q: nat)
    requires 0 < b && q <= |f| && Fits(f, b, q)
    ensures SplitPieces(f, b, q) == Split(f, q)
    ensures var r := f[Rest(f, q)..]; EndPieces(r, b) == if r == "" then [] else [r]
    decreases |f| - q
  {
    var n := NextNewline(f, q, |f|);
    if n < |f| {
      Uncut(f, b, n + 1);
    }
  }

  /** There is no text after the last newline just when the file ends in one or is empty. */
  lemma {:induction false} RestEmpty(f: string, q: nat)
    requires q <= |f|
    ensures Rest(f, q) == |f| <==> q == |f| || f[|f| - 1] == '\n'
    decreases |f| - q
  {
    var n := NextNewline(f, q, |f|);
    if n < |f| {
      RestEmpty(f, n + 1);
    } else if q < |f| {
      assert f[|f| - 1] != '\n';
    }
  }

  /** A file that ends in a newline is read line by line. */
  lemma WholeFile(f: string, b: nat)
    requires 0 < b && Fits(f, b, 0) && (f == "" || f[|f| - 1] == '\n')
    ensures Raw(f, b, 0, 0) == Split(f, 0)
  {
    RawLines(f, b, 0, 0);
    Uncut(f, b, 0);
    RestEmpty(f, 0);
  }

  lemma {:induction false} OneWindow(f: string, b: nat, q: nat)
    requires 0 < b && q <= |f| <= b
    ensures Window(f, b, 0, q) == 0
    decreases |f| - q
  {
    var n := NextNewline(f, q, |f|);
    if n < |f| {
      OneWindow(f, b, n + 1);
    }
  }

  /** A file that fits in the buffer loses an unterminated last line exactly when a newline comes
      before it. */
  lemma SmallFile(f: string, b: nat)
    requires 0 < b && |f| < b
    ensures Raw(f, b, 0, 0) == Split(f, 0) + if 0 == Rest(f, 0) < |f| then [f] else []
  {
    AllFit(f, b, 0);
    RawLines(f, b, 0, 0);
    Uncut(f, b, 0);
    OneWindow(f, b, 0);
    assert f[0..] == f;
  }

  lemma {:induction false} AllFit(f: string, b: nat, q: nat)
    requires q <= |f| < b
    ensures Fits(f, b, q)
    decreases |f| - q
  {
    var n := NextNewline(f, q, |f|);
    if n < |f| {
      AllFit(f, b, n + 1);
    }
  }

  /** The second of two settings is not seen without its newline. */
  lemma LastLineLost()
    ensures Raw("A=1\nB=2", 640, 0, 0) == ["A=1"]
  {
    var f := "A=1\nB=2";
    assert NextNewline(f, 0, 7) == 3 by {
      NextNewlineIs(f, 0, 7, 3);
    }
    assert NextNewline(f, 4, 7) == 7 by {
      NextNewlineIs(f, 4, 7, 7);
    }
    assert f[0..3] == "A=1";
    assert Raw(f, 640, 0, 4) == [];
  }
}
