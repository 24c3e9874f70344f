/**
  Filling a bounded buffer with whole characters: what the two transcoders have in common.
 */
module Transcode {

  /** What happens to one element of the destination. */
  datatype Cell = Put(v: int) | Keep

  type Chunk = seq<Cell>

  /** The characters read from a source, as the elements each of them becomes, up to the first
      malformed one if there is one. */
  datatype Parsed = Parsed(chunks: seq<Chunk>, bad: bool)

  function Show(c: Cell, was: int): int {
    if c.Put? then c.v else was
  }

  /** A chunk that writes nothing is not counted as a character. */
  function Counts(c: Chunk): nat {
    if c == [Keep] then 0 else 1
  }

  function Flat(l: seq<Chunk>): seq<Cell> {
    if l == [] then [] else l[0] + Flat(l[1..])
  }

  function Count(l: seq<Chunk>): nat {
    if l == [] then 0 else Counts(l[0]) + Count(l[1..])
  }

  /** How many leading chunks go into `room` elements with at most `budget` characters. */
  function Fit(l: seq<Chunk>, room: int, budget: int): (k: nat)
    ensures k <= |l|
  {
    if l == [] || room <= 0 || budget <= 0 || room < |l[0]| then 0
    else 1 + Fit(l[1..], room - |l[0]|, budget - Counts(l[0]))
  }

  lemma {:induction false} FlatMore(l: seq<Chunk>, k: nat)
    requires k < |l|
    ensures Flat(l[..k + 1]) == Flat(l[..k]) + l[k]
    ensures Count(l[..k + 1]) == Count(l[..k]) + Counts(l[k])
  {
    if k == 0 {
      assert l[..1] == [l[0]] && l[..0] == [];
      assert Flat([l[0]]) == l[0] + Flat([]);
    } else {
      FlatMore(l[1..], k - 1);
      assert l[..k + 1][1..] == l[1..][..k] && l[..k][1..] == l[1..][..k - 1];
    }
  }

  /** The prefix that is written is the longest that fits. */
  lemma {:induction false} FitLongest(l: seq<Chunk>, room: nat, budget: nat)
    requires forall i :: 0 <= i < |l| ==> l[i] != []
    ensures var k := Fit(l, room, budget);
      && |Flat(l[..k])| <= room && Count(l[..k]) <= budget
      && (k < |l| ==> room < |Flat(l[..k + 1])| || Count(l[..k]) == budget)
  {
    var k := Fit(l, room, budget);
    if k > 0 {
      FitLongest(l[1..], room - |l[0]|, budget - Counts(l[0]));
      assert l[..k][1..] == l[1..][..k - 1];
      if k < |l| {
        assert l[..k + 1][1..] == l[1..][..k];
      }
    } else if l != [] {
      assert l[..1] == [l[0]] && l[..0] == [];
      assert Flat([l[0]]) == l[0] + Flat([]);
    }
  }

  /** With room and budget for everything, everything is written. */
  lemma {:induction false} FitAll(l: seq<Chunk>, room: nat, budget: nat)
    requires |Flat(l)| <= room && Count(l) < budget && forall i :: 0 <= i < |l| ==> l[i] != []
    ensures Fit(l, room, budget) == |l|
  {
    if l != [] {
      FitAll(l[1..], room - |l[0]|, budget - Counts(l[0]));
    }
  }

  // ----- one pass over the chunks

  /** `done` chunks are written, to element `d`, and the rest decides the rest. */
  ghost predicate Passed(l: seq<Chunk>, done: nat, room: nat, budget: nat, d: nat, chars: nat) {
    && done <= |l| && d == |Flat(l[..done])| <= room && chars == Count(l[..done])
    && Fit(l, room, budget) == done + Fit(l[done..], room - d, budget - chars)
  }

  lemma PassedNone(l: seq<Chunk>, room: nat, budget: nat)
    ensures Passed(l, 0, room, budget, 0, 0)
  {
    assert l[..0] == [] && l[0..] == l;
  }

  lemma PassedFacts(l: seq<Chunk>, p: Parsed, maxChars: nat, done: nat, room: nat, d: nat, chars: nat)
    requires l == p.chunks && Passed(l, done, room, Budget(p, maxChars), d, chars)
    ensures done <= |l| && d == |Flat(l[..done])| <= room && chars == Count(l[..done])
    ensures (maxChars == 0 || chars < maxChars) ==> chars < Budget(p, maxChars)
  {
    CountBound(l[..done]);
  }

  lemma PassedNext(l: seq<Chunk>, done: nat, room: nat, budget: nat, d: nat, chars: nat)
    requires Passed(l, done, room, budget, d, chars) && done < |l|
    requires d < room && chars < budget && d + |l[done]| <= room
    ensures Passed(l, done + 1, room, budget, d + |l[done]|, chars + Counts(l[done]))
    ensures Flat(l[..done + 1]) == Flat(l[..done]) + l[done]
  {
    FlatMore(l, done);
    assert l[done..][0] == l[done] && l[done..][1..] == l[done + 1..];
  }

  /** Nothing more goes in. */
  lemma PassedAll(l: seq<Chunk>, done: nat, room: nat, budget: nat, d: nat, chars: nat)
    requires Passed(l, done, room, budget, d, chars)
    requires done == |l| || d == room || budget <= chars || room < d + |l[done]|
    ensures Fit(l, room, budget) == done
  {
    if done < |l| {
      assert l[done..][0] == l[done];
    }
  }

  /** The first elements of `dst` show `cells`; the others are as they were. */
  ghost predicate Shows(dst: seq<int>, was: seq<int>, cells: seq<Cell>) {
    && |cells| <= |dst| == |was|
    && (forall j :: 0 <= j < |cells| ==> dst[j] == Show(cells[j], was[j]))
    && (forall j :: |cells| <= j < |dst| ==> dst[j] == was[j])
  }

  lemma ShowsNone(was: seq<int>)
    ensures forall l: seq<Chunk> :: Shows(was, was, Flat(l[..0]))
  {
    assert forall l: seq<Chunk> :: l[..0] == [];
  }

  lemma ShowsRest(dst: seq<int>, was: seq<int>, cells: seq<Cell>)
    requires Shows(dst, was, cells)
    ensures |dst| == |was| && forall j :: |cells| <= j < |dst| ==> dst[j] == was[j]
  {
  }

  lemma ShowsMore(pre: seq<int>, dst: seq<int>, was: seq<int>, cells: seq<Cell>, chunk: Chunk)
    requires Shows(pre, was, cells) && |dst| == |pre| && |cells| + |chunk| <= |pre|
    requires forall j :: 0 <= j < |chunk| ==> dst[|cells| + j] == Show(chunk[j], was[|cells| + j])
    requires forall j :: 0 <= j < |dst| && !(|cells| <= j < |cells| + |chunk|) ==> dst[j] == pre[j]
    ensures Shows(dst, was, cells + chunk)
  {
    forall j | 0 <= j < |cells + chunk| ensures dst[j] == Show((cells + chunk)[j], was[j]) {
      if |cells| <= j {
        assert dst[|cells| + (j - |cells|)] == Show(chunk[j - |cells|], was[|cells| + (j - |cells|)]);
      }
    }
  }

  /** As Shows, with a terminating NUL if there is room. */
  ghost predicate ShowsString(dst: seq<int>, was: seq<int>, cells: seq<Cell>) {
    && |cells| <= |dst| == |was|
    && (forall j :: 0 <= j < |cells| ==> dst[j] == Show(cells[j], was[j]))
    && (|cells| < |dst| ==> dst[|cells|] == 0)
    && (forall j :: |cells| < j < |dst| ==> dst[j] == was[j])
  }

  /** The source is malformed and the pass gets as far as noticing. */
  ghost predicate Fails(p: Parsed, room: nat, budget: nat) {
    p.bad && Fit(p.chunks, room, budget) == |p.chunks| && |Flat(p.chunks)| < room && Count(p.chunks) < budget
  }

  /** max_chars, with 0 for no limit. */
  function Budget(p: Parsed, maxChars: nat): nat {
    if maxChars == 0 then |p.chunks| + 1 else maxChars
  }

  lemma {:induction false} CountBound(l: seq<Chunk>)
    ensures Count(l) <= |l|
  {
    if l != [] {
      CountBound(l[1..]);
    }
  }

  /** What a transcoder returns and leaves in its buffer: -1 if it comes upon something malformed,
      else the longest prefix of whole characters that fits, terminated if there is room. */
  ghost predicate Outcome(p: Parsed, maxChars: nat, r: int, written: nat, dst: seq<int>, was: seq<int>) {
    var budget := Budget(p, maxChars);
    var k := Fit(p.chunks, |was|, budget);
    && (r == -1 <==> Fails(p, |was|, budget))
    && (r != -1 ==>
         r == |Flat(p.chunks[..k])| && written == Count(p.chunks[..k]) && ShowsString(dst, was, Flat(p.chunks[..k])))
  }

  lemma OutcomeMalformed(p: Parsed, maxChars: nat, done: nat, d: nat, chars: nat, dst: seq<int>, was: seq<int>)
    requires Passed(p.chunks, done, |was|, Budget(p, maxChars), d, chars)
    requires Parsed(p.chunks[done..], p.bad) == Parsed([], true) && d < |was| && (maxChars == 0 || chars < maxChars)
    ensures Outcome(p, maxChars, -1, 0, dst, was)
  {
    assert p.chunks[..done] == p.chunks;
    CountBound(p.chunks);
    PassedAll(p.chunks, done, |was|, Budget(p, maxChars), d, chars);
  }

  lemma OutcomeWritten(p: Parsed, maxChars: nat, done: nat, d: nat, chars: nat, dst: seq<int>, was: seq<int>)
    requires Passed(p.chunks, done, |was|, Budget(p, maxChars), d, chars)
    requires ShowsString(dst, was, Flat(p.chunks[..done]))
    requires
      || Parsed(p.chunks[done..], p.bad) == Parsed([], false)
      || d == |was|
      || (maxChars != 0 && maxChars <= chars)
      || (done < |p.chunks| && |was| < d + |p.chunks[done]|)
    ensures Outcome(p, maxChars, d, chars, dst, was)
  {
    assert p.chunks[done..] == [] ==> done == |p.chunks|;
    PassedAll(p.chunks, done, |was|, Budget(p, maxChars), d, chars);
    assert done == |p.chunks| ==> p.chunks[..done] == p.chunks;
  }

  /** The terminating NUL, if there is room. */
  method Terminate(dst: array<int>, d: nat, ghost was: seq<int>, ghost cells: seq<Cell>)
    requires Shows(dst[..], was, cells) && |cells| == d
    modifies dst
    ensures ShowsString(dst[..], was, cells)
  {
    if d < dst.Length {
      dst[d] := 0;
    }
  }

  /** With no limit and more than enough room, all or -1. */
  lemma OutcomeAll(p: Parsed, r: int, written: nat, dst: seq<int>, was: seq<int>)
    requires Outcome(p, 0, r, written, dst, was) && |Flat(p.chunks)| < |was|
    requires forall i :: 0 <= i < |p.chunks| ==> p.chunks[i] != []
    ensures r == -1 <==> p.bad
    ensures r != -1 ==> r == |Flat(p.chunks)| && written == Count(p.chunks) && ShowsString(dst, was, Flat(p.chunks))
  {
    CountBound(p.chunks);
    FitAll(p.chunks, |was|, Budget(p, 0));
    assert p.chunks[..|p.chunks|] == p.chunks;
  }
}
