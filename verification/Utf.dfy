/**
  The conversions between UTF-8 and UTF-16. Bytes and 16-bit units are integers; shifts and masks
  are written as division and remainder.
 */
module Utf {
  import opened Transcode

  // ----- the encodings (section 3 of RFC 3629, section 2.1 of RFC 2781)

  predicate IsSurrogate(c: int) {
    0xd800 <= c <= 0xdfff
  }

  predicate IsLow(c: int) {
    0xdc00 <= c <= 0xdfff
  }

  /** A Unicode character other than NUL. */
  predicate IsScalar(cp: int) {
    0 < cp <= 0x10ffff && !IsSurrogate(cp)
  }

  function Encode8(cp: int): Chunk {
    if cp <= 0x7f then [Put(cp)]
    else if cp <= 0x7ff then [Put(0xc0 + cp / 64), Put(0x80 + cp % 64)]
    else if cp <= 0xffff then [Put(0xe0 + cp / 4096), Put(0x80 + cp / 64 % 64), Put(0x80 + cp % 64)]
    else [Put(0xf0 + cp / 262144), Put(0x80 + cp / 4096 % 64), Put(0x80 + cp / 64 % 64), Put(0x80 + cp % 64)]
  }

  function Encode16(cp: int): Chunk {
    if cp < 0x10000 then [Put(cp)]
    else [Put((cp - 0x10000) / 1024 + 0xd800), Put((cp - 0x10000) % 1024 + 0xdc00)]
  }

  function Values(c: Chunk): seq<int> {
    seq(|c|, i requires 0 <= i < |c| => Show(c[i], 0))
  }

  function Utf8Of(cps: seq<int>): seq<int> {
    if cps == [] then [] else Values(Encode8(cps[0])) + Utf8Of(cps[1..])
  }

  function Utf16Of(cps: seq<int>): seq<int> {
    if cps == [] then [] else Values(Encode16(cps[0])) + Utf16Of(cps[1..])
  }

  function Chunks8(cps: seq<int>): seq<Chunk> {
    if cps == [] then [] else [Encode8(cps[0])] + Chunks8(cps[1..])
  }

  function Chunks16(cps: seq<int>): seq<Chunk> {
    if cps == [] then [] else [Encode16(cps[0])] + Chunks16(cps[1..])
  }

  // ----- what the code reads

  function Cons(c: Chunk, p: Parsed): Parsed {
    Parsed([c] + p.chunks, p.bad)
  }

  /** The character of a surrogate pair, by the code's arithmetic. */
  function PairValue(h: int, l: int): int {
    (h - 0xd800) * 1024 + (l - 0xdc00) + 0x10000
  }

  function Parse16(src: seq<int>, i: nat): Parsed
    decreases |src| - i
  {
    if i >= |src| then Parsed([], false)
    else if !IsSurrogate(src[i]) then Cons(Encode8(src[i]), Parse16(src, i + 1))
    else if i + 1 < |src| && IsLow(src[i + 1]) then Cons(Encode8(PairValue(src[i], src[i + 1])), Parse16(src, i + 2))
    else Parsed([], true)
  }

  predicate IsTail(src: seq<int>, i: nat) {
    i < |src| && src[i] / 64 == 2
  }

  function Value4(a: int, b: int, c: int, d: int): int {
    a % 8 * 262144 + b % 64 * 4096 + c % 64 * 64 + d % 64
  }

  /** The two units of a four-byte character; the subtraction is on 32 bits. */
  function Units4(cp: int): Chunk {
    var v := (cp - 0x10000) % 0x1_0000_0000;
    [Put((v / 1024 + 0xd800) % 0x10000), Put(v % 1024 + 0xdc00)]
  }

  function Parse8(src: seq<int>, i: nat): Parsed
    decreases |src| - i
  {
    if i >= |src| then Parsed([], false)
    else if src[i] <= 0x7f then Cons([Put(src[i])], Parse8(src, i + 1))
    else if src[i] / 32 == 0x6 then
      if IsTail(src, i + 1) then Cons([Put(src[i] % 32 * 64 + src[i + 1] % 64)], Parse8(src, i + 2))
        else Parsed([], true)
    else if src[i] / 16 == 0xe then
      if IsTail(src, i + 1) && IsTail(src, i + 2)
      then Cons([Put(src[i] % 16 * 4096 + src[i + 1] % 64 * 64 + src[i + 2] % 64)], Parse8(src, i + 3))
      else Parsed([], true)
    else if src[i] / 8 == 0x1e then
      if IsTail(src, i + 1) && IsTail(src, i + 2) && IsTail(src, i + 3)
         && Value4(src[i], src[i + 1], src[i + 2], src[i + 3]) <= 0x10ffff
      then Cons(Units4(Value4(src[i], src[i + 1], src[i + 2], src[i + 3])), Parse8(src, i + 4))
      else Parsed([], true)
    else if src[i] / 4 == 0x3e || src[i] / 2 == 0x7e then Parsed([], true)
    else Cons([Keep], Parse8(src, i + 1))
  }

  /** The element at `i`, or the terminating NUL. */
  function Read(src: seq<int>, i: nat): int {
    if i < |src| then src[i] else 0
  }

  /** A C string of 16-bit units. */
  predicate IsWide(src: seq<int>) {
    forall i :: 0 <= i < |src| ==> 0 < src[i] <= 0xffff
  }

  predicate IsBytes(src: seq<int>) {
    forall i :: 0 <= i < |src| ==> 0 < src[i] <= 0xff
  }

  /** The branches of utf16_to_utf8 that write: one whole character or nothing. */
  method PutUtf8(dst: array<int>, d: nat, cp: int) returns (end: nat)
    requires d < dst.Length && 0 < cp
    modifies dst
    ensures end == if dst.Length < d + |Encode8(cp)| then d else d + |Encode8(cp)|
    ensures forall j :: 0 <= j < end - d ==> Encode8(cp)[j] == Put(dst[d + j])
    ensures forall j :: 0 <= j < dst.Length && !(d <= j < end) ==> dst[j] == old(dst[j])
  {
    end := d;
    if cp <= 0x7f {
      dst[end] := cp;
    } else if cp <= 0x7ff {
      if d + 1 >= dst.Length {
        return;
      }
      dst[end] := 0xc0 + cp / 64;
      end := end + 1;
      dst[end] := 0x80 + cp % 64;
    } else if cp <= 0xffff {
      if d + 2 >= dst.Length {
        return;
      }
      dst[end] := 0xe0 + cp / 4096;
      end := end + 1;
      dst[end] := 0x80 + cp / 64 % 64;
      end := end + 1;
      dst[end] := 0x80 + cp % 64;
    } else {
      if d + 3 >= dst.Length {
        return;
      }
      dst[end] := 0xf0 + cp / 262144;
      end := end + 1;
      dst[end] := 0x80 + cp / 4096 % 64;
      end := end + 1;
      dst[end] := 0x80 + cp / 64 % 64;
      end := end + 1;
      dst[end] := 0x80 + cp % 64;
    }
    end := end + 1;
  }

  /** One character of utf16_to_utf8's source: its value and the index of its last unit, or -1. */
  method ReadUtf16(src: seq<int>, s: nat) returns (cp: int, last: nat)
    requires IsWide(src) && s < |src|
    ensures cp == -1 ==> Parse16(src, s) == Parsed([], true)
    ensures cp != -1 ==> 0 < cp && s <= last < |src| && Parse16(src, s) == Cons(Encode8(cp), Parse16(src, last + 1))
  {
    cp, last := src[s], s;
    if cp >= 0xd800 && cp <= 0xdfff {
      cp := (cp - 0xd800) * 1024;
      last := s + 1;
      if Read(src, last) == 0 || Read(src, last) < 0xdc00 || Read(src, last) > 0xdfff {
        return -1, last;
      }
      cp := cp + (Read(src, last) - 0xdc00);
      cp := cp + 0x10000;
    }
  }

  /** utf16_to_utf8 with a destination. */
  method Utf16ToUtf8(dst: array<int>, src: seq<int>, maxChars: nat) returns (r: int, written: nat)
    requires IsWide(src)
    modifies dst
    ensures Outcome(Parse16(src, 0), maxChars, r, written, dst[..], old(dst[..]))
  {
    hide Encode8, Parse16, Passed, Shows, ShowsString, Flat, Count, Fit, Outcome, Budget;
    ghost var p := Parse16(src, 0);
    ghost var l, budget := p.chunks, Budget(p, maxChars);
    ghost var was, done := dst[..], 0;
    var s: nat, d: nat, chars: nat := 0, 0, 0;
    PassedNone(l, dst.Length, budget);
    ShowsNone(was);
    while dst.Length > 0 && Read(src, s) != 0 && (maxChars == 0 || chars < maxChars)
      invariant Passed(l, done, dst.Length, budget, d, chars) && done <= |l| && (d < dst.Length || dst.Length == d == 0)
      invariant s <= |src| && Parsed(l[done..], p.bad) == Parse16(src, s)
      invariant Shows(dst[..], was, Flat(l[..done]))
      decreases |src| - s
    {
      ghost var pre := dst[..];
      var cp, last := ReadUtf16(src, s);
      if cp == -1 {
        OutcomeMalformed(p, maxChars, done, d, chars, dst[..], was);
        return -1, 0;
      }
      assert done < |l| && l[done] == l[done..][0] == Encode8(cp) && l[done + 1..] == l[done..][1..];
      var end := PutUtf8(dst, d, cp);
      EncodeCounts(cp);
      PassedFacts(l, p, maxChars, done, dst.Length, d, chars);
      if end == d {
        assert dst[..] == pre;
        break;
      }
      PassedNext(l, done, dst.Length, budget, d, chars);
      ShowsMore(pre, dst[..], was, Flat(l[..done]), l[done]);
      done, chars, d := done + 1, chars + 1, end;
      if d >= dst.Length {
        break;
      }
      s := last + 1;
    }
    PassedFacts(l, p, maxChars, done, dst.Length, d, chars);
    Terminate(dst, d, was, Flat(l[..done]));
    ParseEnd(src);
    OutcomeWritten(p, maxChars, done, d, chars, dst[..], was);
    return d, chars;
  }

  lemma EncodeCounts(cp: int)
    ensures Counts(Encode8(cp)) == 1 && 1 <= |Encode8(cp)|
  {
  }

  lemma ParseEnd(src: seq<int>)
    ensures Parse16(src, |src|) == Parse8(src, |src|) == Parsed([], false)
  {
  }

  // ----- UTF-8 to UTF-16

  /** One step of utf8_to_utf16's source. A stray byte writes nothing. */
  datatype Char8 = Malformed | Stray | Single(unit: int) | Four(cp: int)

  function ChunkOf(c: Char8): Chunk
    requires !c.Malformed?
  {
    match c
    case Stray => [Keep]
    case Single(v) => [Put(v)]
    case Four(cp) => Units4(cp)
  }

  lemma ChunkCounts(c: Char8)
    requires !c.Malformed?
    ensures Counts(ChunkOf(c)) == (if c.Stray? then 0 else 1) && 1 <= |ChunkOf(c)|
  {
  }

  method ReadUtf8(src: seq<int>, s: nat) returns (c: Char8, last: nat)
    requires IsBytes(src) && s < |src|
    ensures c.Malformed? ==> Parse8(src, s) == Parsed([], true)
    ensures !c.Malformed? ==> s <= last < |src| && Parse8(src, s) == Cons(ChunkOf(c), Parse8(src, last + 1))
  {
    last := s;
    var b := src[s];
    if b <= 0x7f {
      c := Single(b);
    } else if b / 32 == 0x6 {
      var first := b % 32 * 64;
      last := last + 1;
      if Read(src, last) / 64 != 0x2 {
        return Malformed, last;
      }
      c := Single(first + Read(src, last) % 64);
    } else if b / 16 == 0xe {
      var first := b % 16 * 4096;
      last := last + 1;
      if Read(src, last) / 64 != 0x2 {
        return Malformed, last;
      }
      first := first + Read(src, last) % 64 * 64;
      last := last + 1;
      if Read(src, last) / 64 != 0x2 {
        return Malformed, last;
      }
      c := Single(first + Read(src, last) % 64);
    } else if b / 8 == 0x1e {
      var cp := b % 8 * 262144;
      last := last + 1;
      if Read(src, last) / 64 != 0x2 {
        return Malformed, last;
      }
      cp := cp + Read(src, last) % 64 * 4096;
      last := last + 1;
      if Read(src, last) / 64 != 0x2 {
        return Malformed, last;
      }
      cp := cp + Read(src, last) % 64 * 64;
      last := last + 1;
      if Read(src, last) / 64 != 0x2 {
        return Malformed, last;
      }
      cp := cp + Read(src, last) % 64;
      if cp > 0x10ffff {
        return Malformed, last;
      }
      c := Four(cp);
    } else if b / 4 == 0x3e {
      c := Malformed;
    } else if b / 2 == 0x7e {
      c := Malformed;
    } else {
      c := Stray;
    }
  }

  /** The branches of utf8_to_utf16 that write. */
  method PutUtf16(dst: array<int>, d: nat, c: Char8) returns (end: nat)
    requires d < dst.Length && !c.Malformed?
    modifies dst
    ensures end == if dst.Length < d + |ChunkOf(c)| then d else d + |ChunkOf(c)|
    ensures forall j :: 0 <= j < end - d ==> dst[d + j] == Show(ChunkOf(c)[j], old(dst[d + j]))
    ensures forall j :: 0 <= j < dst.Length && !(d <= j < end) ==> dst[j] == old(dst[j])
  {
    end := d;
    match c {
      case Stray =>
      case Single(v) =>
        dst[end] := v;
      case Four(cp) =>
        if d + 1 >= dst.Length {
          return;
        }
        var v := (cp - 0x10000) % 0x1_0000_0000;
        dst[end] := (v / 1024 + 0xd800) % 0x10000;
        end := end + 1;
        dst[end] := v % 1024 + 0xdc00;
    }
    end := end + 1;
  }

  /** utf8_to_utf16 */
  method Utf8ToUtf16(dst: array<int>, src: seq<int>, maxChars: nat) returns (r: int, written: nat)
    requires IsBytes(src)
    modifies dst
    ensures Outcome(Parse8(src, 0), maxChars, r, written, dst[..], old(dst[..]))
  {
    hide ChunkOf, Units4, Show, Counts, Parse8, Passed, Shows, ShowsString, Flat, Count, Fit, Outcome, Budget;
    ghost var p := Parse8(src, 0);
    ghost var l, budget := p.chunks, Budget(p, maxChars);
    ghost var was, done := dst[..], 0;
    var s: nat, d: nat, chars: nat := 0, 0, 0;
    PassedNone(l, dst.Length, budget);
    ShowsNone(was);
    while dst.Length > 0 && Read(src, s) != 0 && (maxChars == 0 || chars < maxChars)
      invariant Passed(l, done, dst.Length, budget, d, chars) && done <= |l| && (d < dst.Length || dst.Length == d == 0)
      invariant s <= |src| && Parsed(l[done..], p.bad) == Parse8(src, s)
      invariant Shows(dst[..], was, Flat(l[..done]))
      decreases |src| - s
    {
      ghost var pre := dst[..];
      var c, last := ReadUtf8(src, s);
      if c.Malformed? {
        OutcomeMalformed(p, maxChars, done, d, chars, dst[..], was);
        return -1, 0;
      }
      assert done < |l| && l[done] == l[done..][0] == ChunkOf(c) && l[done + 1..] == l[done..][1..];
      PassedFacts(l, p, maxChars, done, dst.Length, d, chars);
      ShowsRest(pre, was, Flat(l[..done]));
      var end := PutUtf16(dst, d, c);
      ChunkCounts(c);
      if end == d {
        assert dst[..] == pre;
        break;
      }
      PassedNext(l, done, dst.Length, budget, d, chars);
      ShowsMore(pre, dst[..], was, Flat(l[..done]), l[done]);
      if !c.Stray? {
        chars := chars + 1;
      }
      done, d := done + 1, end;
      if d >= dst.Length {
        break;
      }
      s := last + 1;
    }
    PassedFacts(l, p, maxChars, done, dst.Length, d, chars);
    Terminate(dst, d, was, Flat(l[..done]));
    ParseEnd(src);
    OutcomeWritten(p, maxChars, done, d, chars, dst[..], was);
    return d, chars;
  }
}
