/**
  What the two conversions promise together.
 */
module UtfRoundTrip {
  import opened Transcode
  import opened Utf

  /** The characters utf16_to_utf8 reads, up to the first malformed one. */
  function Points(src: seq<int>, i: nat): seq<int>
    decreases |src| - i
  {
    if i >= |src| then []
    else if !IsSurrogate(src[i]) then [src[i]] + Points(src, i + 1)
    else if i + 1 < |src| && IsLow(src[i + 1]) then [PairValue(src[i], src[i + 1])] + Points(src, i + 2)
    else []
  }

  /** Well-formed UTF-16 (section 2.2 of RFC 2781): every surrogate is half of a high-low pair. */
  predicate WellFormed(src: seq<int>, i: nat)
    decreases |src| - i
  {
    if i >= |src| then true
    else if !IsSurrogate(src[i]) then WellFormed(src, i + 1)
    else !IsLow(src[i]) && i + 1 < |src| && IsLow(src[i + 1]) && WellFormed(src, i + 2)
  }

  /** What Points can yield: a low surrogate taken for a high one gives values above U+10FFFF. */
  predicate IsPoint(cp: int) {
    0 < cp < 0x210000 && !IsSurrogate(cp)
  }

  predicate ArePoints(cps: seq<int>) {
    forall i :: 0 <= i < |cps| ==> IsPoint(cps[i])
  }

  predicate AreScalars(cps: seq<int>) {
    forall i :: 0 <= i < |cps| ==> IsScalar(cps[i])
  }

  lemma {:induction false} ParsePoints(src: seq<int>, i: nat)
    requires IsWide(src)
    ensures Parse16(src, i).chunks == Chunks8(Points(src, i)) && ArePoints(Points(src, i))
    ensures |Points(src, i)| <= if i <= |src| then |src| - i else 0
    decreases |src| - i
  {
    if i < |src| {
      if !IsSurrogate(src[i]) {
        ParsePoints(src, i + 1);
      } else if i + 1 < |src| && IsLow(src[i + 1]) {
        ParsePoints(src, i + 2);
      }
    }
  }

  /** Well-formed is: nothing malformed is met and no pair starts with a low surrogate. */
  lemma {:induction false} WellFormedPoints(src: seq<int>, i: nat)
    requires IsWide(src)
    ensures WellFormed(src, i) <==> !Parse16(src, i).bad && AreScalars(Points(src, i))
    decreases |src| - i
  {
    ParsePoints(src, i);
    if i < |src| {
      var p := Points(src, i);
      if !IsSurrogate(src[i]) {
        WellFormedPoints(src, i + 1);
        assert p == [src[i]] + Points(src, i + 1);
        assert AreScalars(p) <==> AreScalars(Points(src, i + 1)) by {
          ScalarsCons(src[i], Points(src, i + 1));
        }
      } else if i + 1 < |src| && IsLow(src[i + 1]) {
        WellFormedPoints(src, i + 2);
        ScalarsCons(PairValue(src[i], src[i + 1]), Points(src, i + 2));
      }
    }
  }

  lemma ScalarsCons(cp: int, cps: seq<int>)
    ensures AreScalars([cp] + cps) <==> IsScalar(cp) && AreScalars(cps)
  {
    var l := [cp] + cps;
    if AreScalars(l) {
      assert l[0] == cp;
      forall i | 0 <= i < |cps| ensures IsScalar(cps[i]) {
        assert l[i + 1] == cps[i];
      }
    }
  }

  /** Encoding the characters of a well-formed source gives it back. */
  lemma {:induction false} EncodeBack(src: seq<int>, i: nat)
    requires IsWide(src) && i <= |src| && WellFormed(src, i)
    ensures Utf16Of(Points(src, i)) == src[i..]
    decreases |src| - i
  {
    if i < |src| {
      if !IsSurrogate(src[i]) {
        EncodeBack(src, i + 1);
        assert Values(Encode16(src[i])) == [src[i]];
        assert src[i..] == [src[i]] + src[i + 1..];
      } else {
        EncodeBack(src, i + 2);
        var cp := PairValue(src[i], src[i + 1]);
        assert Values(Encode16(cp)) == [src[i], src[i + 1]];
        assert src[i..] == [src[i], src[i + 1]] + src[i + 2..];
      }
    }
  }

  /** Conversely an encoded string is well-formed and read back character by character. */
  lemma {:induction false} EncodedReads(pre: seq<int>, cps: seq<int>)
    requires AreScalars(cps)
    ensures WellFormed(pre + Utf16Of(cps), |pre|) && Points(pre + Utf16Of(cps), |pre|) == cps
    decreases |cps|
  {
    var src := pre + Utf16Of(cps);
    if cps != [] {
      var v := Values(Encode16(cps[0]));
      assert src == (pre + v) + Utf16Of(cps[1..]);
      assert AreScalars(cps[1..]) by {
        ScalarsCons(cps[0], cps[1..]);
        assert cps == [cps[0]] + cps[1..];
      }
      EncodedReads(pre + v, cps[1..]);
      assert src[|pre|] == v[0] && (|v| == 2 ==> src[|pre| + 1] == v[1]);
    }
  }

  // ----- the bytes

  lemma EncodeBytes(cp: int)
    requires IsPoint(cp)
    ensures IsBytes(Values(Encode8(cp))) && 1 <= |Encode8(cp)| <= 4 && Counts(Encode8(cp)) == 1
    ensures forall i :: 0 <= i < |Encode8(cp)| ==> Encode8(cp)[i].Put?
  {
  }

  lemma {:induction false} FlatBytes(cps: seq<int>)
    requires ArePoints(cps)
    ensures Values(Flat(Chunks8(cps))) == Utf8Of(cps) && |Utf8Of(cps)| == |Flat(Chunks8(cps))| <= 4 * |cps|
    ensures |Chunks8(cps)| == |cps| && Count(Chunks8(cps)) == |cps|
    ensures IsBytes(Utf8Of(cps))
    ensures forall i :: 0 <= i < |Chunks8(cps)| ==> Chunks8(cps)[i] != []
    ensures forall i :: 0 <= i < |Flat(Chunks8(cps))| ==> Flat(Chunks8(cps))[i].Put?
  {
    hide Encode8, IsPoint, Counts, Show;
    if cps != [] {
      var c, r := Encode8(cps[0]), Chunks8(cps[1..]);
      FlatBytes(cps[1..]);
      assert Values(c + Flat(r)) == Values(c) + Values(Flat(r));
      EncodeBytes(cps[0]);
    }
  }

  lemma {:induction false} FlatUnits(cps: seq<int>)
    ensures Values(Flat(Chunks16(cps))) == Utf16Of(cps) && |Utf16Of(cps)| == |Flat(Chunks16(cps))| <= 2 * |cps|
    ensures |Chunks16(cps)| == |cps| && Count(Chunks16(cps)) == |cps|
    ensures forall i :: 0 <= i < |Chunks16(cps)| ==> Chunks16(cps)[i] != []
    ensures forall i :: 0 <= i < |Flat(Chunks16(cps))| ==> Flat(Chunks16(cps))[i].Put?
  {
    if cps != [] {
      var c, r := Encode16(cps[0]), Chunks16(cps[1..]);
      FlatUnits(cps[1..]);
      assert Values(c + Flat(r)) == Values(c) + Values(Flat(r));
    }
  }

  lemma Two(cp: int, a: int, b: int)
    requires 0x7f < cp <= 0x7ff && a == 0xc0 + cp / 64 && b == 0x80 + cp % 64
    ensures 0x7f < a && a / 32 == 0x6 && b / 64 == 2 && a % 32 * 64 + b % 64 == cp
  {
  }

  lemma Three(cp: int, a: int, b: int, c: int)
    requires 0x7ff < cp <= 0xffff && a == 0xe0 + cp / 4096 && b == 0x80 + cp / 64 % 64 && c == 0x80 + cp % 64
    ensures 0x7f < a && a / 32 != 0x6 && a / 16 == 0xe && b / 64 == 2 && c / 64 == 2
    ensures a % 16 * 4096 + b % 64 * 64 + c % 64 == cp
  {
    assert cp == cp / 4096 * 4096 + cp / 64 % 64 * 64 + cp % 64;
    assert a % 16 == cp / 4096;
  }

  lemma Four(cp: int, a: int, b: int, c: int, d: int)
    requires 0xffff < cp < 0x210000 && a == 0xf0 + cp / 262144
    requires b == 0x80 + cp / 4096 % 64 && c == 0x80 + cp / 64 % 64 && d == 0x80 + cp % 64
    ensures 0x7f < a && a / 32 != 0x6 && a / 16 != 0xe && b / 64 == 2 && c / 64 == 2 && d / 64 == 2
    ensures cp <= 0x1fffff ==> a / 8 == 0x1e && Value4(a, b, c, d) == cp
    ensures cp > 0x1fffff ==> a / 8 != 0x1e && a / 4 == 0x3e
  {
    hide Value4;
    var q, x, y, z := cp / 262144, cp / 4096 % 64, cp / 64 % 64, cp % 64;
    Digits(cp);
    FourDigits(q, x, y, z);
  }

  lemma SameUnits(cp: int)
    requires 0xffff < cp <= 0x10ffff
    ensures Units4(cp) == Encode16(cp)
  {
  }

  lemma Digits(cp: nat)
    ensures cp == cp / 262144 * 262144 + cp / 4096 % 64 * 4096 + cp / 64 % 64 * 64 + cp % 64
  {
    assert cp / 4096 == cp / 64 / 64 && cp / 262144 == cp / 64 / 64 / 64;
  }

  lemma FourDigits(q: int, x: int, y: int, z: int)
    requires 0 <= q <= 8 && 0 <= x < 64 && 0 <= y < 64 && 0 <= z < 64
    ensures (0x80 + x) / 64 == 2 && (0x80 + y) / 64 == 2 && (0x80 + z) / 64 == 2
    ensures q < 8 ==> Value4(0xf0 + q, 0x80 + x, 0x80 + y, 0x80 + z) == q * 262144 + x * 4096 + y * 64 + z
  {
  }

  lemma PointScalar(cp: int)
    requires IsPoint(cp)
    ensures IsScalar(cp) <==> cp <= 0x10ffff
  {
  }

  /** One encoded character is read back as its units. */
  lemma ReadBack(src: seq<int>, i: nat, cp: int)
    requires IsPoint(cp)
    requires i + |Encode8(cp)| <= |src| && forall j :: 0 <= j < |Encode8(cp)| ==> Encode8(cp)[j] == Put(src[i + j])
    ensures cp <= 0x10ffff ==> Parse8(src, i) == Cons(Encode16(cp), Parse8(src, i + |Encode8(cp)|))
    ensures cp > 0x10ffff ==> Parse8(src, i) == Parsed([], true)
  {
    var e := Encode8(cp);
    assert e[0] == Put(src[i + 0]);
    if cp <= 0x7f {
    } else if cp <= 0x7ff {
      assert e[1] == Put(src[i + 1]);
      Two(cp, src[i], src[i + 1]);
    } else if cp <= 0xffff {
      assert e[1] == Put(src[i + 1]) && e[2] == Put(src[i + 2]);
      Three(cp, src[i], src[i + 1], src[i + 2]);
    } else {
      assert e[1] == Put(src[i + 1]) && e[2] == Put(src[i + 2]) && e[3] == Put(src[i + 3]);
      Four(cp, src[i], src[i + 1], src[i + 2], src[i + 3]);
      if cp <= 0x10ffff {
        SameUnits(cp);
      }
    }
  }

  lemma {:induction false} BytesRead(pre: seq<int>, cps: seq<int>)
    requires ArePoints(cps)
    ensures AreScalars(cps) ==> Parse8(pre + Utf8Of(cps), |pre|) == Parsed(Chunks16(cps), false)
    ensures !AreScalars(cps) ==> Parse8(pre + Utf8Of(cps), |pre|).bad
    decreases |cps|
  {
    hide Parse8, Encode16, IsPoint, IsScalar;
    if cps != [] {
      var v, src := Values(Encode8(cps[0])), pre + Utf8Of(cps);
      assert src == (pre + v) + Utf8Of(cps[1..]);
      forall j | 0 <= j < |v| ensures Encode8(cps[0])[j] == Put(src[|pre| + j]) {
        assert src[|pre| + j] == v[j];
      }
      PointScalar(cps[0]);
      ReadBack(src, |pre|, cps[0]);
      BytesRead(pre + v, cps[1..]);
      ScalarsCons(cps[0], cps[1..]);
      assert cps == [cps[0]] + cps[1..];
    } else {
      assert pre + Utf8Of(cps) == pre;
      ParseEnd(pre);
    }
  }

  lemma Shown(dst: seq<int>, was: seq<int>, cells: seq<Cell>)
    requires ShowsString(dst, was, cells) && forall i :: 0 <= i < |cells| ==> cells[i].Put?
    ensures dst[..|cells|] == Values(cells)
  {
  }

  /** To UTF-8 and back: exactly the well-formed strings survive, and they survive unchanged. */
  method RoundTrip(src: seq<int>) returns (ok: bool, back: seq<int>)
    requires IsWide(src)
    ensures ok <==> WellFormed(src, 0)
    ensures ok ==> back == src
  {
    hide Parse16, Parse8, Outcome, ShowsString, WellFormed, Flat, Count, AreScalars, ArePoints;
    ghost var cps := Points(src, 0);
    ParsePoints(src, 0);
    WellFormedPoints(src, 0);
    FlatBytes(cps);
    back := [];
    var buf := new int[4 * |src| + 1];
    ghost var was := buf[..];
    var r, written := Utf16ToUtf8(buf, src, 0);
    OutcomeAll(Parse16(src, 0), r, written, buf[..], was);
    if r == -1 {
      return false, back;
    }
    Shown(buf[..], was, Flat(Chunks8(cps)));
    var bytes := buf[..r];
    assert buf[..][..r] == bytes == Utf8Of(cps);
    ok, back := FromUtf8(bytes, cps);
    if ok {
      EncodeBack(src, 0);
    }
  }

  method FromUtf8(bytes: seq<int>, ghost cps: seq<int>) returns (ok: bool, back: seq<int>)
    requires ArePoints(cps) && IsBytes(bytes) && bytes == Utf8Of(cps)
    ensures ok <==> AreScalars(cps)
    ensures ok ==> back == Utf16Of(cps)
  {
    hide Parse8, Outcome, ShowsString, Flat, Count, AreScalars, ArePoints;
    BytesRead([], cps);
    assert [] + bytes == bytes;
    ParseSmall(bytes, 0);
    FlatUnits(cps);
    var buf := new int[2 * |bytes| + 1];
    ghost var was := buf[..];
    var r, written := Utf8ToUtf16(buf, bytes, 0);
    OutcomeAll(Parse8(bytes, 0), r, written, buf[..], was);
    if r == -1 {
      return false, [];
    }
    Shown(buf[..], was, Flat(Chunks16(cps)));
    ok, back := true, buf[..r];
    assert buf[..][..r] == back;
  }

  /** One step of the parse. */
  lemma ParseStep(src: seq<int>, i: nat) returns (n: nat, c: Chunk)
    requires Parse8(src, i).chunks != []
    ensures i < n <= |src| && 1 <= |c| <= 2 && Parse8(src, i).chunks == [c] + Parse8(src, n).chunks
  {
    c := Parse8(src, i).chunks[0];
    n := if src[i] <= 0x7f then i + 1 else if src[i] / 32 == 0x6 then i + 2 else if src[i] / 16 == 0xe then i + 3
         else if src[i] / 8 == 0x1e then i + 4 else i + 1;
  }

  lemma {:induction false} ParseSmall(src: seq<int>, i: nat)
    ensures |Flat(Parse8(src, i).chunks)| <= if i <= |src| then 2 * (|src| - i) else 0
    ensures forall j :: 0 <= j < |Parse8(src, i).chunks| ==> Parse8(src, i).chunks[j] != []
    decreases |src| - i
  {
    hide Parse8;
    if Parse8(src, i).chunks != [] {
      var n, c := ParseStep(src, i);
      ParseSmall(src, n);
      assert Parse8(src, i).chunks[1..] == Parse8(src, n).chunks;
    }
  }

  // ----- buffers that are too small

  lemma {:induction false} PrefixChunks(cps: seq<int>, k: nat)
    requires k <= |cps|
    ensures |Chunks8(cps)| == |cps| && Chunks8(cps)[..k] == Chunks8(cps[..k])
  {
    if cps != [] {
      PrefixChunks(cps[1..], if k == 0 then 0 else k - 1);
      if k > 0 {
        assert cps[..k][1..] == cps[1..][..k - 1];
      }
    }
  }

  /** Whatever the buffer, a well-formed string leaves the encoding of its longest prefix of whole
      characters that fits. */
  lemma SmallBuffer(src: seq<int>, maxChars: nat, r: int, written: nat, dst: seq<int>, was: seq<int>)
    requires IsWide(src) && WellFormed(src, 0) && Outcome(Parse16(src, 0), maxChars, r, written, dst, was)
    ensures var cps := Points(src, 0);
      && 0 <= r <= |dst| && written <= |cps| && dst[..r] == Utf8Of(cps[..written])
      && (written < |cps| ==> written == maxChars || |was| < |Utf8Of(cps[..written + 1])|)
  {
    hide Parse16, Encode8, IsScalar, IsPoint, WellFormed;
    var cps, p := Points(src, 0), Parse16(src, 0);
    ParsePoints(src, 0);
    WellFormedPoints(src, 0);
    FlatBytes(cps);
    var k := Fit(p.chunks, |was|, Budget(p, maxChars));
    FitLongest(p.chunks, |was|, Budget(p, maxChars));
    PrefixChunks(cps, k);
    FlatBytes(cps[..k]);
    Shown(dst, was, Flat(Chunks8(cps[..k])));
    if k < |cps| {
      PrefixChunks(cps, k + 1);
      FlatBytes(cps[..k + 1]);
    }
  }

  // ----- the size call

  datatype SizeResult = Size(bytes: nat, chars: nat) | OverRead

  /** Skipping two units for every surrogate, the walk comes to one that ends the string. */
  predicate LoneAtEnd(src: seq<int>, i: nat, budget: int)
    decreases |src| - i
  {
    && i < |src| && 0 < budget
    && if IsSurrogate(src[i]) then i + 1 == |src| || LoneAtEnd(src, i + 2, budget - 1)
         else LoneAtEnd(src, i + 1, budget - 1)
  }

  /** utf16_to_utf8 with a NULL destination (utf16_to_utf8_size): the bytes that encoding the
      characters takes. It checks no pair and, at a surrogate that ends the string, steps over the
      terminating NUL. */
  method Utf16ToUtf8Size(src: seq<int>, maxChars: nat) returns (r: SizeResult)
    requires IsWide(src)
    ensures r.OverRead? <==> LoneAtEnd(src, 0, if maxChars == 0 then |src| + 1 else maxChars)
    ensures var cps := Points(src, 0);
      var k := if maxChars == 0 || |cps| < maxChars then |cps| else maxChars;
      !Parse16(src, 0).bad ==> r == Size(|Utf8Of(cps[..k])|, k)
  {
    hide Utf8Of;
    ghost var cps, budget := Points(src, 0), if maxChars == 0 then |src| + 1 else maxChars;
    ghost var good := !Parse16(src, 0).bad;
    var s: nat, bytes: nat, chars: nat := 0, 0, 0;
    assert cps[..0] == [] && |Utf8Of([])| == 0 by {
      NoBytes();
    }
    while Read(src, s) != 0 && (maxChars == 0 || chars < maxChars)
      invariant s <= |src| && chars <= s && chars <= budget && (maxChars == 0 || chars <= maxChars)
      invariant LoneAtEnd(src, 0, budget) == LoneAtEnd(src, s, budget - chars)
      invariant good ==> !Parse16(src, s).bad && chars <= |cps| && Points(src, s) == cps[chars..]
      invariant good ==> bytes == |Utf8Of(cps[..chars])|
      decreases |src| - s
    {
      if good {
        assert cps[chars..] != [] && cps[chars] == cps[chars..][0];
        assert cps[chars + 1..] == cps[chars..][1..];
        BytesMore(cps, chars);
      }
      if src[s] <= 0x7f {
        bytes := bytes + 1;
      } else if src[s] <= 0x7ff {
        bytes := bytes + 2;
      } else if src[s] >= 0xd800 && src[s] <= 0xdfff {
        s := s + 1;
        bytes := bytes + 4;
        if s == |src| {
          return OverRead;
        }
      } else {
        bytes := bytes + 3;
      }
      chars := chars + 1;
      s := s + 1;
    }
    return Size(bytes, chars);
  }

  lemma NoBytes()
    ensures Utf8Of([]) == []
  {
  }

  lemma {:induction false} BytesMore(cps: seq<int>, k: nat)
    requires k < |cps|
    ensures |Utf8Of(cps[..k + 1])| == |Utf8Of(cps[..k])| + |Encode8(cps[k])|
  {
    if k > 0 {
      BytesMore(cps[1..], k - 1);
      assert cps[..k + 1][1..] == cps[1..][..k] && cps[..k][1..] == cps[1..][..k - 1];
    } else {
      assert cps[..1] == [cps[0]] && cps[..0] == [];
      assert Utf8Of([cps[0]]) == Values(Encode8(cps[0])) + Utf8Of([]);
    }
  }

  // ----- what utf8_to_utf16 accepts

  predicate Between(src: seq<int>, i: nat, lo: int, hi: int) {
    i < |src| && lo <= src[i] <= hi
  }

  /** Well-formed UTF-8 (section 4 of RFC 3629). */
  predicate WellFormed8(src: seq<int>, i: nat)
    decreases |src| - i
  {
    if i >= |src| then true
    else if src[i] <= 0x7f then WellFormed8(src, i + 1)
    else if src[i] <= 0xdf then 0xc2 <= src[i] && Between(src, i + 1, 0x80, 0xbf) && WellFormed8(src, i + 2)
    else if src[i] <= 0xef then
      && Between(src, i + 1, if src[i] == 0xe0 then 0xa0 else 0x80, if src[i] == 0xed then 0x9f else 0xbf)
      && Between(src, i + 2, 0x80, 0xbf) && WellFormed8(src, i + 3)
    else
      && src[i] <= 0xf4
      && Between(src, i + 1, if src[i] == 0xf0 then 0x90 else 0x80, if src[i] == 0xf4 then 0x8f else 0xbf)
      && Between(src, i + 2, 0x80, 0xbf) && Between(src, i + 3, 0x80, 0xbf) && WellFormed8(src, i + 4)
  }

  /** Malformed input the code takes: a stray byte, an overlong form or an encoded surrogate. */
  predicate Sloppy(src: seq<int>, i: nat)
    decreases |src| - i
  {
    && i < |src|
    && if src[i] <= 0x7f then Sloppy(src, i + 1)
       else if src[i] <= 0xbf || src[i] >= 0xfe then true
       else if src[i] <= 0xdf then src[i] <= 0xc1 || Sloppy(src, i + 2)
       else if src[i] <= 0xef then
         (src[i] == 0xe0 && Read(src, i + 1) < 0xa0) || (src[i] == 0xed && Read(src, i + 1) >= 0xa0)
           || Sloppy(src, i + 3)
       else (src[i] == 0xf0 && Read(src, i + 1) < 0x90) || Sloppy(src, i + 4)
  }

  /** The code refuses malformed UTF-8 but for those. */
  lemma {:induction false} AcceptsExactly(src: seq<int>, i: nat)
    requires IsBytes(src)
    ensures WellFormed8(src, i) <==> !Parse8(src, i).bad && !Sloppy(src, i)
    decreases |src| - i
  {
    if i < |src| {
      AcceptsExactly(src, i + 1);
      AcceptsExactly(src, i + 2);
      AcceptsExactly(src, i + 3);
      AcceptsExactly(src, i + 4);
    }
  }

  /** Each of the three is taken: a lone continuation byte, an overlong NUL, half of a pair. */
  lemma SloppyTaken()
    ensures Parse8([0x80], 0) == Parsed([[Keep]], false)
    ensures Parse8([0xc0, 0x80], 0) == Parsed([[Put(0)]], false)
    ensures Parse8([0xed, 0xa0, 0x80], 0) == Parsed([[Put(0xd800)]], false)
  {
    ParseEnd([0x80]);
    ParseEnd([0xc0, 0x80]);
    ParseEnd([0xed, 0xa0, 0x80]);
  }

  /** A low surrogate passes for a high one. */
  lemma LowPairTaken()
    ensures !Parse16([0xdc00, 0xdc00], 0).bad && !WellFormed([0xdc00, 0xdc00], 0)
  {
    ParseEnd([0xdc00, 0xdc00]);
  }
}
