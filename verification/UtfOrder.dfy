/**
  The encodings the conversions are specified by, against the standards that define them: the shape of
  the code units, and the order of the characters they keep.
 */
module UtfOrder {
  import opened Utf

  /** Lexicographic order. */
  ghost predicate Less(x: seq<int>, y: seq<int>) {
    exists i :: 0 <= i < |x| && i < |y| && x[i] < y[i] && x[..i] == y[..i]
  }

  /** Section 4 of RFC 3629, without the exclusion of overlong and surrogate forms: a leading byte that tells
      the length, and continuation bytes. */
  predicate Shape8(b: seq<int>) {
    && 1 <= |b| <= 4
    && (|b| == 1 ==> 0 <= b[0] <= 0x7f)
    && (|b| == 2 ==> 0xc2 <= b[0] <= 0xdf)
    && (|b| == 3 ==> 0xe0 <= b[0] <= 0xef)
    && (|b| == 4 ==> 0xf0 <= b[0] <= 0xf4)
    && forall i :: 1 <= i < |b| ==> 0x80 <= b[i] <= 0xbf
  }

  /** Numbers and their last digits in base 64. */
  lemma LastDigit(a: int, b: int)
    requires 0 <= a <= b
    ensures a / 64 <= b / 64 && (a < b && a / 64 == b / 64 ==> a % 64 < b % 64)
  {
  }

  lemma Shifted(a: int)
    requires 0 <= a
    ensures a / 64 / 64 == a / 4096 && a / 4096 / 64 == a / 262144
  {
  }

  lemma Shaped8(cp: int)
    requires 0 <= cp <= 0x10ffff
    ensures Shape8(Values(Encode8(cp)))
    ensures |Encode8(cp)| == if cp <= 0x7f then 1 else if cp <= 0x7ff then 2 else if cp <= 0xffff then 3 else 4
  {
  }

  /** UTF-8 keeps the order of code points, byte by byte (section 1 of RFC 3629). Together with the shape of
      the bytes this leaves no other encoding. */
  lemma Ordered8(a: int, b: int)
    requires 0 <= a < b <= 0x10ffff
    ensures Less(Values(Encode8(a)), Values(Encode8(b)))
  {
    Shaped8(a);
    Shaped8(b);
    var x, y := Values(Encode8(a)), Values(Encode8(b));
    if |x| == |y| {
      var i := FirstDiff8(a, b, x, y);
    } else {
      assert x[0] < y[0] && x[..0] == y[..0];
    }
  }

  /** The most significant base-64 digit in which two numbers differ. */
  lemma Digits4(a: int, b: int)
    requires 0 <= a < b
    ensures a / 262144 < b / 262144
         || (a / 262144 == b / 262144 && a / 4096 % 64 < b / 4096 % 64)
         || (a / 4096 == b / 4096 && a / 64 % 64 < b / 64 % 64)
         || (a / 64 == b / 64 && a % 64 < b % 64)
    ensures a / 64 == b / 64 ==> a / 4096 == b / 4096
    ensures a / 4096 == b / 4096 ==> a / 262144 == b / 262144
  {
    Shifted(a);
    Shifted(b);
    LastDigit(a, b);
    LastDigit(a / 64, b / 64);
    LastDigit(a / 4096, b / 4096);
  }

  lemma FirstDiff8(a: int, b: int, x: seq<int>, y: seq<int>) returns (i: int)
    requires 0 <= a < b <= 0x10ffff && x == Values(Encode8(a)) && y == Values(Encode8(b)) && |x| == |y|
    ensures 0 <= i < |x| && x[i] < y[i] && x[..i] == y[..i]
  {
    Digits4(a, b);
    if |x| == 1 {
      i := 0;
    } else if a / 64 == b / 64 {
      i := |x| - 1;
      SamePrefix(a, b, x, y, i);
    } else if a / 4096 == b / 4096 {
      i := |x| - 2;
      SamePrefix(a, b, x, y, i);
    } else if a / 262144 == b / 262144 {
      i := |x| - 3;
      SamePrefix(a, b, x, y, i);
    } else {
      i := 0;
    }
  }

  lemma SamePrefix(a: int, b: int, x: seq<int>, y: seq<int>, i: int)
    requires 0 <= a < b <= 0x10ffff && x == Values(Encode8(a)) && y == Values(Encode8(b)) && |x| == |y| && 0 <= i < |x|
    requires if i == |x| - 1 then a / 64 == b / 64 else if i == |x| - 2 then a / 4096 == b / 4096
             else i == |x| - 3 && a / 262144 == b / 262144
    ensures x[..i] == y[..i]
  {
    Digits4(a, b);
    forall j | 0 <= j < i ensures x[j] == y[j] {}
  }

  /** UTF-16 keeps the order of the characters that need two units; the first is a high surrogate and the
      second a low one (section 2.1 of RFC 2781). */
  lemma Ordered16(a: int, b: int)
    requires 0x10000 <= a < b <= 0x10ffff
    ensures Less(Values(Encode16(a)), Values(Encode16(b)))
    ensures var x := Values(Encode16(a)); |x| == 2 && 0xd800 <= x[0] <= 0xdbff && 0xdc00 <= x[1] <= 0xdfff
  {
    var x, y := Values(Encode16(a)), Values(Encode16(b));
    var i := if x[0] < y[0] then 0 else 1;
    assert x[i] < y[i] && x[..i] == y[..i];
  }
}
