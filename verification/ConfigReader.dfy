/**
  read_config_file's buffer: each fill, shift and cut of a line.
 */
module ConfigReader {
  import opened ConfigLines
  import opened Options

  /** A file without NULs. */
  predicate IsText(f: string) {
    forall i :: 0 <= i < |f| ==> f[i] != '\0'
  }

  /** `buf` holds the file from offset `p` on, as far as it reaches, from index `i` on untouched. */
  ghost predicate Holds(buf: seq<char>, f: string, p: nat, i: nat, n: nat) {
    && i <= n < |buf| && p + n <= |f|
    && (forall j :: i <= j < n ==> buf[j] == f[p + j])
    && buf[n] == '\0'
  }

  /** os_read, which reads as much as there is. */
  method OsRead(buf: array<char>, at: nat, want: nat, f: string, pos: nat) returns (got: nat)
    requires at + want <= buf.Length && pos <= |f|
    modifies buf
    ensures got == Min(want, |f| - pos)
    ensures forall j :: 0 <= j < at ==> buf[j] == old(buf[j])
    ensures forall j :: at <= j < at + got ==> buf[j] == f[pos + (j - at)]
  {
    got := Min(want, |f| - pos);
    forall j | at <= j < at + got {
      buf[j] := f[pos + j - at];
    }
  }

  /** strchr(buf + from, '\n'), or -1. */
  method StrChr(buf: array<char>, from: nat, ghost f: string, ghost p: nat, ghost n: nat) returns (k: int)
    requires Holds(buf[..], f, p, from, n) && IsText(f)
    ensures var m := NextNewline(f, p + from, p + n); k == if m < p + n then m - p else -1
  {
    k := from;
    while buf[k] != '\0' && buf[k] != '\n'
      invariant from <= k <= n
      invariant forall j :: p + from <= j < p + k ==> f[j] != '\n'
      decreases n - k
    {
      assert k < n && buf[..][k] == f[p + k];
      k := k + 1;
    }
    assert k < n ==> buf[..][k] == f[p + k];
    NextNewlineIs(f, p + from, p + n, p + k);
    if buf[k] == '\0' {
      k := -1;
    }
  }

  /** The C string at buf + from, which ends at `n` at the latest. */
  method CString(buf: array<char>, from: nat, ghost n: nat) returns (s: string)
    requires from <= n < buf.Length && buf[n] == '\0' && forall j :: from <= j < n ==> buf[j] != '\0'
    ensures s == buf[from..n]
  {
    var k := from;
    s := "";
    while buf[k] != '\0'
      invariant from <= k <= n && s == buf[from..k]
      decreases n - k
    {
      s := s + [buf[k]];
      k := k + 1;
    }
  }

  /** Start over with a full buffer from file position `pos`. */
  method Refill(buf: array<char>, f: string, pos: nat) returns (n: nat, newline: int)
    requires 1 < buf.Length && pos <= |f| && IsText(f)
    modifies buf
    ensures n == Min(buf.Length - 1, |f| - pos)
    ensures 0 < n ==> Holds(buf[..], f, pos, 0, n)
    ensures 0 < n ==> var m := NextNewline(f, pos, pos + n); newline == if m < pos + n then m - pos else -1
  {
    newline := -1;
    n := OsRead(buf, 0, buf.Length - 1, f, pos);
    if n == 0 {
      return;
    }
    buf[n] := '\0';
    newline := StrChr(buf, 0, f, pos, n);
  }

  /** memmove(buf, buf + from, len) */
  method MoveDown(buf: array<char>, from: nat, len: nat)
    requires from + len <= buf.Length
    modifies buf
    ensures forall j :: 0 <= j < len ==> buf[j] == old(buf[from + j])
  {
    forall j | 0 <= j < len {
      buf[j] := buf[from + j];
    }
  }

  /** Move the unfinished line at index `line` to the front and read on behind it. */
  method Shift(buf: array<char>, f: string, line: nat, bufread: nat, pos: nat, ghost p: nat)
      returns (n: nat, newline: int)
    requires Holds(buf[..], f, p, line, bufread) && 0 < line && pos == p + bufread && IsText(f)
    modifies buf
    ensures n == if pos == |f| then 0 else bufread - line + Min(line, |f| - pos)
    ensures 0 < n ==> Holds(buf[..], f, p + line, 0, n)
    ensures 0 < n ==> var m := NextNewline(f, p + line, p + line + n);
        newline == if m < p + line + n then m - (p + line) else -1
  {
    hide NextNewline, IsText, Holds;
    newline := -1;
    HoldsFacts(buf[..], f, p, line, bufread);
    var len := bufread - line;
    ghost var was := buf[..];
    MoveDown(buf, line, len);
    n := OsRead(buf, len, line, f, pos);
    if n == 0 {
      return;
    }
    n := n + len;
    buf[n] := '\0';
    Shifted(was, buf[..], f, p, line, bufread, n);
    newline := StrChr(buf, 0, f, p + line, n);
  }

  lemma HoldsFacts(buf: seq<char>, f: string, p: nat, i: nat, n: nat)
    requires Holds(buf, f, p, i, n)
    ensures i <= n < |buf| && p + n <= |f|
  {
  }

  lemma Shifted(was: seq<char>, buf: seq<char>, f: string, p: nat, line: nat, bufread: nat, n: nat)
    requires Holds(was, f, p, line, bufread) && bufread - line <= n < |buf| && p + line + n <= |f|
    requires forall j :: 0 <= j < bufread - line ==> buf[j] == was[line + j]
    requires forall j :: bufread - line <= j < n ==> buf[j] == f[p + line + j]
    requires buf[n] == '\0'
    ensures Holds(buf, f, p + line, 0, n)
  {
    forall j | 0 <= j < n ensures buf[j] == f[p + line + j] {
      if j < bufread - line {
        assert buf[j] == was[line + j];
      }
    }
  }

  /** End the string at index `line` at `end`, less a carriage return just before; `t` is what it
      held, up to `stop`. */
  method EndString(buf: array<char>, line: nat, end: nat, ghost stop: nat, ghost t: string) returns (s: string)
    requires line <= stop <= end < buf.Length && |t| == stop - line && IsText(t)
    requires (forall j :: line <= j < stop ==> buf[j] == t[j - line]) && (stop < end ==> buf[stop] == '\0')
    modifies buf
    ensures s == if stop == end then Chomp(t) else t
    ensures forall j :: end < j < buf.Length ==> buf[j] == old(buf[j])
  {
    buf[end] := '\0';
    ghost var k := stop;
    if end > line && buf[end - 1] == '\r' {
      if stop == end {
        k := stop - 1;
      }
      buf[end - 1] := '\0';
    }
    s := CString(buf, line, k);
    assert s == t[..k - line];
  }

  /** Terminate the line that starts at index `line` and ends at `newline`, or, with no newline,
      with the buffer. */
  method CutLine(buf: array<char>, line: nat, newline: int, ghost f: string, ghost p: nat, ghost n: nat)
      returns (s: string, end: nat)
    requires 1 < buf.Length && Holds(buf[..], f, p, line, n) && IsText(f) && 0 < n
    requires newline == -1 ==> line == 0
    requires newline != -1 ==> line <= newline < n
    modifies buf
    ensures newline != -1 ==> end == newline && s == Chomp(f[p + line..p + end]) && Holds(buf[..], f, p, end + 1, n)
    ensures newline == -1 ==> end == buf.Length - 1 && s == if n == end then Chomp(f[p..p + n]) else f[p..p + n]
  {
    assert forall j :: line <= j < n ==> buf[..][j] == buf[j];
    end := if newline == -1 then buf.Length - 1 else newline;
    ghost var stop := if newline == -1 then n else newline;
    if newline == -1 {
      buf[buf.Length - 1] := '\0';
    }
    s := EndString(buf, line, end, stop, f[p + line..p + stop]);
  }

  // ----- the lines one by one

  /** read_config_file's locals: the last newline in the buffer (-1 for NULL), the characters in the
      buffer, and the position in the file. */
  datatype Cursor = Cursor(newline: int, bufread: nat, pos: nat)

  /** The file offsets of the start of the buffer and of the next line. */
  datatype Place = Place(buffer: nat, line: nat)
  {
    ghost predicate Inside(f: string, b: nat) {
      0 < b && buffer <= line <= Min(buffer + b, |f|)
    }
  }

  ghost predicate Ready(buf: seq<char>, f: string, r: Cursor, at: Place) {
    && 1 < |buf| && at.Inside(f, |buf| - 1) && r.pos <= |f|
    && if r.newline == -1 || r.newline == |buf| - 1 then at.buffer == at.line == r.pos
       else
         && 0 <= r.newline < r.bufread && at.line == at.buffer + r.newline + 1
         && r.pos == at.buffer + r.bufread == Min(at.buffer + |buf| - 1, |f|)
         && Holds(buf, f, at.buffer, r.newline + 1, r.bufread)
  }

  lemma ReadyFirst(buf: seq<char>, f: string)
    requires 1 < |buf|
    ensures Ready(buf, f, Cursor(-1, 0, 0), Place(0, 0))
  {
  }

  /** No newline before the end of the buffer: the line is moved to its front, or the file is over. */
  lemma RawShift(f: string, b: nat, p: nat, q: nat)
    requires 0 < b && p < q <= Min(p + b, |f|) && NextNewline(f, q, Min(p + b, |f|)) == Min(p + b, |f|)
    ensures Raw(f, b, p, q) == if |f| <= p + b then [] else Raw(f, b, q, q)
  {
  }

  /** The next line is the one up to the newline, or all the buffer holds. */
  lemma RawCut(f: string, b: nat, p: nat, q: nat)
    requires 0 < b && p <= q <= Min(p + b, |f|)
    ensures var e := Min(p + b, |f|);
      var n := NextNewline(f, q, e);
      && (n < e ==> Raw(f, b, p, q) == [Chomp(f[q..n])] + Raw(f, b, p, n + 1))
      && (n == e && p == q < e ==>
           Raw(f, b, p, q) == [if e - q == b then Chomp(f[q..e]) else f[q..e]] + Raw(f, b, e, e))
  {
  }

  /** Make the buffer hold the next line, or as much of it as it can. */
  method FindLine(buf: array<char>, f: string, r: Cursor, ghost at: Place)
      returns (more: bool, line: nat, r': Cursor, ghost at': Place)
    requires IsText(f) && Ready(buf[..], f, r, at)
    modifies buf
    ensures !more ==> Raw(f, buf.Length - 1, at.buffer, at.line) == []
    ensures more ==>
              && at'.line == at.line && at'.Inside(f, buf.Length - 1) && at'.line == at'.buffer + line && 0 < r'.bufread
              && Raw(f, buf.Length - 1, at.buffer, at.line) == Raw(f, buf.Length - 1, at'.buffer, at'.line)
              && r'.pos == at'.buffer + r'.bufread == Min(at'.buffer + buf.Length - 1, |f|)
              && Holds(buf[..], f, at'.buffer, line, r'.bufread)
              && var n := NextNewline(f, at'.line, r'.pos);
              (n < r'.pos ==> r'.newline == n - at'.buffer) && (n == r'.pos ==> r'.newline == -1 && line == 0)
  {
    hide Raw, Holds, NextNewline, Chomp;
    more, line, r', at' := true, 0, r, at;
    if r.newline == -1 || r.newline == buf.Length - 1 {
      var n, newline := Refill(buf, f, r.pos);
      if n == 0 {
        RawEnd(f, buf.Length - 1);
        more := false;
      }
      r' := Cursor(newline, n, r.pos + n);
    } else {
      line := r.newline + 1;
      var newline := StrChr(buf, line, f, at.buffer, r.bufread);
      r' := r.(newline := newline);
      if newline == -1 {
        RawShift(f, buf.Length - 1, at.buffer, at.line);
        var n;
        n, newline := Shift(buf, f, line, r.bufread, r.pos, at.buffer);
        if n == 0 {
          more := false;
          return;
        }
        r', at', line := Cursor(newline, n, r.pos + (n - (r.bufread - line))), Place(at.line, at.line), 0;
      }
    }
  }

  /** One turn of read_config_file's loop, up to the line it has found. */
  method NextLine(buf: array<char>, f: string, r: Cursor, ghost at: Place)
      returns (more: bool, s: string, r': Cursor, ghost at': Place)
    requires IsText(f) && Ready(buf[..], f, r, at)
    modifies buf
    ensures !more ==> Raw(f, buf.Length - 1, at.buffer, at.line) == []
    ensures more ==>
              && Ready(buf[..], f, r', at') && at'.Inside(f, buf.Length - 1) && at.line < at'.line
              && Raw(f, buf.Length - 1, at.buffer, at.line) == [s] + Raw(f, buf.Length - 1, at'.buffer, at'.line)
  {
    hide Raw, Holds, NextNewline, Chomp;
    s := "";
    var line;
    more, line, r', at' := FindLine(buf, f, r, at);
    if more {
      RawCut(f, buf.Length - 1, at'.buffer, at'.line);
      var end;
      s, end := CutLine(buf, line, r'.newline, f, at'.buffer, r'.bufread);
      r' := r'.(newline := end);
      at' := if end == buf.Length - 1 then Place(r'.pos, r'.pos) else Place(at'.buffer, at'.buffer + end + 1);
    }
  }
}
