/** The line loop of user/grep.c over its 1024-byte buffer. */
module Grep {
  import opened Regexp

  const BUFSIZE: nat := 1024

  ghost predicate NoNewline(s: string) {
    forall i | 0 <= i < |s| :: s[i] != '\n'
  }

  /** The place of the first newline, |s| if there is none. */
  function FirstNewline(s: string): (k: nat)
    ensures k <= |s| && NoNewline(s[..k]) && (k < |s| ==> s[k] == '\n')
  {
    if s == "" then 0 else if s[0] == '\n' then 0
    else
      var k := FirstNewline(s[1..]);
      assert s[..k + 1] == [s[0]] + s[1..][..k];
      k + 1
  }

  /** The reference: the newline-terminated lines with a match, in order. */
  ghost function MatchingLines(re: string, s: string): string
    decreases |s|
  {
    var k := FirstNewline(s);
    if k == |s| then ""
    else (if Means(re, s[..k]) then s[..k + 1] else "") + MatchingLines(re, s[k + 1..])
  }

  /** Where grep stops reading: at the first line that does not fit the buffer together with
      its newline and a NUL, or at the end. */
  ghost function Reach(s: string): (n: nat)
    ensures n <= |s|
    decreases |s|
  {
    var k := FirstNewline(s);
    if k == |s| || k + 1 > BUFSIZE - 1 then 0 else k + 1 + Reach(s[k + 1..])
  }

  /** Every newline-terminated line fits. */
  ghost predicate ShortLines(s: string)
    decreases |s|
  {
    var k := FirstNewline(s);
    k == |s| || (k + 1 <= BUFSIZE - 1 && ShortLines(s[k + 1..]))
  }

  /** Lines before a line boundary and lines behind it. */
  ghost predicate Boundary(s: string) {
    s == "" || s[|s| - 1] == '\n'
  }

  lemma FirstNewlineIs(s: string, k: nat)
    requires k <= |s| && NoNewline(s[..k]) && (k < |s| ==> s[k] == '\n')
    ensures FirstNewline(s) == k
  {
    var j := FirstNewline(s);
    assert forall i | 0 <= i < k :: s[i] != '\n' by {
      assert forall i | 0 <= i < k :: s[i] == s[..k][i];
    }
    assert forall i | 0 <= i < j :: s[i] != '\n' by {
      assert forall i | 0 <= i < j :: s[i] == s[..j][i];
    }
  }

  lemma HasNewline(s: string)
    requires s != "" && Boundary(s)
    ensures FirstNewline(s) < |s| && Boundary(s[FirstNewline(s) + 1..])
  {
    var k := FirstNewline(s);
    assert s[..|s|] == s;
    assert k + 1 < |s| ==> s[k + 1..][|s| - k - 2] == '\n';
  }

  lemma FirstLine(re: string, s: string)
    requires FirstNewline(s) < |s|
    ensures var k := FirstNewline(s);
            MatchingLines(re, s) == (if Means(re, s[..k]) then s[..k + 1] else "") + MatchingLines(re, s[k + 1..])
  {
  }

  lemma Associate(x: string, y: string, z: string)
    ensures x + (y + z) == (x + y) + z
  {
  }

  lemma FirstOfAppend(a: string, b: string)
    requires FirstNewline(a) < |a|
    ensures FirstNewline(a + b) == FirstNewline(a)
    ensures var k := FirstNewline(a);
            (a + b)[..k] == a[..k] && (a + b)[..k + 1] == a[..k + 1] && (a + b)[k + 1..] == a[k + 1..] + b
  {
    var k := FirstNewline(a);
    assert (a + b)[..k] == a[..k];
    assert (a + b)[k + 1..] == a[k + 1..] + b;
    FirstNewlineIs(a + b, k);
  }

  lemma {:induction false} LinesAppend(re: string, a: string, b: string)
    requires Boundary(a)
    ensures MatchingLines(re, a + b) == MatchingLines(re, a) + MatchingLines(re, b)
    decreases |a|
  {
    hide Means;
    if a == "" {
      assert a + b == b;
    } else {
      hide MatchingLines, FirstNewline, NoNewline, Boundary;
      var k, s := FirstNewline(a), a + b;
      HasNewline(a);
      FirstOfAppend(a, b);
      var rest := a[k + 1..];
      LinesAppend(re, rest, b);
      FirstLine(re, s);
      FirstLine(re, a);
      var line := if Means(re, a[..k]) then a[..k + 1] else "";
      var m, n := MatchingLines(re, rest), MatchingLines(re, b);
      Associate(line, m, n);
    }
  }

  /** One more line. */
  lemma LinesNext(re: string, a: string, line: string)
    requires Boundary(a) && NoNewline(line)
    ensures MatchingLines(re, a + (line + "\n")) == MatchingLines(re, a) + if Means(re, line) then line + "\n" else ""
    ensures Boundary(a + (line + "\n"))
  {
    var b := line + "\n";
    assert b[..|line|] == line;
    FirstNewlineIs(b, |line|);
    assert b[|line| + 1..] == "" && b[..|line| + 1] == b;
    LinesAppend(re, a, b);
  }

  lemma NoLines(re: string, s: string)
    requires NoNewline(s)
    ensures MatchingLines(re, s) == "" && Reach(s) == 0
  {
    assert s[..|s|] == s;
    FirstNewlineIs(s, |s|);
  }

  lemma {:induction false} ReachBoundary(s: string)
    ensures Boundary(s[..Reach(s)])
    decreases |s|
  {
    var k := FirstNewline(s);
    if k < |s| && k + 1 <= BUFSIZE - 1 {
      var n := Reach(s[k + 1..]);
      ReachBoundary(s[k + 1..]);
      assert n > 0 ==> s[k + 1..][..n][n - 1] == s[k + n];
    }
  }

  /** What grep leaves out is what matches after the place it reaches. */
  lemma ReachSplits(re: string, s: string)
    ensures MatchingLines(re, s) == MatchingLines(re, s[..Reach(s)]) + MatchingLines(re, s[Reach(s)..])
  {
    hide Means, MatchingLines;
    ReachBoundary(s);
    LinesAppend(re, s[..Reach(s)], s[Reach(s)..]);
    assert s == s[..Reach(s)] + s[Reach(s)..];
  }

  /** Input whose lines all fit is searched to the end. */
  lemma ShortLinesReached(re: string, s: string)
    requires ShortLines(s)
    ensures MatchingLines(re, s[..Reach(s)]) == MatchingLines(re, s)
  {
    ShortRest(s);
    ReachSplits(re, s);
    NoLines(re, s[Reach(s)..]);
  }

  lemma {:induction false} ShortRest(s: string)
    requires ShortLines(s)
    ensures NoNewline(s[Reach(s)..])
    decreases |s|
  {
    var k := FirstNewline(s);
    if k == |s| {
      assert s[0..] == s && s[..k] == s;
    } else {
      ShortRest(s[k + 1..]);
      assert s[Reach(s)..] == s[k + 1..][Reach(s[k + 1..])..];
    }
  }

  // ---- The loop ----

  /** Everything before `b` has been searched, and grep will go on from there. */
  ghost predicate Searched(re: string, data: string, b: nat, out: string) {
    && b <= |data| && Boundary(data[..b]) && out == MatchingLines(re, data[..b])
    && Reach(data) == b + Reach(data[b..])
  }

  /** The next line, which fits the buffer. */
  lemma SearchLine(re: string, data: string, b: nat, out: string, line: string)
    requires Searched(re, data, b, out) && b + |line| < |data| && data[b..b + |line|] == line
               && data[b + |line|] == '\n'
    requires NoNewline(line) && |line| + 1 <= BUFSIZE - 1
    ensures Searched(re, data, b + |line| + 1, out + if Means(re, line) then line + "\n" else "")
  {
    hide Means, MatchingLines, Reach, NoNewline, Boundary;
    var rest, k := data[b..], |line|;
    LinesNext(re, data[..b], line);
    assert data[..b + k + 1] == data[..b] + (line + "\n");
    assert rest[..k] == line && rest[k + 1..] == data[b + k + 1..];
    FirstNewlineIs(rest, k);
    ReachNext(rest);
  }

  lemma ReachZero(s: string)
    requires var k := FirstNewline(s); k == |s| || k + 1 > BUFSIZE - 1
    ensures Reach(s) == 0
  {
  }

  lemma ReachNext(s: string)
    requires var k := FirstNewline(s); k < |s| && k + 1 <= BUFSIZE - 1
    ensures Reach(s) == FirstNewline(s) + 1 + Reach(s[FirstNewline(s) + 1..])
  {
  }

  /** Nothing more to find: the data ends, or the next line does not fit. */
  lemma SearchEnds(re: string, data: string, b: nat, out: string, m: nat)
    requires Searched(re, data, b, out) && b + m <= |data| && NoNewline(data[b..b + m])
    requires b + m == |data| || m >= BUFSIZE - 1
    ensures b == Reach(data)
  {
    hide Means, MatchingLines, Boundary, Reach;
    var rest := data[b..];
    assert rest[..m] == data[b..b + m];
    assert forall i | 0 <= i < m :: rest[i] == rest[..m][i] && rest[i] != '\n';
    ReachZero(rest);
  }

  /** strchr(buf + p, '\n'), with the NUL at place m; -1 for a null pointer. */
  method StrChr(buf: array<char>, p: nat, m: nat) returns (q: int)
    requires p <= m < buf.Length && buf[m] == '\0' && forall i | p <= i < m :: buf[i] != '\0'
    ensures q == -1 ==> NoNewline(buf[p..m])
    ensures q != -1 ==> p <= q < m && buf[q] == '\n' && NoNewline(buf[p..q])
  {
    q := p;
    while buf[q] != '\0'
      invariant p <= q <= m && NoNewline(buf[p..q])
      decreases m - q
    {
      if buf[q] == '\n' {
        return;
      }
      q := q + 1;
    }
    return -1;
  }

  /** The inner loop: the complete lines of the first m bytes of the buffer, which are the
      data from `b` on. */
  method SearchBuffer(re: string, buf: array<char>, m: nat, ghost data: string, ghost b: nat, out0: string)
    returns (out: string, p: nat)
    requires buf.Length == BUFSIZE && m < BUFSIZE && buf[m] == '\0' && b + m <= |data| && '\0' !in data
    requires buf[..m] == data[b..b + m] && Searched(re, data, b, out0)
    modifies buf
    ensures p <= m && buf[p..m] == data[b + p..b + m] && Searched(re, data, b + p, out) && NoNewline(buf[p..m])
  {
    hide Searched, Means, NoNewline;
    out, p := out0, 0;
    while true
      invariant 0 <= p <= m && buf[m] == '\0' && Searched(re, data, b + p, out)
      invariant forall i | p <= i < m :: buf[i] == data[b + i]
      decreases m - p
    {
      var q := StrChr(buf, p, m);
      if q == -1 {
        return;
      }
      var line := buf[p..q];
      buf[q] := '\0';
      var matched := Match(re, line);
      SearchLine(re, data, b + p, out, line);
      if matched {
        buf[q] := '\n';
        out := out + buf[p..q + 1];
        assert buf[p..q + 1] == line + "\n";
      } else {
        assert out + "" == out;
      }
      p := q + 1;
    }
  }

  /** read into buf + m, and `buf[m] = 0` behind what came. */
  method Fill(buf: array<char>, m: nat, piece: string)
    requires m + |piece| < buf.Length
    modifies buf
    ensures buf[..m + |piece|] == old(buf[..m]) + piece && buf[m + |piece|] == '\0'
  {
    forall i | 0 <= i < |piece| {
      buf[m + i] := piece[i];
    }
    buf[m + |piece|] := '\0';
  }

  /** `memmove(buf, p, m)` */
  method Shift(buf: array<char>, p: nat, m: nat)
    requires p <= m <= buf.Length
    modifies buf
    ensures buf[..m - p] == old(buf[p..m])
  {
    forall i | 0 <= i < m - p {
      buf[i] := buf[p + i];
    }
  }

  /** grep of a file that holds `data`, read in pieces of any sizes.  What it writes does not
      depend on the pieces. */
  method Grep(re: string, data: string) returns (out: string)
    requires '\0' !in data
    ensures out == MatchingLines(re, data[..Reach(data)])
  {
    hide Means, NoNewline, MatchingLines, Reach, Boundary;
    var buf := new char[BUFSIZE];
    var m, r := 0, 0;
    out := "";
    SearchStart(re, data);
    while true
      invariant 0 <= m <= r <= |data| && m < BUFSIZE && buf[..m] == data[r - m..r]
      invariant Searched(re, data, r - m, out) && NoNewline(data[r - m..r])
      decreases |data| - r
    {
      var room := BUFSIZE - m - 1;
      if room == 0 || r == |data| {
        SearchEnds(re, data, r - m, out, m);
        return;
      }
      var n: nat :| 1 <= n <= room && n <= |data| - r;
      ghost var b := r - m;
      Fill(buf, m, data[r..r + n]);
      m, r := m + n, r + n;
      assert data[b..r - n] + data[r - n..r] == data[b..b + m];
      var p;
      out, p := SearchBuffer(re, buf, m, data, b, out);
      Shift(buf, p, m);
      m := m - p;
    }
  }

  lemma SearchStart(re: string, data: string)
    ensures Searched(re, data, 0, "") && NoNewline(data[0..0])
  {
    assert data[0..] == data && data[..0] == "";
    NoLines(re, "");
  }
}
