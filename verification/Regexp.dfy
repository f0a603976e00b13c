/** The regular expressions of user/grep.c.  A C string is the sequence of its characters
    without the final NUL, and has none inside. */
module Regexp {
  /** One character, or any number of them. */
  datatype Item = One(c: char) | Star(c: char)

  /** What a pattern means: its items in order, and whether it is tied to the end. */
  datatype Pattern = Pattern(items: seq<Item>, atEnd: bool)

  function Parse(re: string): Pattern {
    if re == "" then Pattern([], false)
    else if |re| > 1 && re[1] == '*' then
      var p := Parse(re[2..]); Pattern([Star(re[0])] + p.items, p.atEnd)
    else if re == "$" then Pattern([], true)
    else
      var p := Parse(re[1..]); Pattern([One(re[0])] + p.items, p.atEnd)
  }

  /** `.` stands for every character. */
  predicate Fits(c: char, x: char) { c == '.' || c == x }

  ghost predicate AllFit(c: char, s: string) {
    forall i | 0 <= i < |s| :: Fits(c, s[i])
  }

  ghost predicate InItem(item: Item, s: string) {
    match item
    case One(c) => |s| == 1 && Fits(c, s[0])
    case Star(c) => AllFit(c, s)
  }

  /** `s` is one piece for each item, in order. */
  ghost predicate Spells(items: seq<Item>, s: string)
    decreases |items|
  {
    if items == [] then s == ""
    else exists k :: 0 <= k <= |s| && InItem(items[0], s[..k]) && Spells(items[1..], s[k..])
  }

  /** The pattern matches a prefix of the text, all of it if tied to the end. */
  ghost predicate Prefix(p: Pattern, text: string) {
    exists j :: 0 <= j <= |text| && (p.atEnd ==> j == |text|) && Spells(p.items, text[..j])
  }

  ghost predicate Here(re: string, text: string) {
    Prefix(Parse(re), text)
  }

  /** The declarative meaning: some stretch of the text spells the items; it begins at the
      start after `^`, and ends at the end before a final `$`. */
  ghost predicate Means(re: string, text: string) {
    if re != "" && re[0] == '^' then Here(re[1..], text)
    else exists i :: 0 <= i <= |text| && Here(re, text[i..])
  }

  // ---- Here, one item at a time ----

  lemma SpellsAt(items: seq<Item>, s: string, k: nat)
    requires items != [] && k <= |s| && InItem(items[0], s[..k]) && Spells(items[1..], s[k..])
    ensures Spells(items, s)
  {
  }

  lemma HereEmpty(text: string)
    ensures Here("", text)
  {
    assert Spells([], text[..0]);
  }

  lemma HereEnd(text: string)
    ensures Here("$", text) <==> text == ""
  {
    assert Parse("$") == Pattern([], true);
    assert text[..|text|] == text;
    assert Spells([], text) <==> text == "";
  }

  /** Stripping `k` characters that an item spells. */
  lemma PrefixStep(item: Item, p: Pattern, text: string, k: nat)
    requires k <= |text| && InItem(item, text[..k]) && Prefix(p, text[k..])
    ensures Prefix(Pattern([item] + p.items, p.atEnd), text)
  {
    var rest := text[k..];
    var j :| 0 <= j <= |rest| && (p.atEnd ==> j == |rest|) && Spells(p.items, rest[..j]);
    var items := [item] + p.items;
    assert text[..k + j][..k] == text[..k] && text[..k + j][k..] == rest[..j];
    assert items[1..] == p.items;
    SpellsAt(items, text[..k + j], k);
  }

  lemma PrefixSplit(item: Item, p: Pattern, text: string) returns (k: nat)
    requires Prefix(Pattern([item] + p.items, p.atEnd), text)
    ensures k <= |text| && InItem(item, text[..k]) && Prefix(p, text[k..])
  {
    var items := [item] + p.items;
    var j :| 0 <= j <= |text| && (p.atEnd ==> j == |text|) && Spells(items, text[..j]);
    var s := text[..j];
    k :| 0 <= k <= |s| && InItem(items[0], s[..k]) && Spells(items[1..], s[k..]);
    assert items[1..] == p.items;
    assert s[..k] == text[..k];
    assert s[k..] == text[k..][..j - k];
  }

  lemma HereOne(re: string, text: string)
    requires re != "" && !(|re| > 1 && re[1] == '*') && re != "$"
    ensures Here(re, text) <==> text != "" && Fits(re[0], text[0]) && Here(re[1..], text[1..])
  {
    var p := Parse(re[1..]);
    assert Parse(re) == Pattern([One(re[0])] + p.items, p.atEnd);
    if Here(re, text) {
      var k := PrefixSplit(One(re[0]), p, text);
      assert text[..k][0] == text[0];
    }
    if text != "" && Fits(re[0], text[0]) && Here(re[1..], text[1..]) {
      assert text[..1] == [text[0]];
      PrefixStep(One(re[0]), p, text, 1);
    }
  }

  /** `c*re`: some characters that fit, then `re`. */
  ghost predicate StarHere(c: char, re: string, text: string) {
    exists k :: 0 <= k <= |text| && AllFit(c, text[..k]) && Here(re, text[k..])
  }

  lemma HereStar(re: string, text: string)
    requires |re| > 1 && re[1] == '*'
    ensures Here(re, text) <==> StarHere(re[0], re[2..], text)
  {
    var p := Parse(re[2..]);
    assert Parse(re) == Pattern([Star(re[0])] + p.items, p.atEnd);
    if Here(re, text) {
      var k := PrefixSplit(Star(re[0]), p, text);
      assert AllFit(re[0], text[..k]) && Here(re[2..], text[k..]);
    }
    if StarHere(re[0], re[2..], text) {
      var k :| 0 <= k <= |text| && AllFit(re[0], text[..k]) && Here(re[2..], text[k..]);
      PrefixStep(Star(re[0]), p, text, k);
    }
  }

  // ---- The matcher ----

  /** matchhere */
  method MatchHere(re: string, text: string) returns (m: bool)
    ensures m <==> Here(re, text)
    decreases |re|, 0
  {
    if re == "" {
      HereEmpty(text);
      return true;
    }
    if |re| > 1 && re[1] == '*' {
      HereStar(re, text);
      m := MatchStar(re[0], re[2..], text);
      return;
    }
    if re[0] == '$' && |re| == 1 {
      assert re == "$";
      HereEnd(text);
      return text == "";
    }
    HereOne(re, text);
    if text != "" && (re[0] == '.' || re[0] == text[0]) {
      m := MatchHere(re[1..], text[1..]);
      return;
    }
    return false;
  }

  /** matchstar */
  method MatchStar(c: char, re: string, text: string) returns (m: bool)
    ensures m <==> StarHere(c, re, text)
    decreases |re|, 1
  {
    var at := 0;
    while true
      invariant 0 <= at <= |text| && AllFit(c, text[..at])
      invariant forall k | 0 <= k < at :: !Here(re, text[k..])
      decreases |text| - at
    {
      m := MatchHere(re, text[at..]);
      if m {
        return;
      }
      if at == |text| || !(text[at] == c || c == '.') {
        NoStar(c, re, text, at);
        return false;
      }
      at := at + 1;
    }
  }

  lemma NoStar(c: char, re: string, text: string, at: nat)
    requires at <= |text| && (at == |text| || !Fits(c, text[at]))
    requires forall k | 0 <= k <= at :: !Here(re, text[k..])
    ensures !StarHere(c, re, text)
  {
    forall k | at < k <= |text|
      ensures !AllFit(c, text[..k])
    {
      assert text[..k][at] == text[at];
    }
  }

  /** match: the matcher decides the declarative meaning. */
  method Match(re: string, text: string) returns (m: bool)
    ensures m <==> Means(re, text)
  {
    if re != "" && re[0] == '^' {
      m := MatchHere(re[1..], text);
      return;
    }
    var at := 0;
    while true
      invariant 0 <= at <= |text| && forall k | 0 <= k < at :: !Here(re, text[k..])
      decreases |text| - at
    {
      m := MatchHere(re, text[at..]);
      if m {
        return;
      }
      if at == |text| {
        return false;
      }
      at := at + 1;
    }
  }
}
