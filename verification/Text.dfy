/** The `str` operations the parsers use: `trim`, and `split` on a fixed delimiter. */
module Text {
  import opened Basics

  // ---- trim ----

  /** Unicode White_Space. */
  predicate White(c: char) {
    var n := c as int;
    9 <= n <= 13 || n == 0x20 || n == 0x85 || n == 0xA0 || n == 0x1680 || 0x2000 <= n <= 0x200A
    || n == 0x2028 || n == 0x2029 || n == 0x202F || n == 0x205F || n == 0x3000
  }

  /** The 25 characters of that property, listed. */
  lemma WhiteListed(c: char)
    ensures White(c) <==>
            c in "\t\n\U{B}\U{C}\r \U{85}\U{A0}\U{1680}\U{2000}\U{2001}\U{2002}\U{2003}\U{2004}\U{2005}"
                 + "\U{2006}\U{2007}\U{2008}\U{2009}\U{200A}\U{2028}\U{2029}\U{202F}\U{205F}\U{3000}"
  {
    var front := "\t\n\U{B}\U{C}\r \U{85}\U{A0}\U{1680}\U{2000}\U{2001}\U{2002}\U{2003}\U{2004}\U{2005}";
    var back := "\U{2006}\U{2007}\U{2008}\U{2009}\U{200A}\U{2028}\U{2029}\U{202F}\U{205F}\U{3000}";
    assert c in front <==> exists i :: 0 <= i < 15 && front[i] == c;
    assert c in back <==> exists i :: 0 <= i < 10 && back[i] == c;
  }

  predicate AllWhite(s: string) { forall i | 0 <= i < |s| :: White(s[i]) }

  function TrimStart(s: string): string {
    if s != "" && White(s[0]) then TrimStart(s[1..]) else s
  }

  function TrimEnd(s: string): string {
    if s != "" && White(s[|s| - 1]) then TrimEnd(s[..|s| - 1]) else s
  }

  function Trim(s: string): string { TrimEnd(TrimStart(s)) }

  /** Neither end is white space. */
  predicate Trimmed(s: string) { s == "" || (!White(s[0]) && !White(s[|s| - 1])) }

  lemma {:induction false} TrimStartShape(s: string)
    ensures exists w: string :: AllWhite(w) && s == w + TrimStart(s)
    ensures var t := TrimStart(s); t == "" || !White(t[0])
  {
    if s != "" && White(s[0]) {
      TrimStartShape(s[1..]);
      var w: string :| AllWhite(w) && s[1..] == w + TrimStart(s[1..]);
      assert s == ([s[0]] + w) + TrimStart(s);
      assert AllWhite([s[0]] + w);
    } else {
      assert s == "" + TrimStart(s) && AllWhite("");
    }
  }

  lemma {:induction false} TrimEndShape(s: string)
    ensures exists w: string :: AllWhite(w) && s == TrimEnd(s) + w
    ensures var t := TrimEnd(s); t == "" || !White(t[|t| - 1])
  {
    if s != "" && White(s[|s| - 1]) {
      TrimEndShape(s[..|s| - 1]);
      var w: string :| AllWhite(w) && s[..|s| - 1] == TrimEnd(s[..|s| - 1]) + w;
      assert s == TrimEnd(s) + (w + [s[|s| - 1]]);
      assert AllWhite(w + [s[|s| - 1]]);
    } else {
      assert s == TrimEnd(s) + "" && AllWhite("");
    }
  }

  /** Trimming removes white space from the two ends and nothing else. */
  lemma TrimShape(s: string) returns (u: string, v: string)
    ensures AllWhite(u) && AllWhite(v) && s == u + Trim(s) + v && Trimmed(Trim(s))
  {
    TrimStartShape(s);
    TrimEndShape(TrimStart(s));
    u :| AllWhite(u) && s == u + TrimStart(s);
    v :| AllWhite(v) && TrimStart(s) == Trim(s) + v;
    if Trim(s) != "" {
      assert Trim(s)[0] == TrimStart(s)[0];
    }
  }

  /** Trimming keeps every character that is not white space. */
  lemma TrimKeeps(s: string, c: char)
    requires !White(c)
    ensures c in Trim(s) <==> c in s
  {
    var u, v := TrimShape(s);
    assert c !in u && c !in v;
    assert c in u + Trim(s) + v <==> c in u || c in Trim(s) || c in v;
  }

  lemma {:induction false} TrimStartPad(u: string, s: string)
    requires AllWhite(u) && (s == "" || !White(s[0]))
    ensures TrimStart(u + s) == s
  {
    if u == "" {
      assert u + s == s;
    } else {
      assert (u + s)[1..] == u[1..] + s;
      TrimStartPad(u[1..], s);
    }
  }

  lemma {:induction false} TrimEndPad(s: string, v: string)
    requires AllWhite(v) && (s == "" || !White(s[|s| - 1]))
    ensures TrimEnd(s + v) == s
  {
    if v == "" {
      assert s + v == s;
    } else {
      assert (s + v)[..|s + v| - 1] == s + v[..|v| - 1];
      TrimEndPad(s, v[..|v| - 1]);
    }
  }

  /** Trimming a trimmed string with white space around it gives the string back. */
  lemma TrimPad(u: string, s: string, v: string)
    requires AllWhite(u) && AllWhite(v) && Trimmed(s)
    ensures Trim(u + s + v) == s
  {
    if s == "" {
      assert u + s + v == (u + v) + "";
      TrimStartPad(u + v, "");
    } else {
      assert u + s + v == u + (s + v);
      TrimStartPad(u, s + v);
      TrimEndPad(s, v);
    }
  }

  lemma TrimmedIff(s: string)
    ensures Trim(s) == s <==> Trimmed(s)
  {
    var u, v := TrimShape(s);
    if Trimmed(s) {
      TrimPad("", s, "");
      assert "" + s + "" == s;
    }
  }

  // ---- split and join ----

  predicate At(d: string, s: string, i: nat) { i + |d| <= |s| && s[i..i + |d|] == d }

  /** The position of the first occurrence of d at or after i. */
  function FindFrom(d: string, s: string, i: nat): (r: Option<nat>)
    requires i <= |s|
    ensures r.Some? ==> i <= r.value && At(d, s, r.value) && forall j | i <= j < r.value :: !At(d, s, j)
    ensures r.None? ==> forall j | i <= j :: !At(d, s, j)
    decreases |s| - i
  {
    if At(d, s, i) then Some(i)
    else if i == |s| then None
    else FindFrom(d, s, i + 1)
  }

  function Find(d: string, s: string): Option<nat> { FindFrom(d, s, 0) }

  predicate Has(d: string, s: string) { Find(d, s).Some? }

  /** `s.split(d)`: cuts at the leftmost occurrence of d and goes on after it. */
  function Split(d: string, s: string): (parts: seq<string>)
    requires d != ""
    ensures parts != []
    decreases |s|
  {
    match Find(d, s)
    case None => [s]
    case Some(i) => [s[..i]] + Split(d, s[i + |d|..])
  }

  function Join(d: string, parts: seq<string>): string
    requires parts != []
  {
    if |parts| == 1 then parts[0] else parts[0] + d + Join(d, parts[1..])
  }

  /** p can stand before a delimiter: the first d in p followed by d is that delimiter. */
  predicate Cuttable(d: string, p: string) { Find(d, p + d) == Some(|p|) }

  predicate Splittable(d: string, parts: seq<string>) {
    && parts != []
    && (forall k | 0 <= k < |parts| - 1 :: Cuttable(d, parts[k]))
    && !Has(d, parts[|parts| - 1])
  }

  lemma CutAt(d: string, p: string, rest: string)
    requires d != "" && Cuttable(d, p)
    ensures Find(d, p + d + rest) == Some(|p|)
  {
    var s := p + d + rest;
    assert s[|p|..|p| + |d|] == d;
    assert At(d, s, |p|);
    forall j: nat | j < |p| ensures !At(d, s, j) {
      assert s[j..j + |d|] == (p + d)[j..j + |d|];
      assert !At(d, p + d, j);
    }
  }

  lemma SplitCut(d: string, p: string, rest: string)
    requires d != "" && Cuttable(d, p)
    ensures Split(d, p + d + rest) == [p] + Split(d, rest)
  {
    CutAt(d, p, rest);
    var s := p + d + rest;
    assert s[..|p|] == p && s[|p| + |d|..] == rest;
  }

  /** Splitting inverts joining on every list of parts the delimiter can separate. */
  lemma {:induction false} SplitJoin(d: string, parts: seq<string>)
    requires d != "" && Splittable(d, parts)
    ensures Split(d, Join(d, parts)) == parts
  {
    if |parts| == 1 {
      assert parts == [parts[0]];
    } else {
      var tail := parts[1..];
      forall k | 0 <= k < |tail| - 1 ensures Cuttable(d, tail[k]) { assert tail[k] == parts[k + 1]; }
      SplitJoin(d, tail);
      SplitCut(d, parts[0], Join(d, tail));
      assert parts == [parts[0]] + tail;
    }
  }

  lemma FirstCut(d: string, s: string, i: nat)
    requires d != "" && Find(d, s) == Some(i)
    ensures s == s[..i] + d + s[i + |d|..] && Cuttable(d, s[..i])
  {
    var p := s[..i];
    assert p + d == s[..i + |d|];
    forall j: nat | j < i ensures !At(d, p + d, j) {
      assert !At(d, s, j);
      assert s[..i + |d|][j..j + |d|] == s[j..j + |d|];
    }
    assert (p + d)[i..i + |d|] == d;
    assert At(d, p + d, i);
  }

  lemma SplittableCons(d: string, p: string, rest: seq<string>)
    requires d != "" && Cuttable(d, p) && Splittable(d, rest)
    ensures Splittable(d, [p] + rest) && Join(d, [p] + rest) == p + d + Join(d, rest)
  {
    var parts := [p] + rest;
    assert parts[1..] == rest;
    forall k | 0 <= k < |parts| - 1 ensures Cuttable(d, parts[k]) {
      if k > 0 { assert parts[k] == rest[k - 1]; }
    }
  }

  /** Joining inverts splitting, and the parts found are the splittable ones: with
      SplitJoin, the parts are the only splittable list that joins to the string. */
  lemma {:induction false} JoinSplit(d: string, s: string)
    requires d != ""
    ensures Splittable(d, Split(d, s)) && Join(d, Split(d, s)) == s
    decreases |s|
  {
    match Find(d, s)
    case None =>
    case Some(i) =>
      JoinSplit(d, s[i + |d|..]);
      FirstCut(d, s, i);
      SplittableCons(d, s[..i], Split(d, s[i + |d|..]));
  }

  /** A part that stands before a delimiter does not contain one. */
  lemma CuttableFree(d: string, p: string)
    requires d != "" && Cuttable(d, p)
    ensures !Has(d, p)
  {
    forall j: nat ensures !At(d, p, j) {
      if At(d, p, j) {
        assert (p + d)[j..j + |d|] == p[j..j + |d|];
        assert At(d, p + d, j);
      }
    }
  }

  /** No part of a split contains the delimiter. */
  lemma PartsFree(d: string, s: string, k: nat)
    requires d != "" && k < |Split(d, s)|
    ensures !Has(d, Split(d, s)[k])
  {
    JoinSplit(d, s);
    var parts := Split(d, s);
    if k < |parts| - 1 { CuttableFree(d, parts[k]); }
  }

  /** A prefix or a suffix of a string without d is without d. */
  lemma SliceFree(d: string, s: string, i: nat)
    requires i <= |s| && !Has(d, s)
    ensures !Has(d, s[..i]) && !Has(d, s[i..])
  {
    forall j: nat | j + |d| <= i ensures !At(d, s[..i], j) {
      assert s[..i][j..j + |d|] == s[j..j + |d|];
      assert !At(d, s, j);
    }
    forall j: nat | j + |d| <= |s| - i ensures !At(d, s[i..], j) {
      assert s[i..][j..j + |d|] == s[i + j..i + j + |d|];
      assert !At(d, s, i + j);
    }
  }

  /** For a one-character delimiter, cuttable means free of the character. */
  lemma CharCuttable(c: char, p: string)
    ensures Cuttable([c], p) <==> c !in p
    ensures Has([c], p) <==> c in p
  {
    forall j: nat | j < |p| ensures At([c], p, j) <==> p[j] == c {
      assert p[j..j + 1] == [p[j]];
    }
    forall j: nat | j <= |p| ensures At([c], p + [c], j) <==> (p + [c])[j] == c {
      assert (p + [c])[j..j + 1] == [(p + [c])[j]];
    }
    if c in p {
      var j: nat :| j < |p| && p[j] == c;
      assert At([c], p, j) && (p + [c])[j] == c && At([c], p + [c], j);
    } else {
      assert At([c], p + [c], |p|);
      forall j: nat | j < |p| ensures !At([c], p + [c], j) {
        assert (p + [c])[j] == p[j];
      }
    }
  }
}
