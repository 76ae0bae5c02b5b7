/** The intent language: `Type1(data1) && Type2(data2)`. */
module Intents {
  import opened Basics
  import opened Text

  /** A parsed conjunct: the gadget's type name and the text handed to it. */
  datatype Clause = Clause(typ: string, data: string)

  const DELIMITER := "&&"

  // ---- Parentheses ----

  /** One, plus the opening minus the closing parentheses among the first n characters:
      the depth counter after reading n characters behind the first parenthesis. */
  function Depth(s: string, n: nat): int
    requires n <= |s|
  {
    if n == 0 then 1
    else if s[n - 1] == '(' then Depth(s, n - 1) + 1
    else if s[n - 1] == ')' then Depth(s, n - 1) - 1
    else Depth(s, n - 1)
  }

  lemma {:induction false} DepthCounts(s: string, n: nat)
    requires n <= |s|
    ensures Depth(s, n) + multiset(s[..n])[')'] == 1 + multiset(s[..n])['(']
  {
    if n > 0 {
      DepthCounts(s, n - 1);
      assert s[..n] == s[..n - 1] + [s[n - 1]];
    }
  }

  /** The parenthesis that closes the data is the one at e. */
  ghost predicate ClosesAt(s: string, e: nat) {
    e < |s| && Depth(s, e + 1) == 0 && forall j: nat | j <= e :: Depth(s, j) != 0
  }

  ghost predicate NeverCloses(s: string) { forall j: nat | j <= |s| :: Depth(s, j) != 0 }

  function FirstClose(s: string, i: nat): (r: Option<nat>)
    requires i <= |s| && forall j: nat | j <= i :: Depth(s, j) != 0
    ensures r.Some? ==> ClosesAt(s, r.value)
    ensures r.None? ==> NeverCloses(s)
    decreases |s| - i
  {
    if i == |s| then None
    else if Depth(s, i + 1) == 0 then Some(i)
    else FirstClose(s, i + 1)
  }

  /** The data: up to the closing parenthesis, or nothing when there is none. */
  function Enclosed(s: string): string {
    match FirstClose(s, 0) case Some(e) => s[..e] case None => ""
  }

  lemma CloseUnique(s: string, e: nat)
    ensures ClosesAt(s, e) ==> FirstClose(s, 0) == Some(e)
    ensures NeverCloses(s) ==> FirstClose(s, 0).None?
  {
  }

  /** Never closes the parenthesis it stands in, and closes every one it opens. */
  ghost predicate Balanced(d: string) {
    Depth(d, |d|) == 1 && forall j: nat | j <= |d| :: Depth(d, j) >= 1
  }

  lemma {:induction false} DepthPrefix(s: string, t: string, n: nat)
    requires n <= |s| && n <= |t| && s[..n] == t[..n]
    ensures Depth(s, n) == Depth(t, n)
  {
    if n > 0 {
      assert s[..n - 1] == s[..n][..n - 1] == t[..n - 1];
      assert s[n - 1] == s[..n][n - 1] == t[n - 1];
      DepthPrefix(s, t, n - 1);
    }
  }

  lemma {:induction false} DepthPositive(s: string, n: nat)
    requires n <= |s| && forall j: nat | j <= n :: Depth(s, j) != 0
    ensures Depth(s, n) >= 1
  {
    if n > 0 { DepthPositive(s, n - 1); }
  }

  /** What a closing parenthesis encloses is balanced. */
  lemma EnclosedBalanced(s: string)
    ensures Balanced(Enclosed(s))
  {
    match FirstClose(s, 0)
    case None =>
    case Some(e) =>
      var d := s[..e];
      forall j: nat | j <= e ensures Depth(d, j) == Depth(s, j) >= 1 {
        assert d[..j] == s[..j];
        DepthPrefix(d, s, j);
        DepthPositive(s, j);
      }
  }

  /** Balanced data is recovered exactly, whatever follows its closing parenthesis. */
  lemma BalancedEnclosed(d: string, rest: string)
    requires Balanced(d)
    ensures Enclosed(d + ")" + rest) == d
  {
    var s := d + ")" + rest;
    forall j: nat | j <= |d| ensures Depth(s, j) == Depth(d, j) {
      assert d[..j] == s[..j];
      DepthPrefix(d, s, j);
    }
    assert Depth(s, |d| + 1) == 0;
    CloseUnique(s, |d|);
    assert s[..|d|] == d;
  }

  /** When no closing parenthesis ends the data, the data is empty, whatever follows the type. */
  lemma UnclosedEmpty(s: string)
    requires NeverCloses(s)
    ensures Enclosed(s) == ""
  {
    CloseUnique(s, 0);
  }

  // ---- Parsing ----

  function ParsePart(part: string): Option<Clause> {
    var t := Trim(part);
    match Find("(", t)
    case None => None
    case Some(i) => Some(Clause(t[..i], Enclosed(t[i + 1..])))
  }

  /** All parts parse, or the whole input is refused. */
  function ParseParts(parts: seq<string>): Option<seq<Clause>> {
    if forall k | 0 <= k < |parts| :: ParsePart(parts[k]).Some?
    then Some(seq(|parts|, k requires 0 <= k < |parts| && ParsePart(parts[k]).Some? => ParsePart(parts[k]).value))
    else None
  }

  function Parse(input: string): Option<seq<Clause>> { ParseParts(Split(DELIMITER, input)) }

  /** The scan for the closing parenthesis, with its depth counter and end position. */
  method ScanClose(input: string) returns (endPos: nat)
    ensures endPos <= |input| && input[..endPos] == Enclosed(input)
  {
    var depth, i := 1, 0;
    endPos := 0;
    while i < |input|
      invariant 0 <= i <= |input| && depth == Depth(input, i) && endPos == 0
      invariant forall j: nat | j <= i :: Depth(input, j) != 0
    {
      if input[i] == '(' {
        depth := depth + 1;
      } else if input[i] == ')' {
        depth := depth - 1;
        if depth == 0 {
          endPos := i;
          break;
        }
      }
      i := i + 1;
    }
    CloseUnique(input, i);
  }

  /** `parse_intent_string` */
  method ParseIntentString(input: string) returns (r: Option<seq<Clause>>)
    ensures r == Parse(input)
  {
    var parts := Split(DELIMITER, input);
    var output: seq<Clause> := [];
    var k := 0;
    while k < |parts|
      invariant 0 <= k <= |parts| && |output| == k
      invariant forall i | 0 <= i < k :: ParsePart(parts[i]) == Some(output[i])
    {
      var part := Trim(parts[k]);
      var open := Find("(", part);
      if open.None? {
        assert ParsePart(parts[k]).None?;
        return None;
      }
      var inner := part[open.value + 1..];
      var endPos := ScanClose(inner);
      output := output + [Clause(part[..open.value], inner[..endPos])];
      k := k + 1;
    }
    ParsedAll(parts, output);
    return Some(output);
  }

  lemma ParsedAll(parts: seq<string>, cs: seq<Clause>)
    requires |parts| == |cs| && forall k | 0 <= k < |parts| :: ParsePart(parts[k]) == Some(cs[k])
    ensures ParseParts(parts) == Some(cs)
  {
    assert ParseParts(parts).value == cs;
  }

  /** Parsing fails exactly when some part has no opening parenthesis. */
  lemma ParseFailsIff(input: string)
    ensures Parse(input).None? <==>
            exists k :: 0 <= k < |Split(DELIMITER, input)| && '(' !in Split(DELIMITER, input)[k]
  {
    var parts := Split(DELIMITER, input);
    forall k | 0 <= k < |parts| ensures ParsePart(parts[k]).None? <==> '(' !in parts[k] {
      TrimKeeps(parts[k], '(');
      CharCuttable('(', Trim(parts[k]));
    }
  }

  // ---- Printing ----

  function PrintClause(c: Clause): string { c.typ + "(" + c.data + ")" }

  function PrintAll(cs: seq<Clause>): (ps: seq<string>)
    ensures |ps| == |cs|
  {
    seq(|cs|, k requires 0 <= k < |cs| => PrintClause(cs[k]))
  }

  /** The documented written form of a conjunction. */
  function Print(cs: seq<Clause>): string {
    if cs == [] then "" else Join(" && ", PrintAll(cs))
  }

  /** The clauses the language can express. */
  ghost predicate Expressible(c: Clause) {
    && '(' !in c.typ && !Has(DELIMITER, c.typ) && (c.typ == "" || !White(c.typ[0]))
    && !Has(DELIMITER, c.data) && Balanced(c.data)
  }

  ghost predicate AllExpressible(cs: seq<Clause>) {
    forall k | 0 <= k < |cs| :: Expressible(cs[k])
  }

  lemma AmpAt(s: string, j: nat)
    ensures At(DELIMITER, s, j) <==> j + 1 < |s| && s[j] == '&' && s[j + 1] == '&'
  {
    if j + 1 < |s| { assert s[j..j + 2] == [s[j], s[j + 1]]; }
  }

  /** Two delimiter-free strings make one, unless an ampersand meets another. */
  lemma AmpConcat(a: string, b: string)
    requires !Has(DELIMITER, a) && !Has(DELIMITER, b)
    requires a == "" || b == "" || a[|a| - 1] != '&' || b[0] != '&'
    ensures !Has(DELIMITER, a + b)
  {
    var s := a + b;
    forall j: nat ensures !At(DELIMITER, s, j) {
      AmpAt(s, j);
      AmpAt(a, j);
      if j >= |a| { AmpAt(b, j - |a|); }
    }
  }

  lemma AmpCuttable(p: string)
    requires !Has(DELIMITER, p) && (p == "" || p[|p| - 1] != '&')
    ensures Cuttable(DELIMITER, p)
  {
    var s := p + DELIMITER;
    AmpAt(s, |p|);
    forall j: nat | j < |p| ensures !At(DELIMITER, s, j) {
      AmpAt(s, j);
      AmpAt(p, j);
    }
  }

  lemma NoAmp(s: string)
    requires '&' !in s
    ensures !Has(DELIMITER, s)
  {
    forall j: nat ensures !At(DELIMITER, s, j) { AmpAt(s, j); }
  }

  lemma ClauseShape(c: Clause)
    requires Expressible(c)
    ensures var p := PrintClause(c); !Has(DELIMITER, p) && Trimmed(p) && p[|p| - 1] == ')'
  {
    NoAmp("(");
    NoAmp(")");
    AmpConcat(c.typ, "(");
    AmpConcat(c.typ + "(", c.data);
    AmpConcat(c.typ + "(" + c.data, ")");
  }

  /** One printed clause, with white space around it, parses to itself. */
  lemma ClauseRoundTrip(u: string, c: Clause, v: string)
    requires Expressible(c) && AllWhite(u) && AllWhite(v)
    ensures ParsePart(u + PrintClause(c) + v) == Some(c)
  {
    var p := PrintClause(c);
    ClauseShape(c);
    TrimPad(u, p, v);
    var inner := c.data + ")" + "";
    assert p == c.typ + "(" + inner;
    CharCuttable('(', c.typ);
    CutAt("(", c.typ, inner);
    assert p[..|c.typ|] == c.typ && p[|c.typ| + 1..] == inner;
    BalancedEnclosed(c.data, "");
  }

  /** A part whose parenthesis is never closed parses to its type and empty data. */
  lemma UnclosedParses(u: string, typ: string, inner: string)
    requires AllWhite(u) && '(' !in typ && (typ == "" || !White(typ[0])) && Trimmed("(" + inner) && NeverCloses(inner)
    ensures ParsePart(u + typ + "(" + inner) == Some(Clause(typ, ""))
  {
    var p := typ + "(" + inner;
    assert p[|p| - 1] == ("(" + inner)[|inner|];
    TrimPad(u, p, "");
    assert u + p + "" == u + typ + "(" + inner;
    CharCuttable('(', typ);
    CutAt("(", typ, inner);
    assert p[..|typ|] == typ && p[|typ| + 1..] == inner;
    UnclosedEmpty(inner);
  }

  /** The parts `split` finds in a printed conjunction: the clauses with their spaces. */
  function Spaced(lead: string, ps: seq<string>): (qs: seq<string>)
    requires ps != []
    ensures |qs| == |ps|
    decreases |ps|
  {
    if |ps| == 1 then [lead + ps[0]] else [lead + ps[0] + " "] + Spaced(" ", ps[1..])
  }

  lemma {:induction false} JoinSpaced(lead: string, ps: seq<string>)
    requires ps != []
    ensures Join(DELIMITER, Spaced(lead, ps)) == lead + Join(" && ", ps)
    decreases |ps|
  {
    if |ps| > 1 {
      JoinSpaced(" ", ps[1..]);
      var rest := Join(" && ", ps[1..]);
      assert Spaced(lead, ps)[1..] == Spaced(" ", ps[1..]);
      assert lead + ps[0] + " " + "&&" + (" " + rest) == lead + (ps[0] + " && " + rest);
    }
  }

  /** Each of these parts can be cut off at a delimiter. */
  lemma SpacedClause(lead: string, c: Clause)
    requires Expressible(c) && (lead == "" || lead == " ")
    ensures Cuttable(DELIMITER, lead + PrintClause(c) + " ") && !Has(DELIMITER, lead + PrintClause(c))
  {
    var p := PrintClause(c);
    ClauseShape(c);
    NoAmp(lead);
    NoAmp(" ");
    AmpConcat(lead, p);
    AmpConcat(lead + p, " ");
    AmpCuttable(lead + p + " ");
  }

  lemma {:induction false} SpacedSplittable(lead: string, cs: seq<Clause>)
    requires cs != [] && AllExpressible(cs) && (lead == "" || lead == " ")
    ensures Splittable(DELIMITER, Spaced(lead, PrintAll(cs)))
    decreases |cs|
  {
    var ps := PrintAll(cs);
    SpacedClause(lead, cs[0]);
    if |cs| > 1 {
      SpacedSplittable(" ", cs[1..]);
      assert ps[1..] == PrintAll(cs[1..]);
      var tail := Spaced(" ", ps[1..]);
      var qs := [lead + ps[0] + " "] + tail;
      forall k | 0 <= k < |qs| - 1 ensures Cuttable(DELIMITER, qs[k]) {
        assert k > 0 ==> qs[k] == tail[k - 1];
      }
    }
  }

  lemma {:induction false} SpacedParses(lead: string, cs: seq<Clause>, k: nat)
    requires cs != [] && AllExpressible(cs) && AllWhite(lead) && k < |cs|
    ensures ParsePart(Spaced(lead, PrintAll(cs))[k]) == Some(cs[k])
    decreases |cs|
  {
    var ps := PrintAll(cs);
    if |cs| == 1 {
      ClauseRoundTrip(lead, cs[0], "");
      assert lead + ps[0] + "" == lead + ps[0];
    } else if k == 0 {
      ClauseRoundTrip(lead, cs[0], " ");
    } else {
      SpacedParses(" ", cs[1..], k - 1);
      assert ps[1..] == PrintAll(cs[1..]);
    }
  }

  /** Parsing inverts printing on every non-empty list of expressible clauses. */
  lemma ParsePrint(cs: seq<Clause>)
    requires cs != [] && AllExpressible(cs)
    ensures Parse(Print(cs)) == Some(cs)
  {
    var qs := Spaced("", PrintAll(cs));
    SpacedSplittable("", cs);
    forall k | 0 <= k < |qs| ensures ParsePart(qs[k]) == Some(cs[k]) { SpacedParses("", cs, k); }
    ParsedAll(qs, cs);
    JoinSpaced("", PrintAll(cs));
    assert "" + Print(cs) == Print(cs);
    SplitJoin(DELIMITER, qs);
  }

  lemma TrimFree(part: string)
    requires !Has(DELIMITER, part)
    ensures !Has(DELIMITER, Trim(part))
  {
    var u, v := TrimShape(part);
    SliceFree(DELIMITER, part, |u|);
    assert part[|u|..] == Trim(part) + v;
    SliceFree(DELIMITER, Trim(part) + v, |Trim(part)|);
    assert (Trim(part) + v)[..|Trim(part)|] == Trim(part);
  }

  lemma EnclosedFree(inner: string)
    requires !Has(DELIMITER, inner)
    ensures !Has(DELIMITER, Enclosed(inner)) && Balanced(Enclosed(inner))
  {
    EnclosedBalanced(inner);
    NoAmp("");
    SliceFree(DELIMITER, inner, |Enclosed(inner)|);
  }

  lemma PartNormal(part: string)
    requires !Has(DELIMITER, part) && ParsePart(part).Some?
    ensures Expressible(ParsePart(part).value)
  {
    var t := Trim(part);
    TrimFree(part);
    var u, v := TrimShape(part);
    var i := Find("(", t).value;
    SliceFree(DELIMITER, t, i);
    SliceFree(DELIMITER, t, i + 1);
    EnclosedFree(t[i + 1..]);
    FirstCut("(", t, i);
    CharCuttable('(', t[..i]);
  }

  /** Everything the parser returns is expressible, and it never returns an empty list. */
  lemma ParseNormal(input: string)
    requires Parse(input).Some?
    ensures Parse(input).value != [] && AllExpressible(Parse(input).value)
  {
    var parts := Split(DELIMITER, input);
    forall k | 0 <= k < |parts| ensures Expressible(ParsePart(parts[k]).value) {
      PartsFree(DELIMITER, input, k);
      PartNormal(parts[k]);
    }
  }

  /** The lists that survive printing and parsing are exactly these. */
  lemma ParsePrintIff(cs: seq<Clause>)
    ensures Parse(Print(cs)) == Some(cs) <==> cs != [] && AllExpressible(cs)
  {
    if cs != [] && AllExpressible(cs) {
      ParsePrint(cs);
    }
    if Parse(Print(cs)) == Some(cs) {
      ParseNormal(Print(cs));
    }
  }

  /** Printing what was parsed and parsing again changes nothing. */
  lemma ParseStable(input: string)
    requires Parse(input).Some?
    ensures Parse(Print(Parse(input).value)) == Parse(input)
  {
    ParseNormal(input);
    ParsePrint(Parse(input).value);
  }
}
