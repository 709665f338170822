/** The glob language of Go's path.Match, which selectors and repository allow-lists are written in
    (internal/entry/matcher.go, internal/attestor/github_oidc.go). */
module Glob {
  import opened Prelude

  datatype Range = Range(lo: char, hi: char)

  datatype Term =
    | Star                                        // any run of characters other than '/'
    | AnyChar                                     // one character other than '/'
    | Class(negated: bool, ranges: seq<Range>)    // one character in, or not in, the ranges
    | Literal(c: char)

  datatype Verdict = BadPattern | Matched | NotMatched

  // ---- Syntax ----------------------------------------------------------------------------------

  /** One possibly escaped character of a character range, and the pattern after it. */
  function ParseEscaped(p: string): (r: Option<(char, string)>)
    ensures r.Some? ==> |r.value.1| < |p|
  {
    if p == "" || p[0] == '-' || p[0] == ']' then None
    else if p[0] != '\\' then Some((p[0], p[1..]))
    else if |p| < 2 then None
    else Some((p[1], p[2..]))
  }

  /** The ranges of a class up to its closing bracket; at least one is required. */
  function ParseRanges(p: string, sofar: seq<Range>): (r: Option<(seq<Range>, string)>)
    ensures r.Some? ==> |r.value.1| < |p| && r.value.0 != []
    decreases |p|
  {
    if p != "" && p[0] == ']' && sofar != [] then Some((sofar, p[1..]))
    else
      match ParseEscaped(p)
      case None => None
      case Some((lo, rest)) =>
        if rest == "" || rest[0] != '-' then ParseRanges(rest, sofar + [Range(lo, lo)])
        else
          match ParseEscaped(rest[1..])
          case None => None
          case Some((hi, rest')) => ParseRanges(rest', sofar + [Range(lo, hi)])
  }

  /** The first term of a nonempty pattern and the pattern after it. */
  function ParseTerm(p: string): (r: Option<(Term, string)>)
    requires p != ""
    ensures r.Some? ==> |r.value.1| < |p|
  {
    if p[0] == '*' then Some((Star, p[1..]))
    else if p[0] == '?' then Some((AnyChar, p[1..]))
    else if p[0] == '\\' then if |p| < 2 then None else Some((Literal(p[1]), p[2..]))
    else if p[0] == '[' then
      var negated := |p| >= 2 && p[1] == '^';
      match ParseRanges(if negated then p[2..] else p[1..], [])
      case None => None
      case Some((ranges, rest)) => Some((Class(negated, ranges), rest))
    else Some((Literal(p[0]), p[1..]))
  }

  /** The terms of a pattern, or None when it is malformed. */
  function Parse(p: string): Option<seq<Term>>
    decreases |p|
  {
    if p == "" then Some([])
    else
      match ParseTerm(p)
      case None => None
      case Some((t, rest)) => if Parse(rest).None? then None else Some([t] + Parse(rest).value)
  }

  /** A pattern for given terms, with every character escaped. */
  function Show(terms: seq<Term>): string
  {
    if terms == [] then "" else ShowTerm(terms[0]) + Show(terms[1..])
  }

  function ShowTerm(t: Term): string
  {
    match t
    case Star => "*"
    case AnyChar => "?"
    case Literal(c) => ['\\', c]
    case Class(negated, ranges) => Opening(negated) + ShowRanges(ranges) + "]"
  }

  function ShowRanges(ranges: seq<Range>): string
  {
    if ranges == [] then "" else ['\\', ranges[0].lo, '-', '\\', ranges[0].hi] + ShowRanges(ranges[1..])
  }

  lemma {:induction false} ParseShownRanges(ranges: seq<Range>, rest: string, sofar: seq<Range>)
    requires sofar + ranges != []
    ensures ParseRanges(ShowRanges(ranges) + "]" + rest, sofar) == Some((sofar + ranges, rest))
    decreases |ranges|
  {
    var p := ShowRanges(ranges) + "]" + rest;
    if ranges == [] {
      assert p == "]" + rest && p[1..] == rest && sofar + ranges == sofar;
    } else {
      var tail := ShowRanges(ranges[1..]) + "]" + rest;
      assert p == ['\\', ranges[0].lo, '-', '\\', ranges[0].hi] + tail;
      assert p[2..] == ['-', '\\', ranges[0].hi] + tail;
      assert p[2..][1..] == ['\\', ranges[0].hi] + tail;
      assert p[2..][1..][2..] == tail;
      assert sofar + ranges == sofar + [ranges[0]] + ranges[1..];
      ParseShownRanges(ranges[1..], rest, sofar + [ranges[0]]);
    }
  }

  function Opening(negated: bool): string { if negated then "[^" else "[" }

  lemma ShownClassLayout(negated: bool, ranges: seq<Range>, rest: string)
    requires ranges != []
    ensures var p := ShowTerm(Class(negated, ranges)) + rest;
      && p[0] == '[' && |p| >= 2 && (p[1] == '^' <==> negated)
      && p[|Opening(negated)|..] == ShowRanges(ranges) + "]" + rest
  {
    var body := ShowRanges(ranges) + "]" + rest;
    assert body[0] == '\\';
    assert ShowTerm(Class(negated, ranges)) + rest == Opening(negated) + body;
  }

  lemma ParseShownClass(negated: bool, ranges: seq<Range>, rest: string)
    requires ranges != []
    ensures ParseTerm(ShowTerm(Class(negated, ranges)) + rest) == Some((Class(negated, ranges), rest))
  {
    ShownClassLayout(negated, ranges, rest);
    ParseShownRanges(ranges, rest, []);
    assert [] + ranges == ranges;
  }

  lemma ParseShownTerm(t: Term, rest: string)
    requires t.Class? ==> t.ranges != []
    ensures ParseTerm(ShowTerm(t) + rest) == Some((t, rest))
  {
    var p := ShowTerm(t) + rest;
    match t
    case Star => assert p[1..] == rest;
    case AnyChar => assert p[1..] == rest;
    case Literal(_) => assert p[2..] == rest;
    case Class(negated, ranges) => ParseShownClass(negated, ranges, rest);
  }

  lemma ParseShownFirst(t: Term, rest: string)
    requires (t.Class? ==> t.ranges != []) && Parse(rest).Some?
    ensures Parse(ShowTerm(t) + rest) == Some([t] + Parse(rest).value)
  {
    ParseShownTerm(t, rest);
    assert ShowTerm(t) != "";
  }

  /** Every list of terms whose classes are not empty is what some pattern parses to. */
  lemma {:induction false} ParseShow(terms: seq<Term>)
    requires forall t <- terms :: t.Class? ==> t.ranges != []
    ensures Parse(Show(terms)) == Some(terms)
    decreases |terms|
  {
    if terms == [] {
    } else {
      var rest := terms[1..];
      ParseShow(rest);
      ParseShownFirst(terms[0], Show(rest));
      assert Show(terms) == ShowTerm(terms[0]) + Show(rest) && terms == [terms[0]] + rest;
    }
  }

  // ---- Which patterns are well formed ------------------------------------------------------------

  // The grammar, from the terms to their spellings: special characters stand for themselves behind a
  // backslash only.

  predicate SpellsChar(c: char, s: string)
  {
    s == ['\\', c] || (s == [c] && c != '\\' && c != '-' && c != ']')
  }

  /** Two characters with a hyphen between them, at n. */
  predicate SpellsPair(r: Range, s: string, n: nat)
  {
    n < |s| && SpellsChar(r.lo, s[..n]) && s[n] == '-' && SpellsChar(r.hi, s[n + 1..])
  }

  ghost predicate SpellsRange(r: Range, s: string)
  {
    (r.lo == r.hi && SpellsChar(r.lo, s)) || exists n: nat :: SpellsPair(r, s, n)
  }

  ghost predicate SpellsRanges(ranges: seq<Range>, s: string)
    decreases |ranges|, 0
  {
    if ranges == [] then s == "" else exists n: nat :: SpellsRangesFrom(ranges, s, n)
  }

  /** The first n characters spell the first range. */
  ghost predicate SpellsRangesFrom(ranges: seq<Range>, s: string, n: nat)
    requires ranges != []
    decreases |ranges| - 1, 1
  {
    0 < n <= |s| && SpellsRange(ranges[0], s[..n]) && SpellsRanges(ranges[1..], s[n..])
  }

  /** A class, from its opening to its closing bracket. */
  ghost predicate SpellsClass(negated: bool, ranges: seq<Range>, s: string)
  {
    var n := |Opening(negated)|;
    && ranges != [] && n < |s| && s[0] == '[' && (negated <==> s[1] == '^') && s[|s| - 1] == ']'
    && SpellsRanges(ranges, s[n..|s| - 1])
  }

  ghost predicate SpellsTerm(t: Term, s: string)
  {
    match t
    case Star => s == "*"
    case AnyChar => s == "?"
    case Literal(c) => s == ['\\', c] || (s == [c] && c != '*' && c != '?' && c != '\\' && c != '[')
    case Class(negated, ranges) => SpellsClass(negated, ranges, s)
  }

  ghost predicate Spells(terms: seq<Term>, p: string)
    decreases |terms|, 0
  {
    if terms == [] then p == "" else exists n: nat :: SpellsFrom(terms, p, n)
  }

  /** The first n characters spell the first term. */
  ghost predicate SpellsFrom(terms: seq<Term>, p: string, n: nat)
    requires terms != []
    decreases |terms| - 1, 1
  {
    0 < n <= |p| && SpellsTerm(terms[0], p[..n]) && Spells(terms[1..], p[n..])
  }

  lemma CharExactly(p: string, n: nat, c: char)
    requires n <= |p|
    ensures SpellsChar(c, p[..n]) ==>
              n > 0 && p[0] != ']' && p[0] != '-' && ParseEscaped(p) == Some((c, p[n..]))
    ensures ParseEscaped(p) == Some((c, p[n..])) ==> SpellsChar(c, p[..n])
  {
    if SpellsChar(c, p[..n]) {
      assert p[..n][0] == p[0] && (n == 2 ==> p[..n][1] == p[1]);
    }
    if ParseEscaped(p) == Some((c, p[n..])) {
      assert n == |p| - |p[n..]|;
    }
  }

  lemma OneCharRange(p: string, sofar: seq<Range>, n: nat, c: char)
    requires n <= |p| && SpellsChar(c, p[..n]) && (n < |p| ==> p[n] != '-')
    ensures ParseRanges(p, sofar) == ParseRanges(p[n..], sofar + [Range(c, c)])
  {
    CharExactly(p, n, c);
  }

  lemma TwoCharRange(p: string, sofar: seq<Range>, n: nat, m: nat, lo: char, hi: char)
    requires n + 1 + m <= |p| && SpellsChar(lo, p[..n]) && p[n] == '-' && SpellsChar(hi, p[n + 1..][..m])
    ensures ParseRanges(p, sofar) == ParseRanges(p[n + 1 + m..], sofar + [Range(lo, hi)])
  {
    CharExactly(p, n, lo);
    CharExactly(p[n + 1..], m, hi);
    assert p[n..][1..] == p[n + 1..] && p[n + 1..][m..] == p[n + 1 + m..];
  }

  lemma PartsOfPrefix(p: string, n: nat, k: nat)
    requires k < n <= |p|
    ensures p[..n][..k] == p[..k] && p[..n][k] == p[k] && p[..n][k + 1..] == p[k + 1..][..n - k - 1]
  {
    var s, t := p[..n][k + 1..], p[k + 1..][..n - k - 1];
    assert |s| == |t| && forall i :: 0 <= i < |s| ==> s[i] == p[k + 1 + i] == t[i];
  }

  lemma ParseSpelledRange(r: Range, p: string, n: nat, sofar: seq<Range>)
    requires n <= |p| && SpellsRange(r, p[..n]) && (n < |p| ==> p[n] != '-')
    ensures ParseRanges(p, sofar) == ParseRanges(p[n..], sofar + [r])
  {
    if r.lo == r.hi && SpellsChar(r.lo, p[..n]) {
      OneCharRange(p, sofar, n, r.lo);
    } else {
      var s := p[..n];
      var k: nat :| SpellsPair(r, s, k);
      PartsOfPrefix(p, n, k);
      TwoCharRange(p, sofar, k, n - k - 1, r.lo, r.hi);
    }
  }

  lemma RangeStarts(r: Range, s: string)
    requires SpellsRange(r, s)
    ensures s != "" && s[0] != '-'
  {
    if n: nat :| SpellsPair(r, s, n) {
      CharExactly(s, n, r.lo);
    } else {
      CharExactly(s, |s|, r.lo);
      assert s[..|s|] == s;
    }
  }

  lemma RangesStart(ranges: seq<Range>, s: string)
    requires SpellsRanges(ranges, s) && s != ""
    ensures s[0] != '-'
  {
    var n: nat :| SpellsRangesFrom(ranges, s, n);
    RangeStarts(ranges[0], s[..n]);
  }

  lemma FirstSpelledRange(ranges: seq<Range>, p: string, n: nat, sofar: seq<Range>) returns (k: nat)
    requires n < |p| && p[n] == ']' && SpellsRanges(ranges, p[..n]) && ranges != []
    ensures 0 < k <= n && SpellsRanges(ranges[1..], p[k..][..n - k])
    ensures ParseRanges(p, sofar) == ParseRanges(p[k..], sofar + [ranges[0]])
  {
    var s := p[..n];
    k :| SpellsRangesFrom(ranges, s, k);
    assert s[..k] == p[..k] && s[k..] == p[k..][..n - k];
    if k < n {
      RangesStart(ranges[1..], s[k..]);
      assert s[k..][0] == p[k];
    }
    ParseSpelledRange(ranges[0], p, k, sofar);
  }

  /** The ranges of a class, up to the closing bracket at n. */
  lemma {:induction false} ParseSpelledRanges(ranges: seq<Range>, p: string, n: nat, sofar: seq<Range>)
    requires n < |p| && p[n] == ']' && SpellsRanges(ranges, p[..n]) && sofar + ranges != []
    ensures ParseRanges(p, sofar) == Some((sofar + ranges, p[n + 1..]))
    decreases |ranges|
  {
    if ranges == [] {
      assert sofar + ranges == sofar;
    } else {
      var k := FirstSpelledRange(ranges, p, n, sofar);
      ParseSpelledRanges(ranges[1..], p[k..], n - k, sofar + [ranges[0]]);
      assert p[k..][n - k + 1..] == p[n + 1..];
      assert sofar + [ranges[0]] + ranges[1..] == sofar + ranges;
    }
  }

  lemma ParseSpelledClass(negated: bool, ranges: seq<Range>, p: string, n: nat)
    requires n <= |p| && SpellsClass(negated, ranges, p[..n])
    ensures ParseTerm(p) == Some((Class(negated, ranges), p[n..]))
  {
    var o := |Opening(negated)|;
    var q := p[o..];
    assert p[..n][0] == p[0] && p[..n][1] == p[1] && p[..n][n - 1] == p[n - 1];
    assert p[..n][o..n - 1] == q[..n - 1 - o];
    ParseSpelledRanges(ranges, q, n - 1 - o, []);
    assert [] + ranges == ranges && q[n - o..] == p[n..];
  }

  lemma ParseSpelledTerm(t: Term, p: string, n: nat)
    requires n <= |p| && SpellsTerm(t, p[..n])
    ensures p != "" && ParseTerm(p) == Some((t, p[n..]))
  {
    if t.Class? {
      ParseSpelledClass(t.negated, t.ranges, p, n);
    } else {
      assert p == p[..n] + p[n..];
    }
  }

  lemma {:induction false} ParseSpelled(terms: seq<Term>, p: string)
    requires Spells(terms, p)
    ensures Parse(p) == Some(terms)
    decreases |terms|
  {
    if terms == [] {
    } else {
      var n: nat :| SpellsFrom(terms, p, n);
      ParseSpelledTerm(terms[0], p, n);
      ParseSpelled(terms[1..], p[n..]);
      assert terms == [terms[0]] + terms[1..];
    }
  }

  /** The first range of a class that parses: what spells it and how the rest is parsed. */
  lemma FirstRangeIsSpelled(p: string, sofar: seq<Range>) returns (r: Range, n: nat)
    requires ParseRanges(p, sofar).Some? && !(p != "" && p[0] == ']' && sofar != [])
    ensures 0 < n <= |p| && SpellsRange(r, p[..n])
    ensures ParseRanges(p, sofar) == ParseRanges(p[n..], sofar + [r])
  {
    var (lo, rest) := ParseEscaped(p).value;
    var k := |p| - |rest|;
    assert p[k..] == rest;
    CharExactly(p, k, lo);
    if rest == "" || rest[0] != '-' {
      r, n := Range(lo, lo), k;
    } else {
      var (hi, rest') := ParseEscaped(rest[1..]).value;
      var m := |rest[1..]| - |rest'|;
      assert p[k + 1..] == rest[1..] && rest[1..][m..] == rest';
      CharExactly(rest[1..], m, hi);
      r, n := Range(lo, hi), k + 1 + m;
      var s := p[..n];
      assert s[..k] == p[..k] && s[k + 1..] == rest[1..][..m] && p[n..] == rest';
      assert SpellsPair(r, s, k);
    }
  }

  /** What a class holds up to its closing bracket, at n - 1, spells its ranges. */
  lemma {:induction false} RangesAreSpelled(p: string, sofar: seq<Range>) returns (ranges: seq<Range>, n: nat)
    requires ParseRanges(p, sofar).Some?
    ensures 0 < n <= |p| && p[n - 1] == ']' && SpellsRanges(ranges, p[..n - 1])
    ensures ParseRanges(p, sofar) == Some((sofar + ranges, p[n..]))
    decreases |p|
  {
    if p != "" && p[0] == ']' && sofar != [] {
      ranges, n := [], 1;
      assert sofar + ranges == sofar;
    } else {
      var r, k := FirstRangeIsSpelled(p, sofar);
      var rest, j := RangesAreSpelled(p[k..], sofar + [r]);
      ranges, n := [r] + rest, k + j;
      assert sofar + [r] + rest == sofar + ranges && p[k..][j..] == p[n..];
      RangesSpelledFrom(r, rest, p, k, n);
    }
  }

  lemma RangesSpelledFrom(r: Range, rest: seq<Range>, p: string, k: nat, n: nat)
    requires 0 < k < n <= |p| && SpellsRange(r, p[..k]) && SpellsRanges(rest, p[k..][..n - 1 - k])
    ensures SpellsRanges([r] + rest, p[..n - 1])
  {
    var s := p[..n - 1];
    assert s[..k] == p[..k] && s[k..] == p[k..][..n - 1 - k] && ([r] + rest)[1..] == rest;
    assert SpellsRangesFrom([r] + rest, s, k);
  }

  lemma ClassIsSpelled(p: string) returns (n: nat)
    requires p != "" && p[0] == '[' && ParseTerm(p).Some?
    ensures 0 < n <= |p| && ParseTerm(p).value.1 == p[n..] && SpellsTerm(ParseTerm(p).value.0, p[..n])
  {
    var negated := |p| >= 2 && p[1] == '^';
    var o := |Opening(negated)|;
    var q := p[o..];
    var ranges, m := RangesAreSpelled(q, []);
    n := o + m;
    var s := p[..n];
    assert q[m..] == p[n..] && s[o..n - 1] == q[..m - 1] && [] + ranges == ranges;
    assert ParseTerm(p) == Some((Class(negated, ranges), p[n..]));
    assert SpellsClass(negated, ranges, s);
  }

  lemma TermIsSpelled(p: string) returns (n: nat)
    requires p != "" && ParseTerm(p).Some?
    ensures 0 < n <= |p| && ParseTerm(p).value.1 == p[n..] && SpellsTerm(ParseTerm(p).value.0, p[..n])
  {
    if p[0] == '[' {
      n := ClassIsSpelled(p);
    } else {
      n := if p[0] == '\\' then 2 else 1;
    }
  }

  lemma {:induction false} ParsedIsSpelled(p: string)
    requires Parse(p).Some?
    ensures Spells(Parse(p).value, p)
    decreases |p|
  {
    if p == "" {
    } else {
      var n := TermIsSpelled(p);
      var terms := Parse(p).value;
      ParsedIsSpelled(p[n..]);
      assert terms[1..] == Parse(p[n..]).value;
      assert SpellsFrom(terms, p, n);
    }
  }

  /** The parser accepts exactly the spellings of the grammar, each as what it spells; everything else is
      malformed. */
  lemma ParseExactly(p: string)
    ensures forall terms :: Spells(terms, p) <==> Parse(p) == Some(terms)
    ensures Parse(p).None? <==> forall terms :: !Spells(terms, p)
  {
    forall terms ensures Spells(terms, p) <==> Parse(p) == Some(terms) {
      if Spells(terms, p) {
        ParseSpelled(terms, p);
      }
      if Parse(p) == Some(terms) {
        ParsedIsSpelled(p);
      }
    }
    assert Parse(p).Some? ==> Spells(Parse(p).value, p);
  }

  // ---- Matching --------------------------------------------------------------------------------

  predicate InRanges(ranges: seq<Range>, c: char)
  {
    exists r <- ranges :: r.lo <= c <= r.hi
  }

  predicate SlashFree(s: string)
  {
    forall i :: 0 <= i < |s| ==> s[i] != '/'
  }

  /** Does a term other than Star take this character? */
  predicate TakesChar(t: Term, c: char)
  {
    match t
    case Star => c != '/'
    case AnyChar => c != '/'
    case Class(negated, ranges) => InRanges(ranges, c) != negated
    case Literal(l) => c == l
  }

  /** The meaning the documentation gives: the terms take the name from left to right, and a star takes
      any run of characters other than '/' that lets the rest match. */
  predicate Matches(terms: seq<Term>, name: string)
    decreases |terms| + |name|
  {
    if terms == [] then name == ""
    else if terms[0] == Star then
      Matches(terms[1..], name) || (name != "" && TakesChar(Star, name[0]) && Matches(terms, name[1..]))
    else name != "" && TakesChar(terms[0], name[0]) && Matches(terms[1..], name[1..])
  }

  // What path.Match does instead is to cut the pattern into chunks, each a run of terms other than
  // stars with or without stars before it, and to settle each chunk where it first fits.

  function SkipStars(terms: seq<Term>): (rest: seq<Term>)
    ensures |rest| <= |terms| && (rest != [] ==> rest[0] != Star)
    ensures forall t :: t in rest ==> t in terms
    ensures terms != [] && terms[0] != Star ==> rest == terms
  {
    if terms != [] && terms[0] == Star then SkipStars(terms[1..]) else terms
  }

  function ChunkLength(terms: seq<Term>): (n: nat)
    ensures n <= |terms| && (forall i :: 0 <= i < n ==> terms[i] != Star)
    ensures n < |terms| ==> terms[n] == Star
  {
    if terms == [] || terms[0] == Star then 0 else 1 + ChunkLength(terms[1..])
  }

  /** Does the chunk take the first |chunk| characters of the name, one each? */
  predicate Fits(chunk: seq<Term>, name: string)
  {
    && |chunk| <= |name|
    && forall i {:trigger TakesChar(chunk[i], name[i])} :: 0 <= i < |chunk| ==> TakesChar(chunk[i], name[i])
  }

  /** What is left of the name behind the first place where the chunk fits. Only a chunk behind a star
      may skip characters, and no '/'; the last chunk has to use the name up. */
  function FirstFit(star: bool, chunk: seq<Term>, name: string, last: bool): (left: Option<string>)
    ensures left.Some? && last ==> left.value == ""
  {
    if Fits(chunk, name) && (|chunk| == |name| || !last) then Some(name[|chunk|..])
    else if star && name != "" && name[0] != '/' then FirstFit(star, chunk, name[1..], last)
    else None
  }

  /** path.Match on a well-formed pattern. A chunk once settled is never moved. */
  predicate Scan(terms: seq<Term>, name: string)
    decreases |terms|
  {
    if terms == [] then name == ""
    else
      var body := SkipStars(terms);
      var n := ChunkLength(body);
      if body == [] then SlashFree(name)
      else
        var left := FirstFit(terms[0] == Star, body[..n], name, n == |body|);
        left.Some? && Scan(body[n..], left.value)
  }

  /** path.Match: whether the pattern is malformed does not depend on the name. */
  function PathMatch(pattern: string, name: string): Verdict
  {
    match Parse(pattern)
    case None => BadPattern
    case Some(terms) => if Scan(terms, name) then Matched else NotMatched
  }

  // ---- The scan against the documented meaning ---------------------------------------------------

  /** Places in a name, seen from its second character. */
  lemma FromSecond(name: string, k: nat)
    requires 0 < k <= |name|
    ensures name[k..] == name[1..][k - 1..]
    ensures SlashFree(name[..k]) <==> name[0] != '/' && SlashFree(name[1..][..k - 1])
  {
    assert name[..k] == [name[0]] + name[1..][..k - 1];
  }

  /** Stars in front take some slash-free part of the name. */
  lemma {:induction false} StarsTake(terms: seq<Term>, name: string) returns (k: nat)
    requires terms != [] && terms[0] == Star && Matches(terms, name)
    ensures k <= |name| && SlashFree(name[..k]) && Matches(SkipStars(terms), name[k..])
    decreases |terms| + |name|
  {
    if !Matches(terms[1..], name) {
      var j := StarsTake(terms, name[1..]);
      k := j + 1;
      FromSecond(name, k);
    } else if |terms| > 1 && terms[1] == Star {
      k := StarsTake(terms[1..], name);
    } else {
      k := 0;
      assert SkipStars(terms) == terms[1..] && name[0..] == name;
    }
  }

  /** They may take any. */
  lemma {:induction false} StarsMayTake(terms: seq<Term>, name: string, k: nat)
    requires terms != [] && terms[0] == Star && k <= |name| && SlashFree(name[..k])
    requires Matches(SkipStars(terms), name[k..]) || Matches(terms, name[k..])
    ensures Matches(terms, name)
    decreases |terms| + |name|
  {
    if k > 0 {
      FromSecond(name, k);
      StarsMayTake(terms, name[1..], k - 1);
    } else {
      assert name[0..] == name;
      if |terms| > 1 && terms[1] == Star && !Matches(terms, name) {
        StarsMayTake(terms[1..], name, 0);
      }
    }
  }

  /** Terms other than stars take one character each. */
  lemma {:induction false} ChunkTakes(terms: seq<Term>, n: nat, name: string)
    requires n <= |terms| && forall i :: 0 <= i < n ==> terms[i] != Star
    ensures Matches(terms, name) <==> Fits(terms[..n], name) && Matches(terms[n..], name[n..])
    decreases n
  {
    if n == 0 {
      assert terms[0..] == terms && name[0..] == name;
    } else if name != "" {
      ChunkTakes(terms[1..], n - 1, name[1..]);
      assert terms[1..][n - 1..] == terms[n..] && terms[1..][..n - 1] == terms[..n][1..];
      assert n <= |name| ==> name[1..][n - 1..] == name[n..];
      FitsCons(terms[..n], name);
    }
  }

  lemma FitsCons(chunk: seq<Term>, name: string)
    requires chunk != [] && name != ""
    ensures Fits(chunk, name) <==> TakesChar(chunk[0], name[0]) && Fits(chunk[1..], name[1..])
  {
    if TakesChar(chunk[0], name[0]) && Fits(chunk[1..], name[1..]) {
      forall i | 0 <= i < |chunk| ensures TakesChar(chunk[i], name[i]) {
        assert i > 0 ==> chunk[i] == chunk[1..][i - 1] && name[i] == name[1..][i - 1];
      }
    }
  }

  /** Where the chunk first fits: at some place behind a slash-free part, which is empty without a star. */
  lemma {:induction false} FirstFitPlace(star: bool, chunk: seq<Term>, name: string, last: bool) returns (k: nat)
    requires FirstFit(star, chunk, name, last).Some?
    ensures k + |chunk| <= |name| && (star || k == 0)
    ensures SlashFree(name[..k]) && Fits(chunk, name[k..])
    ensures FirstFit(star, chunk, name, last).value == name[k + |chunk|..]
    decreases |name|
  {
    if Fits(chunk, name) && (|chunk| == |name| || !last) {
      k := 0;
      assert name[0..] == name;
    } else {
      var j := FirstFitPlace(star, chunk, name[1..], last);
      k := j + 1;
      FromSecond(name, k);
      assert name[1..][j + |chunk|..] == name[k + |chunk|..];
    }
  }

  /** Wherever the chunk fits, it first fits there or before. */
  lemma {:induction false} FirstFitIsFirst(star: bool, chunk: seq<Term>, name: string, last: bool, k: nat)
    returns (first: nat)
    requires k + |chunk| <= |name| && (star || k == 0) && (last ==> k + |chunk| == |name|)
    requires SlashFree(name[..k]) && Fits(chunk, name[k..])
    ensures first <= k && Fits(chunk, name[first..])
    ensures FirstFit(star, chunk, name, last) == Some(name[first + |chunk|..])
    decreases |name|
  {
    if k == 0 || (Fits(chunk, name) && (|chunk| == |name| || !last)) {
      first := 0;
      assert name[0..] == name;
    } else {
      FromSecond(name, k);
      var j := FirstFitIsFirst(star, chunk, name[1..], last, k - 1);
      first := j + 1;
      FromSecond(name, first);
      assert name[1..][j + |chunk|..] == name[first + |chunk|..];
    }
  }

  /** The stars in front, a chunk that fits behind them and a match of the rest make a match. */
  lemma PlaceMatches(terms: seq<Term>, body: seq<Term>, n: nat, name: string, k: nat)
    requires terms != [] && k <= |name| && SlashFree(name[..k]) && (terms[0] != Star ==> k == 0)
    requires body == SkipStars(terms) && n <= |body| && forall i :: 0 <= i < n ==> body[i] != Star
    requires k + n <= |name| && Fits(body[..n], name[k..]) && Matches(body[n..], name[k + n..])
    ensures Matches(terms, name)
  {
    ChunkThenRest(body, n, name, k);
    if terms[0] == Star {
      StarsMayTake(terms, name, k);
    } else {
      assert name[0..] == name;
    }
  }

  lemma ChunkThenRest(body: seq<Term>, n: nat, name: string, k: nat)
    requires n <= |body| && (forall i :: 0 <= i < n ==> body[i] != Star) && k + n <= |name|
    requires Fits(body[..n], name[k..]) && Matches(body[n..], name[k + n..])
    ensures Matches(body, name[k..])
  {
    assert name[k..][n..] == name[k + n..];
    ChunkTakes(body, n, name[k..]);
  }

  lemma ScanSettles(terms: seq<Term>, name: string) returns (left: string)
    requires Scan(terms, name) && SkipStars(terms) != []
    ensures var body := SkipStars(terms); var n := ChunkLength(body);
      FirstFit(terms[0] == Star, body[..n], name, n == |body|) == Some(left) && Scan(body[n..], left)
  {
    var body := SkipStars(terms);
    var n := ChunkLength(body);
    left := FirstFit(terms[0] == Star, body[..n], name, n == |body|).value;
  }

  /** Where the scan settles the first chunk, and how long that is. */
  lemma ScanPlace(terms: seq<Term>, name: string) returns (k: nat, n: nat)
    requires Scan(terms, name) && SkipStars(terms) != []
    ensures terms[0] != Star ==> k == 0
    ensures 0 < n <= |SkipStars(terms)| && forall i :: 0 <= i < n ==> SkipStars(terms)[i] != Star
    ensures k + n <= |name| && SlashFree(name[..k]) && Fits(SkipStars(terms)[..n], name[k..])
    ensures Scan(SkipStars(terms)[n..], name[k + n..])
  {
    var body := SkipStars(terms);
    n := ChunkLength(body);
    var left := ScanSettles(terms, name);
    var chunk := body[..n];
    k := FirstFitPlace(terms[0] == Star, chunk, name, n == |body|);
    assert |chunk| == n && left == name[k + n..];
  }

  /** The scan accepts nothing that the documented meaning does not. */
  lemma {:induction false} ScanIsSound(terms: seq<Term>, name: string)
    requires Scan(terms, name)
    ensures Matches(terms, name)
    decreases |terms|
  {
    var body := SkipStars(terms);
    if terms == [] {
    } else if body == [] {
      StarsAlone(terms, name);
    } else {
      var k, n := ScanPlace(terms, name);
      ScanIsSound(body[n..], name[k + n..]);
      PlaceMatches(terms, body, n, name, k);
    }
  }

  lemma StarsAlone(terms: seq<Term>, name: string)
    requires terms != [] && SkipStars(terms) == [] && SlashFree(name)
    ensures Matches(terms, name)
  {
    assert name[..|name|] == name && name[|name|..] == "";
    StarsMayTake(terms, name, |name|);
  }

  /** A chunk slips on a name that it fits twice, the second time behind a slash-free part, with a slash
      past the end of the first place: settled there, the next star cannot get to the second. */
  ghost predicate SlipsOn(chunk: seq<Term>, name: string, k: nat)
  {
    && |name| == k + |chunk| && Fits(chunk, name) && Fits(chunk, name[k..])
    && SlashFree(name[..k]) && !SlashFree(name[|chunk|..])
  }

  /** With the chunk placed at 0 and again at k, may the i-th character be this one? */
  predicate Admits(chunk: seq<Term>, k: nat, i: nat, c: char)
  {
    && (i < k ==> c != '/')
    && (i < |chunk| ==> TakesChar(chunk[i], c))
    && (k <= i < k + |chunk| ==> TakesChar(chunk[i - k], c))
  }

  predicate AdmitsSome(chunk: seq<Term>, k: nat, i: nat) { exists c: char :: Admits(chunk, k, i, c) }

  /** Every position that the two places cover admits some character, and one past the first a slash. */
  predicate SlipsBy(chunk: seq<Term>, k: nat)
  {
    && (forall i: nat :: i < k + |chunk| ==> AdmitsSome(chunk, k, i))
    && (exists i: nat :: |chunk| <= i < k + |chunk| && Admits(chunk, k, i, '/'))
  }

  /** Does the chunk slip on some name? A check of the pattern alone, position by position, for shifts up
      to the chunk's own length. */
  predicate Slips(chunk: seq<Term>)
  {
    exists k: nat :: k <= |chunk| && SlipsBy(chunk, k)
  }

  lemma SlipsByItsName(chunk: seq<Term>, name: string, k: nat)
    requires SlipsOn(chunk, name, k)
    ensures SlipsBy(chunk, k)
  {
    forall i: nat | i < k + |chunk| ensures AdmitsSome(chunk, k, i) {
      assert i < k ==> name[..k][i] == name[i];
      assert i < |chunk| ==> TakesChar(chunk[i], name[i]);
      assert k <= i ==> TakesChar(chunk[i - k], name[k..][i - k]);
      assert Admits(chunk, k, i, name[i]);
    }
    var i :| |chunk| <= i < |name| && name[i] == '/';
    assert forall j :: 0 <= j < k ==> name[..k][j] == name[j];
    assert TakesChar(chunk[i - k], name[k..][i - k]);
    assert Admits(chunk, k, i, '/');
  }

  /** A chunk that slips at a shift beyond its length slips at its length: the gap can be cut out. */
  lemma CutGap(chunk: seq<Term>, name: string, k: nat)
    requires SlipsOn(chunk, name, k) && k > |chunk|
    ensures SlipsOn(chunk, name[..|chunk|] + name[k..], |chunk|)
  {
    var n := |chunk|;
    var cut := name[..n] + name[k..];
    assert cut[..n] == name[..n] && cut[n..] == name[k..];
    forall i | 0 <= i < n ensures cut[i] != '/' && TakesChar(chunk[i], cut[i]) {
      assert name[..k][i] == cut[i] && TakesChar(chunk[i], name[i]);
    }
    var i :| n <= i < |name| && name[i] == '/';
    assert forall j :: 0 <= j < k ==> name[..k][j] == name[j];
    assert cut[n..][i - k] == '/';
  }

  ghost function Admitted(chunk: seq<Term>, k: nat, i: nat): (c: char)
    requires SlipsBy(chunk, k) && i < k + |chunk|
    ensures Admits(chunk, k, i, c)
  {
    assert AdmitsSome(chunk, k, i);
    var c: char :| Admits(chunk, k, i, c);
    c
  }

  /** A name made of admitted characters. */
  lemma SlipName(chunk: seq<Term>, k: nat) returns (name: string)
    requires SlipsBy(chunk, k)
    ensures SlipsOn(chunk, name, k)
  {
    var s: nat :| |chunk| <= s < k + |chunk| && Admits(chunk, k, s, '/');
    name := seq(k + |chunk|, i requires 0 <= i < k + |chunk| => if i == s then '/' else Admitted(chunk, k, i));
    forall i | 0 <= i < |chunk| ensures TakesChar(chunk[i], name[i]) && TakesChar(chunk[i], name[k..][i]) {
      assert Admits(chunk, k, i, name[i]) && Admits(chunk, k, k + i, name[k + i]);
    }
    forall i | 0 <= i < k ensures name[..k][i] != '/' {
      assert Admits(chunk, k, i, name[i]);
    }
    assert name[|chunk|..][s - |chunk|] == '/';
  }

  /** The check is exact: it finds a chunk to slip if and only if it slips on some name. */
  lemma SlipsExactly(chunk: seq<Term>)
    ensures Slips(chunk) <==> exists name, k: nat :: SlipsOn(chunk, name, k)
  {
    if k: nat :| k <= |chunk| && SlipsBy(chunk, k) {
      var name := SlipName(chunk, k);
    }
    if name, k: nat :| SlipsOn(chunk, name, k) {
      if k <= |chunk| {
        SlipsByItsName(chunk, name, k);
      } else {
        CutGap(chunk, name, k);
        SlipsByItsName(chunk, name[..|chunk|] + name[k..], |chunk|);
      }
    }
  }

  /** No chunk between two stars slips. */
  predicate SlipFree(terms: seq<Term>)
    decreases |terms|
  {
    var body := SkipStars(terms);
    var n := ChunkLength(body);
    terms == [] || body == []
    || ((terms[0] == Star && n < |body| ==> !Slips(body[..n])) && SlipFree(body[n..]))
  }

  lemma GapTaken(rest: seq<Term>, name: string, from: nat, to: nat)
    requires rest != [] && rest[0] == Star && from <= to <= |name|
    requires SlashFree(name[from..to]) && Matches(rest, name[to..])
    ensures Matches(rest, name[from..])
  {
    var left := name[from..];
    assert left[..to - from] == name[from..to] && left[to - from..] == name[to..];
    StarsMayTake(rest, left, to - from);
  }

  lemma SkippedIsSlashFree(chunk: seq<Term>, name: string, first: nat, k: nat)
    requires first <= k && k + |chunk| <= |name| && SlashFree(name[..k])
    requires Fits(chunk, name[first..]) && Fits(chunk, name[k..]) && !Slips(chunk)
    ensures SlashFree(name[first + |chunk|..k + |chunk|])
  {
    var part := name[first..k + |chunk|];
    assert part[..k - first] == name[..k][first..] && part[k - first..] == name[k..k + |chunk|];
    assert part[|chunk|..] == name[first + |chunk|..k + |chunk|];
    SlipsExactly(chunk);
    assert !SlipsOn(chunk, part, k - first);
  }

  /** What a chunk settled too early leaves over the next star takes, unless it slips. */
  lemma FirstFitWillDo(chunk: seq<Term>, rest: seq<Term>, star: bool, name: string, k: nat) returns (left: string)
    requires (rest != [] ==> rest[0] == Star) && (star && rest != [] ==> !Slips(chunk))
    requires k + |chunk| <= |name| && SlashFree(name[..k]) && (star || k == 0)
    requires Fits(chunk, name[k..]) && Matches(rest, name[k + |chunk|..])
    ensures FirstFit(star, chunk, name, rest == []) == Some(left) && Matches(rest, left)
  {
    var first := FirstFitIsFirst(star, chunk, name, rest == [], k);
    left := name[first + |chunk|..];
    if rest != [] && star {
      SkippedIsSlashFree(chunk, name, first, k);
      GapTaken(rest, name, first + |chunk|, k + |chunk|);
    }
  }

  /** Without slipping the scan accepts everything that the documented meaning does. */
  lemma {:induction false} ScanIsComplete(terms: seq<Term>, name: string)
    requires SlipFree(terms) && Matches(terms, name)
    ensures Scan(terms, name)
    decreases |terms|
  {
    var body := SkipStars(terms);
    var k := 0;
    assert name[0..] == name;
    if terms == [] {
    } else {
      if terms[0] == Star {
        k := StarsTake(terms, name);
      }
      if body == [] {
        assert name[..k] == name;
      } else {
        var n := ChunkLength(body);
        ChunkTakes(body, n, name[k..]);
        assert name[k..][n..] == name[k + n..];
        var left := FirstFitWillDo(body[..n], body[n..], terms[0] == Star, name, k);
        ScanIsComplete(body[n..], left);
      }
    }
  }

  function Slashes(s: string): nat
  {
    if s == "" then 0 else (if s[0] == '/' then 1 else 0) + Slashes(s[1..])
  }

  lemma {:induction false} SlashesAdd(s: string, t: string)
    ensures Slashes(s + t) == Slashes(s) + Slashes(t)
    ensures SlashFree(s) <==> Slashes(s) == 0
    decreases |s|
  {
    if s == "" {
      assert s + t == t;
    } else {
      assert (s + t)[1..] == s[1..] + t && s == [s[0]] + s[1..];
      SlashesAdd(s[1..], t);
    }
  }

  /** How many terms take a slash. */
  function MostSlashes(terms: seq<Term>): nat
  {
    if terms == [] then 0 else (if TakesChar(terms[0], '/') then 1 else 0) + MostSlashes(terms[1..])
  }

  lemma {:induction false} MatchHasMostSlashes(terms: seq<Term>, name: string)
    requires Matches(terms, name)
    ensures Slashes(name) <= MostSlashes(terms)
    decreases |terms| + |name|
  {
    if terms == [] {
    } else if terms[0] != Star {
      MatchHasMostSlashes(terms[1..], name[1..]);
    } else if Matches(terms[1..], name) {
      MatchHasMostSlashes(terms[1..], name);
    } else {
      MatchHasMostSlashes(terms, name[1..]);
    }
  }

  /** Every class takes some character. */
  predicate EveryClassInhabited(terms: seq<Term>)
  {
    forall t <- terms :: t.Class? ==> exists c: char :: TakesChar(t, c)
  }

  lemma {:induction false} MatchInhabitsClasses(terms: seq<Term>, name: string)
    requires Matches(terms, name)
    ensures EveryClassInhabited(terms)
    decreases |terms| + |name|
  {
    if terms == [] {
    } else if terms[0] != Star {
      MatchInhabitsClasses(terms[1..], name[1..]);
    } else if Matches(terms[1..], name) {
      MatchInhabitsClasses(terms[1..], name);
    } else {
      MatchInhabitsClasses(terms, name[1..]);
    }
  }

  function WithoutStars(terms: seq<Term>): seq<Term>
  {
    if terms == [] then []
    else if terms[0] == Star then WithoutStars(terms[1..])
    else [terms[0]] + WithoutStars(terms[1..])
  }

  lemma {:induction false} WithoutStarsSkips(terms: seq<Term>)
    ensures WithoutStars(terms) == WithoutStars(SkipStars(terms))
    decreases |terms|
  {
    if terms == [] || terms[0] != Star {
    } else {
      WithoutStarsSkips(terms[1..]);
    }
  }

  lemma {:induction false} WithoutStarsChunk(terms: seq<Term>, n: nat)
    requires n <= |terms| && forall i :: 0 <= i < n ==> terms[i] != Star
    ensures WithoutStars(terms) == terms[..n] + WithoutStars(terms[n..])
    decreases n
  {
    if n == 0 {
      assert terms[0..] == terms;
    } else {
      WithoutStarsChunk(terms[1..], n - 1);
      assert terms[1..][n - 1..] == terms[n..] && terms[..n] == [terms[0]] + terms[1..][..n - 1];
    }
  }

  /** The scan takes stars for empty wherever that fits. */
  lemma {:induction false} ScanTakesEmptyStars(terms: seq<Term>, name: string)
    requires |WithoutStars(terms)| == |name| && Fits(WithoutStars(terms), name)
    ensures Scan(terms, name)
    decreases |terms|
  {
    var body := SkipStars(terms);
    var n := ChunkLength(body);
    WithoutStarsSkips(terms);
    WithoutStarsChunk(body, n);
    if terms == [] || body == [] {
    } else {
      var rest := WithoutStars(body[n..]);
      forall i | 0 <= i < n ensures TakesChar(body[..n][i], name[i]) {
        assert WithoutStars(terms)[i] == body[i];
      }
      forall i | 0 <= i < |rest| ensures TakesChar(rest[i], name[n..][i]) {
        assert WithoutStars(terms)[n + i] == rest[i];
      }
      ScanTakesEmptyStars(body[n..], name[n..]);
    }
  }

  /** A name with a character for each term, a slash wherever the term takes one. */
  lemma {:induction false} SlashiestName(terms: seq<Term>) returns (name: string)
    requires EveryClassInhabited(terms)
    ensures |WithoutStars(terms)| == |name| && Fits(WithoutStars(terms), name)
    ensures Slashes(name) == MostSlashes(terms)
    decreases |terms|
  {
    if terms == [] {
      name := "";
    } else {
      var rest := SlashiestName(terms[1..]);
      if terms[0] == Star {
        name := rest;
      } else {
        var c := if TakesChar(terms[0], '/') then '/' else SomeTaken(terms[0]);
        name := [c] + rest;
        assert name[1..] == rest && WithoutStars(terms)[1..] == WithoutStars(terms[1..]);
        FitsCons(WithoutStars(terms), name);
      }
    }
  }

  ghost function SomeTaken(t: Term): (c: char)
    requires t != Star && (t.Class? ==> exists c: char :: TakesChar(t, c))
    ensures TakesChar(t, c)
  {
    match t
    case Star => 'a'
    case AnyChar => 'a'
    case Literal(l) => l
    case Class(_, _) => var c :| TakesChar(t, c); c
  }

  lemma SuffixInhabited(terms: seq<Term>, n: nat)
    requires EveryClassInhabited(terms) && n <= |SkipStars(terms)|
    ensures EveryClassInhabited(SkipStars(terms)[n..]) && EveryClassInhabited(SkipStars(terms)[..n])
  {
  }

  /** A head for the stars and the first chunk, and a tail. */
  ghost predicate Heads(terms: seq<Term>, head: string, k: nat)
    requires terms != []
  {
    var body := SkipStars(terms);
    var chunk := body[..ChunkLength(body)];
    && |head| == k + |chunk| && SlashFree(head[..k]) && (terms[0] != Star ==> k == 0)
    && Fits(chunk, head) && Fits(chunk, head[k..])
  }

  lemma HeadThenTail(terms: seq<Term>, head: string, k: nat, tail: string)
    requires terms != [] && Heads(terms, head, k)
    ensures var body := SkipStars(terms); var n := ChunkLength(body);
      && (Matches(body[n..], tail) ==> Matches(terms, head + tail))
      && (n < |body| && !Scan(body[n..], head[n..] + tail) ==> !Scan(terms, head + tail))
  {
    var body := SkipStars(terms);
    var n := ChunkLength(body);
    var name := head + tail;
    forall i | 0 <= i < n ensures TakesChar(body[..n][i], name[i]) && TakesChar(body[..n][i], name[k..][i]) {
      assert name[i] == head[i] && name[k..][i] == head[k..][i];
    }
    assert Fits(body[..n], name) && name[n..] == head[n..] + tail;
    if Matches(body[n..], tail) {
      assert name[k + n..] == tail && name[..k] == head[..k];
      PlaceMatches(terms, body, n, name, k);
    }
    if n < |body| {
      assert FirstFit(terms[0] == Star, body[..n], name, false) == Some(name[n..]);
    }
  }

  lemma SlippingHead(terms: seq<Term>) returns (name: string)
    requires EveryClassInhabited(terms) && terms != [] && terms[0] == Star
    requires var body := SkipStars(terms); var n := ChunkLength(body); n < |body| && Slips(body[..n])
    ensures Matches(terms, name) && !Scan(terms, name)
  {
    var body := SkipStars(terms);
    var n := ChunkLength(body);
    SlipsExactly(body[..n]);
    var head, k: nat :| SlipsOn(body[..n], head, k);
    SuffixInhabited(terms, n);
    var tail := SlashiestName(body[n..]);
    ScanTakesEmptyStars(body[n..], tail);
    ScanIsSound(body[n..], tail);
    SlipLeavesTooManySlashes(body[..n], body[n..], head, k, tail);
    name := head + tail;
    HeadThenTail(terms, head, k, tail);
  }

  lemma SlipLeavesTooManySlashes(chunk: seq<Term>, rest: seq<Term>, head: string, k: nat, tail: string)
    requires SlipsOn(chunk, head, k) && Slashes(tail) == MostSlashes(rest)
    ensures !Scan(rest, head[|chunk|..] + tail)
  {
    SlashesAdd(head[|chunk|..], tail);
    if Scan(rest, head[|chunk|..] + tail) {
      ScanIsSound(rest, head[|chunk|..] + tail);
      MatchHasMostSlashes(rest, head[|chunk|..] + tail);
      assert false;
    }
  }

  lemma ChunkFilled(terms: seq<Term>) returns (head: string)
    requires EveryClassInhabited(terms) && terms != []
    ensures Heads(terms, head, 0)
  {
    var body := SkipStars(terms);
    var n := ChunkLength(body);
    SuffixInhabited(terms, n);
    head := SlashiestName(body[..n]);
    WithoutStarsChunk(body[..n], n);
    assert body[..n][..n] + WithoutStars(body[..n][n..]) == body[..n] && head[0..] == head;
  }

  /** A pattern in which a chunk slips refuses a name that its documented meaning accepts. */
  lemma {:induction false} SlippedName(terms: seq<Term>) returns (name: string)
    requires EveryClassInhabited(terms) && !SlipFree(terms)
    ensures Matches(terms, name) && !Scan(terms, name)
    decreases |terms|
  {
    var body := SkipStars(terms);
    var n := ChunkLength(body);
    if terms[0] == Star && n < |body| && Slips(body[..n]) {
      name := SlippingHead(terms);
    } else {
      SuffixInhabited(terms, n);
      var tail := SlippedName(body[n..]);
      var head := ChunkFilled(terms);
      assert head[n..] + tail == tail;
      name := head + tail;
      HeadThenTail(terms, head, 0, tail);
    }
  }

  ghost predicate ScanAsDocumented(terms: seq<Term>)
  {
    forall name :: Scan(terms, name) <==> Matches(terms, name)
  }

  /** path.Match does what its documentation says on every name if and only if no chunk between two
      stars slips (or some class takes nothing, and the pattern matches nothing either way). Both are
      checks of the pattern. */
  lemma DocumentedExactly(terms: seq<Term>)
    ensures ScanAsDocumented(terms) <==> SlipFree(terms) || !EveryClassInhabited(terms)
  {
    if SlipFree(terms) || !EveryClassInhabited(terms) {
      forall name ensures Scan(terms, name) <==> Matches(terms, name) {
        if Scan(terms, name) {
          ScanIsSound(terms, name);
        } else if Matches(terms, name) {
          MatchInhabitsClasses(terms, name);
          ScanIsComplete(terms, name);
        }
      }
    } else {
      var name := SlippedName(terms);
    }
  }

  /** Every term that takes a slash takes nothing else: true without classes, and with classes that
      avoid the slash. */
  ghost predicate SlashDecided(terms: seq<Term>)
  {
    forall t <- terms :: TakesChar(t, '/') ==> forall c :: TakesChar(t, c) ==> c == '/'
  }

  lemma {:induction false} NoSlashInChunk(chunk: seq<Term>, name: string, k: nat, j: nat)
    requires SlashDecided(chunk) && 0 < k && k + |chunk| == |name| && SlashFree(name[..k])
    requires Fits(chunk, name) && Fits(chunk, name[k..])
    requires j < |chunk|
    ensures name[j] != '/' && name[k + j] != '/'
    decreases j
  {
    assert chunk[j] in chunk && TakesChar(chunk[j], name[j]) && TakesChar(chunk[j], name[k..][j]);
    if j < k {
      assert name[..k][j] == name[j];
    } else {
      NoSlashInChunk(chunk, name, k, j - k);
    }
  }

  lemma DecidedChunksHold(chunk: seq<Term>)
    requires SlashDecided(chunk)
    ensures !Slips(chunk)
  {
    SlipsExactly(chunk);
    forall name, k: nat
      ensures !SlipsOn(chunk, name, k)
    {
      if |name| == k + |chunk| && Fits(chunk, name) && Fits(chunk, name[k..]) && SlashFree(name[..k]) {
        forall i | |chunk| <= i < |name| ensures name[i] != '/' {
          if i < k {
            assert name[..k][i] == name[i];
          } else {
            NoSlashInChunk(chunk, name, k, i - k);
          }
        }
      }
    }
  }

  /** With slashes decided the scan is as documented. */
  lemma {:induction false} DecidedIsSlipFree(terms: seq<Term>)
    requires SlashDecided(terms)
    ensures SlipFree(terms)
    decreases |terms|
  {
    var body := SkipStars(terms);
    if terms == [] || body == [] {
    } else {
      var n := ChunkLength(body);
      DecidedChunksHold(body[..n]);
      DecidedIsSlipFree(body[n..]);
    }
  }

  lemma DecidedScan(terms: seq<Term>, name: string)
    requires SlashDecided(terms)
    ensures Scan(terms, name) <==> Matches(terms, name)
  {
    DecidedIsSlipFree(terms);
    DocumentedExactly(terms);
    assert ScanAsDocumented(terms);
  }

  /** A single term between two stars slips exactly when it takes a slash and some other character. */
  lemma SingleTermSlips(t: Term)
    ensures Slips([t]) <==> !SlashDecided([t])
  {
    assert t in [t];
    if SlashDecided([t]) {
      DecidedChunksHold([t]);
    } else {
      var c :| TakesChar(t, c) && c != '/';
      assert [c, '/'][1..] == "/" && "/"[0] == '/' && [c, '/'][..1] == [c];
      assert SlipsOn([t], [c, '/'], 1);
      SlipsExactly([t]);
    }
  }

  lemma SettledTooEarly(t: Term, c: char)
    requires t != Star && TakesChar(t, '/') && TakesChar(t, c) && c != '/'
    ensures Matches([Star, t, Star], [c, '/']) && !Scan([Star, t, Star], [c, '/'])
  {
    var terms, name := [Star, t, Star], [c, '/'];
    assert terms[1..] == [t, Star] && [t, Star][1..] == [Star] && [Star][1..] == [];
    assert name[1..] == "/" && "/"[1..] == "";
    assert Matches([Star], "") && Matches([t, Star], "/");
    assert SkipStars(terms) == [t, Star] && ChunkLength([t, Star]) == 1 && [t, Star][..1] == [t];
    assert FirstFit(true, [t], name, false) == Some("/");
    assert SkipStars([Star]) == [] && "/"[0] == '/' && !Scan([Star], "/");
  }

  /** An instance: [^b] takes "a" and the slash, so the scan settles it on "a" and then refuses "a/". */
  lemma NegatedClassSlips()
    ensures Parse("*[^b]*").Some? && Matches(Parse("*[^b]*").value, "a/")
    ensures PathMatch("*[^b]*", "a/") == NotMatched
  {
    var t := Class(true, [Range('b', 'b')]);
    var terms := [Star, t, Star];
    assert "*"[1..] == "" && "]*"[1..] == "*" && "b]*"[1..] == "]*" && "[^b]*"[2..] == "b]*";
    assert ParseRanges("]*", [Range('b', 'b')]) == Some(([Range('b', 'b')], "*"));
    assert ParseRanges("b]*", []) == ParseRanges("]*", [] + [Range('b', 'b')]);
    assert [] + [Range('b', 'b')] == [Range('b', 'b')];
    assert ParseTerm("[^b]*") == Some((t, "*")) && "*[^b]*"[1..] == "[^b]*";
    assert Parse("*") == Some([Star] + []);
    assert Parse("[^b]*") == Some([t] + Parse("*").value);
    assert ParseTerm("*[^b]*") == Some((Star, "[^b]*"));
    assert Parse("*[^b]*") == Some([Star] + Parse("[^b]*").value);
    assert Parse("*[^b]*").value == terms;
    SettledTooEarly(t, 'a');
  }

  // ---- What a match means ----------------------------------------------------------------------

  /** A term on its own describes a set of strings. */
  ghost predicate Describes(t: Term, piece: string)
  {
    if t == Star then SlashFree(piece) else |piece| == 1 && TakesChar(t, piece[0])
  }

  function Concat(pieces: seq<string>): string
  {
    if pieces == [] then "" else pieces[0] + Concat(pieces[1..])
  }

  ghost predicate Splits(terms: seq<Term>, name: string, pieces: seq<string>)
  {
    && |pieces| == |terms| && Concat(pieces) == name
    && forall i :: 0 <= i < |terms| ==> Describes(terms[i], pieces[i])
  }

  lemma {:induction false} MatchSplits(terms: seq<Term>, name: string) returns (pieces: seq<string>)
    requires Matches(terms, name)
    ensures Splits(terms, name, pieces)
    decreases |terms| + |name|
  {
    if terms == [] {
      pieces := [];
    } else if terms[0] != Star {
      var rest := MatchSplits(terms[1..], name[1..]);
      pieces := [name[..1]] + rest;
    } else if Matches(terms[1..], name) {
      var rest := MatchSplits(terms[1..], name);
      pieces := [""] + rest;
    } else {
      var rest := MatchSplits(terms, name[1..]);
      pieces := [name[..1] + rest[0]] + rest[1..];
      assert Concat(pieces) == name[..1] + rest[0] + Concat(rest[1..]);
    }
  }

  lemma {:induction false} SplitMatches(terms: seq<Term>, name: string, pieces: seq<string>)
    requires Splits(terms, name, pieces)
    ensures Matches(terms, name)
    decreases |terms| + |name|
  {
    if terms == [] {
    } else {
      var p := pieces[0];
      if p == "" {
        SplitMatches(terms[1..], name, pieces[1..]);
      } else if terms[0] != Star {
        assert name[1..] == Concat(pieces[1..]);
        SplitMatches(terms[1..], name[1..], pieces[1..]);
      } else {
        assert name[1..] == p[1..] + Concat(pieces[1..]);
        SplitMatches(terms, name[1..], [p[1..]] + pieces[1..]);
      }
    }
  }

  /** The documented meaning: exactly the names that can be cut into one piece per term, each piece
      described by its term, match. */
  lemma MatchMeaning(terms: seq<Term>, name: string)
    ensures Matches(terms, name) <==> exists pieces :: Splits(terms, name, pieces)
  {
    if Matches(terms, name) {
      var pieces := MatchSplits(terms, name);
    }
    if pieces :| Splits(terms, name, pieces) {
      SplitMatches(terms, name, pieces);
    }
  }

  // ---- Globs do not cross "/" ------------------------------------------------------------------

  function SlashTerms(terms: seq<Term>): nat
  {
    if terms == [] then 0 else (if terms[0] == Literal('/') then 1 else 0) + SlashTerms(terms[1..])
  }

  /** No class of the pattern takes a slash; class-free patterns are the common case. */
  ghost predicate ClassesAvoidSlash(terms: seq<Term>)
  {
    forall t <- terms :: t.Class? ==> !TakesChar(t, '/')
  }

  ghost predicate PreservesSegments(terms: seq<Term>)
  {
    forall name :: Scan(terms, name) ==> Slashes(name) == SlashTerms(terms)
  }

  lemma {:induction false} AvoidingKeepsSegments(terms: seq<Term>, name: string)
    requires ClassesAvoidSlash(terms) && Matches(terms, name)
    ensures Slashes(name) == SlashTerms(terms)
    decreases |terms| + |name|
  {
    if terms == [] {
    } else {
      if terms[0] == Star && !Matches(terms[1..], name) {
        AvoidingKeepsSegments(terms, name[1..]);
      } else if terms[0] == Star {
        AvoidingKeepsSegments(terms[1..], name);
      } else {
        AvoidingKeepsSegments(terms[1..], name[1..]);
      }
    }
  }

  lemma {:induction false} SlashTermsTakeSlashes(terms: seq<Term>)
    ensures SlashTerms(terms) <= MostSlashes(terms)
    ensures !ClassesAvoidSlash(terms) ==> SlashTerms(terms) < MostSlashes(terms)
    decreases |terms|
  {
    if terms == [] {
    } else {
      SlashTermsTakeSlashes(terms[1..]);
      assert terms == [terms[0]] + terms[1..];
    }
  }

  /** A glob preserves the number of path segments of everything it matches if and only if none of
      its classes takes a slash, or one of them takes nothing and the pattern matches nothing. */
  lemma SegmentsPreservedExactly(terms: seq<Term>)
    ensures PreservesSegments(terms) <==> ClassesAvoidSlash(terms) || !EveryClassInhabited(terms)
  {
    if ClassesAvoidSlash(terms) || !EveryClassInhabited(terms) {
      forall name | Scan(terms, name) ensures Slashes(name) == SlashTerms(terms) {
        ScanIsSound(terms, name);
        MatchInhabitsClasses(terms, name);
        AvoidingKeepsSegments(terms, name);
      }
    } else {
      var name := SlashiestName(terms);
      ScanTakesEmptyStars(terms, name);
      SlashTermsTakeSlashes(terms);
    }
  }

  predicate Plain(s: string)
  {
    forall i :: 0 <= i < |s| ==> s[i] != '*' && s[i] != '?' && s[i] != '\\' && s[i] != '['
  }

  function Literals(s: string): seq<Term> { seq(|s|, i requires 0 <= i < |s| => Literal(s[i])) }

  lemma {:induction false} ParsePlain(p: string, rest: string)
    requires Plain(p) && Parse(rest).Some?
    ensures Parse(p + rest) == Some(Literals(p) + Parse(rest).value)
    decreases |p|
  {
    if p == "" {
      assert p + rest == rest;
      assert Literals(p) + Parse(rest).value == Parse(rest).value;
    } else {
      assert (p + rest)[1..] == p[1..] + rest;
      ParsePlain(p[1..], rest);
      assert [Literal(p[0])] + (Literals(p[1..]) + Parse(rest).value) == Literals(p) + Parse(rest).value;
    }
  }

  lemma {:induction false} MatchLiterals(p: string, terms: seq<Term>, name: string)
    ensures Matches(Literals(p) + terms, name) <==> p <= name && Matches(terms, name[|p|..])
    decreases |p|
  {
    if p == "" {
      assert Literals(p) + terms == terms;
    } else {
      assert (Literals(p) + terms)[1..] == Literals(p[1..]) + terms;
      if name != "" && name[0] == p[0] {
        MatchLiterals(p[1..], terms, name[1..]);
        assert p == [p[0]] + p[1..] && name == [name[0]] + name[1..];
        assert p <= name ==> p[1..] == name[1..][..|p| - 1];
      }
    }
  }

  lemma {:induction false} MatchStar(name: string)
    ensures Matches([Star], name) <==> SlashFree(name)
    decreases |name|
  {
    if name == "" {
    } else {
      MatchStar(name[1..]);
      assert name == [name[0]] + name[1..];
    }
  }

  /** A plain prefix and a star accept the prefix followed by a slash-free string and nothing else
      (so the pattern for all of org accepts exactly "org/" and one more segment); a pattern without
      special characters accepts itself alone. */
  lemma PrefixGlobScope(p: string, name: string)
    requires Plain(p)
    ensures PathMatch(p + "*", name) == Matched <==> p <= name && SlashFree(name[|p|..])
    ensures PathMatch(p, name) == Matched <==> name == p
    ensures PathMatch(p + "*", name) != BadPattern && PathMatch(p, name) != BadPattern
  {
    assert Parse("*") == Some([Star]) by { assert "*"[1..] == ""; assert [Star] + [] == [Star]; }
    ParsePlain(p, "*");
    MatchLiterals(p, [Star], name);
    if p <= name { MatchStar(name[|p|..]); }
    assert p + "" == p;
    ParsePlain(p, "");
    MatchLiterals(p, [], name);
    DecidedScan(Literals(p) + [Star], name);
    DecidedScan(Literals(p) + [], name);
  }

  lemma SingleTerm(t: Term, name: string)
    requires t != Star
    ensures Scan([t], name) <==> |name| == 1 && TakesChar(t, name[0])
  {
    assert SkipStars([t]) == [t] && ChunkLength([t]) == 1 && [t][..1] == [t] && [t][1..] == [];
    assert |name| == 1 ==> (Fits([t], name) <==> TakesChar(t, name[0]));
    assert Scan([t], name) <==> FirstFit(false, [t], name, true).Some?;
  }

  /** A class takes exactly one character, the ones in one of its ranges or, negated, all the others; "/"
      is no exception, so a negated class crosses path segments. A "?" takes any character but "/". */
  lemma ClassScope(negated: bool, ranges: seq<Range>, name: string)
    requires ranges != []
    ensures PathMatch(Show([Class(negated, ranges)]), name) == Matched
       <==> |name| == 1 && (exists r <- ranges :: r.lo <= name[0] <= r.hi) != negated
    ensures PathMatch("?", name) == Matched <==> |name| == 1 && name[0] != '/'
  {
    var t := Class(negated, ranges);
    ParseShow([t]);
    SingleTerm(t, name);
    SingleTerm(AnyChar, name);
    assert Parse("?") == Some([AnyChar]) by { assert "?"[1..] == ""; assert [AnyChar] + [] == [AnyChar]; }
  }
}
