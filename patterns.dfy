/**
 The two regular expressions of the version-bump script, kept apart on
 purpose because they accept different texts:

   search pattern        version="(\d+)\.(\d+)\.(\d+)"   exactly three numbers
   substitution pattern  version="[\d\.]+"              any run of digits and dots

 Each is given twice: declaratively (a predicate saying which texts it
 matches) and as a scanner that reads a string from its start. In both
 patterns a greedy run of digits (or digits and dots) is followed by a
 character outside that class, so no backtracking can ever shorten a run:
 at a given position there is at most one match, and the scanners find it
 by taking maximal runs.

 Searching (`re.search`) and substituting every match (`re.sub`) are
 defined on top of the scanners, with the lemmas that pin them down.
 */
module Patterns {
  import opened Decimal

  datatype Option<T> = None | Some(value: T)

  /** The literal both patterns begin with. */
  const Key: string := "version=\""

  /** `s` begins with the key, compared letter by letter (cheaper for the verifier than a prefix test on the literal). */
  predicate StartsWithKey(s: string) {
    |s| >= 9 && s[0] == 'v' && s[1] == 'e' && s[2] == 'r' && s[3] == 's' && s[4] == 'i' &&
    s[5] == 'o' && s[6] == 'n' && s[7] == '=' && s[8] == '"'
  }

  lemma StartsWithKeySpec(s: string)
    ensures StartsWithKey(s) <==> Key <= s
  {
    assert |Key| == 9;
    if StartsWithKey(s) {
      assert s[..9] == Key;
    }
  }

  /** The class `[\d\.]` of the substitution pattern. */
  predicate IsVersionChar(c: char) {
    IsDigit(c) || c == '.'
  }

  /** What `[\d\.]+` matches. */
  predicate IsVersionChars(s: string) {
    |s| > 0 && forall k :: 0 <= k < |s| ==> IsVersionChar(s[k])
  }

  /** End of the maximal run of digits starting at `k`. */
  function DigitsEnd(s: string, k: nat): (e: nat)
    requires k <= |s|
    ensures k <= e <= |s|
    ensures forall j :: k <= j < e ==> IsDigit(s[j])
    ensures e == |s| || !IsDigit(s[e])
    decreases |s| - k
  {
    if k < |s| && IsDigit(s[k]) then DigitsEnd(s, k + 1) else k
  }

  /** End of the maximal run of digits and dots starting at `k`. */
  function VersionCharsEnd(s: string, k: nat): (e: nat)
    requires k <= |s|
    ensures k <= e <= |s|
    ensures forall j :: k <= j < e ==> IsVersionChar(s[j])
    ensures e == |s| || !IsVersionChar(s[e])
    decreases |s| - k
  {
    if k < |s| && IsVersionChar(s[k]) then VersionCharsEnd(s, k + 1) else k
  }

  /** A prefix `x + y` of `s` puts `x` at the start of `s` and `y` right after it. */
  lemma Split(s: string, x: string, y: string)
    requires x + y <= s
    ensures x <= s && |x| + |y| <= |s| && s[|x|..|x| + |y|] == y
  {
    assert s[..|x| + |y|] == x + y;
    assert (x + y)[|x|..] == y;
  }

  // ---------------------------------------------------------------------
  // The substitution pattern  version="[\d\.]+"

  /** The text of a substitution-pattern match whose run is `run`. */
  function LooseText(run: string): string {
    Key + run + "\""
  }

  /** `s` begins with a match of the substitution pattern whose run is `run`. */
  predicate IsLooseMatch(s: string, run: string) {
    IsVersionChars(run) && LooseText(run) <= s
  }

  /** A substitution-pattern match, position by position: the key, the run, then a quote. */
  lemma LooseShape(s: string, run: string)
    ensures LooseText(run) <= s <==>
      |Key| + |run| < |s| && Key <= s && s[|Key|..|Key| + |run|] == run && s[|Key| + |run|] == '"'
  {
    var e := |Key| + |run|;
    if LooseText(run) <= s {
      Split(s, Key + run, "\"");
      Split(s, Key, run);
    }
    if e < |s| && Key <= s && s[|Key|..e] == run && s[e] == '"' {
      assert s[..e + 1] == s[..|Key|] + s[|Key|..e] + [s[e]];
    }
  }

  /** The substitution pattern anchored at the start of `s`: the run it matches, if any. */
  function MatchLoose(s: string): (r: Option<string>)
    ensures r.Some? ==> |LooseText(r.value)| <= |s|
  {
    if !StartsWithKey(s) then None
    else
      var e := VersionCharsEnd(s, |Key|);
      if e == |Key| || e == |s| || s[e] != '"' then None
      else Some(s[|Key|..e])
  }

  /** The scanner reports exactly the matches of the substitution pattern; at most one run matches. */
  lemma MatchLooseSpec(s: string, run: string)
    ensures MatchLoose(s) == Some(run) <==> IsLooseMatch(s, run)
  {
    StartsWithKeySpec(s);
    var e := |Key| + |run|;
    LooseShape(s, run);
    if IsLooseMatch(s, run) {
      forall j | |Key| <= j < e ensures IsVersionChar(s[j]) {
        assert s[j] == run[j - |Key|];
      }
      assert VersionCharsEnd(s, |Key|) == e;
    }
    if MatchLoose(s) == Some(run) {
      var f := VersionCharsEnd(s, |Key|);
      assert f == e;
      forall j | 0 <= j < |run| ensures IsVersionChar(run[j]) {
        assert run[j] == s[|Key| + j];
      }
    }
  }

  /** `MatchLoose` finds no match exactly when no run matches at the start of `s`. */
  lemma MatchLooseNone(s: string)
    ensures MatchLoose(s).None? <==> forall run :: !IsLooseMatch(s, run)
  {
    if MatchLoose(s).Some? {
      MatchLooseSpec(s, MatchLoose(s).value);
    }
    forall run | IsLooseMatch(s, run) ensures MatchLoose(s).Some? {
      MatchLooseSpec(s, run);
    }
  }

  // ---------------------------------------------------------------------
  // The search pattern  version="(\d+)\.(\d+)\.(\d+)"

  /** The three groups the search pattern captures. */
  datatype Groups = Groups(major: string, minor: string, patch: string)

  /** The groups joined by dots: the run a search-pattern match has. */
  function Dotted(g: Groups): string {
    g.major + "." + g.minor + "." + g.patch
  }

  /** The text of a search-pattern match capturing `g`. */
  function StrictText(g: Groups): string {
    Key + g.major + "." + g.minor + "." + g.patch + "\""
  }

  /** The text of a search-pattern match is the text of a substitution-pattern match whose run is the dotted groups. */
  lemma StrictTextIsLoose(g: Groups)
    ensures StrictText(g) == LooseText(Dotted(g))
  {
  }

  /** `s` begins with a match of the search pattern capturing `g`. */
  predicate IsStrictMatch(s: string, g: Groups) {
    IsDigits(g.major) && IsDigits(g.minor) && IsDigits(g.patch) && StrictText(g) <= s
  }

  /** The positions where the dots and the closing quote of a search-pattern match capturing `g` stand. */
  function Ends(g: Groups): (nat, nat, nat) {
    var e1 := |Key| + |g.major|;
    var e2 := e1 + 1 + |g.minor|;
    (e1, e2, e2 + 1 + |g.patch|)
  }

  /** A search-pattern match, position by position: key, digits, dot, digits, dot, digits, quote. */
  ghost predicate StrictAt(s: string, g: Groups) {
    var (e1, e2, e3) := Ends(g);
    e3 < |s| && Key <= s &&
    s[|Key|..e1] == g.major && s[e1] == '.' &&
    s[e1 + 1..e2] == g.minor && s[e2] == '.' &&
    s[e2 + 1..e3] == g.patch && s[e3] == '"'
  }

  /** `x` at the start of `s` and `y` right after it make `x + y` a prefix of `s`. */
  lemma Join(s: string, x: string, y: string)
    requires x <= s && |x| + |y| <= |s| && s[|x|..|x| + |y|] == y
    ensures x + y <= s
  {
    assert s[..|x| + |y|] == s[..|x|] + s[|x|..|x| + |y|];
  }

  /** A search-pattern match at the start of `s` read position by position. */
  lemma StrictShapeOf(s: string, g: Groups)
    requires StrictText(g) <= s
    ensures StrictAt(s, g)
  {
    var x1 := Key + g.major;
    var x2 := x1 + ".";
    var x3 := x2 + g.minor;
    var x4 := x3 + ".";
    var x5 := x4 + g.patch;
    assert StrictText(g) == x5 + "\"";
    Split(s, x5, "\"");
    Split(s, x4, g.patch);
    Split(s, x3, ".");
    Split(s, x2, g.minor);
    Split(s, x1, ".");
    Split(s, Key, g.major);
  }

  /** The position-by-position reading of a search-pattern match puts its text at the start of `s`. */
  lemma StrictTextOf(s: string, g: Groups)
    requires StrictAt(s, g)
    ensures StrictText(g) <= s
  {
    var x1 := Key + g.major;
    var x2 := x1 + ".";
    var x3 := x2 + g.minor;
    var x4 := x3 + ".";
    var x5 := x4 + g.patch;
    Join(s, Key, g.major);
    Join(s, x1, ".");
    Join(s, x2, g.minor);
    Join(s, x3, ".");
    Join(s, x4, g.patch);
    Join(s, x5, "\"");
  }

  /**
   A non-empty digit run starting at `k` and ended by the character `c`
   (a dot or a quote): the position of `c`, if there is one.
   */
  function DigitsThen(s: string, k: nat, c: char): (r: Option<nat>)
    requires k <= |s|
    ensures r.Some? ==> k < r.value < |s| && s[r.value] == c && IsDigits(s[k..r.value])
  {
    var e := DigitsEnd(s, k);
    if e == k || e == |s| || s[e] != c then None else Some(e)
  }

  /** A digit string followed by `c`, a non-digit, is exactly what `DigitsThen` finds. */
  lemma DigitsThenComplete(s: string, k: nat, d: string, c: char)
    requires IsDigits(d) && !IsDigit(c) && k + |d| < |s| && s[k..k + |d|] == d && s[k + |d|] == c
    ensures DigitsThen(s, k, c) == Some(k + |d|)
  {
    forall j | k <= j < k + |d| ensures IsDigit(s[j]) {
      assert s[j] == d[j - k];
    }
    assert DigitsEnd(s, k) == k + |d|;
  }

  /** The search pattern anchored at the start of `s`: the groups it captures, if any. */
  function MatchStrict(s: string): Option<Groups> {
    if !StartsWithKey(s) then None
    else
      match DigitsThen(s, |Key|, '.')
      case None => None
      case Some(e1) =>
        match DigitsThen(s, e1 + 1, '.')
        case None => None
        case Some(e2) =>
          match DigitsThen(s, e2 + 1, '"')
          case None => None
          case Some(e3) => Some(Groups(s[|Key|..e1], s[e1 + 1..e2], s[e2 + 1..e3]))
  }

  /** Whatever the scanner captures is a match of the search pattern. */
  lemma MatchStrictSound(s: string)
    requires MatchStrict(s).Some?
    ensures IsStrictMatch(s, MatchStrict(s).value)
  {
    var g := MatchStrict(s).value;
    StartsWithKeySpec(s);
    assert StrictAt(s, g);
    StrictTextOf(s, g);
  }

  /** The scanner's three steps, each landing where the next one starts, make up its result. */
  lemma MatchStrictSteps(s: string, g: Groups, e1: nat, e2: nat, e3: nat)
    requires StartsWithKey(s) && e1 < e2 < e3 < |s|
    requires DigitsThen(s, |Key|, '.') == Some(e1)
    requires DigitsThen(s, e1 + 1, '.') == Some(e2)
    requires DigitsThen(s, e2 + 1, '"') == Some(e3)
    requires s[|Key|..e1] == g.major && s[e1 + 1..e2] == g.minor && s[e2 + 1..e3] == g.patch
    ensures MatchStrict(s) == Some(g)
  {
  }

  /** Each of the scanner's steps succeeds on a search-pattern match read position by position. */
  lemma StepsAt(s: string, g: Groups)
    requires IsDigits(g.major) && IsDigits(g.minor) && IsDigits(g.patch) && StrictAt(s, g)
    ensures DigitsThen(s, |Key|, '.') == Some(Ends(g).0)
    ensures DigitsThen(s, Ends(g).0 + 1, '.') == Some(Ends(g).1)
    ensures DigitsThen(s, Ends(g).1 + 1, '"') == Some(Ends(g).2)
  {
    var (e1, e2, e3) := Ends(g);
    DigitsThenComplete(s, |Key|, g.major, '.');
    DigitsThenComplete(s, e1 + 1, g.minor, '.');
    DigitsThenComplete(s, e2 + 1, g.patch, '"');
  }

  /** Each of the scanner's steps succeeds on a search-pattern match, landing on the dots and the quote. */
  lemma StrictSteps(s: string, g: Groups)
    requires IsStrictMatch(s, g)
    ensures StartsWithKey(s) && Ends(g).0 < Ends(g).1 < Ends(g).2 < |s|
    ensures DigitsThen(s, |Key|, '.') == Some(Ends(g).0)
    ensures DigitsThen(s, Ends(g).0 + 1, '.') == Some(Ends(g).1)
    ensures DigitsThen(s, Ends(g).1 + 1, '"') == Some(Ends(g).2)
    ensures s[|Key|..Ends(g).0] == g.major && s[Ends(g).0 + 1..Ends(g).1] == g.minor
    ensures s[Ends(g).1 + 1..Ends(g).2] == g.patch
  {
    StrictShapeOf(s, g);
    StartsWithKeySpec(s);
    StepsAt(s, g);
  }

  /** The scanner misses no match of the search pattern. */
  lemma MatchStrictComplete(s: string, g: Groups)
    requires IsStrictMatch(s, g)
    ensures MatchStrict(s) == Some(g)
  {
    StrictSteps(s, g);
    MatchStrictSteps(s, g, Ends(g).0, Ends(g).1, Ends(g).2);
  }

  /** The scanner reports exactly the matches of the search pattern; at most one triple of groups matches. */
  lemma MatchStrictSpec(s: string, g: Groups)
    ensures MatchStrict(s) == Some(g) <==> IsStrictMatch(s, g)
  {
    if MatchStrict(s) == Some(g) {
      MatchStrictSound(s);
    }
    if IsStrictMatch(s, g) {
      MatchStrictComplete(s, g);
    }
  }

  /** `MatchStrict` finds no match exactly when no groups match at the start of `s`. */
  lemma MatchStrictNone(s: string)
    ensures MatchStrict(s).None? <==> forall g :: !IsStrictMatch(s, g)
  {
    if MatchStrict(s).Some? {
      MatchStrictSpec(s, MatchStrict(s).value);
    }
    forall g | IsStrictMatch(s, g) ensures MatchStrict(s).Some? {
      MatchStrictSpec(s, g);
    }
  }

  /** Every match of the search pattern is also a match of the substitution pattern. */
  lemma StrictIsLoose(s: string, g: Groups)
    requires IsStrictMatch(s, g)
    ensures IsLooseMatch(s, Dotted(g))
  {
    StrictTextIsLoose(g);
    var d := Dotted(g);
    forall k | 0 <= k < |d| ensures IsVersionChar(d[k]) {
      var a, b := |g.major|, |g.minor|;
      if k < a {
        assert d[k] == g.major[k];
      } else if k == a || k == a + 1 + b {
        assert d[k] == '.';
      } else if k < a + 1 + b {
        assert d[k] == g.minor[k - a - 1];
      } else {
        assert d[k] == g.patch[k - a - 2 - b];
      }
    }
  }

  /** Two digit runs joined by a dot are a run of the substitution pattern. */
  lemma TwoPartRun(a: string, b: string)
    requires IsDigits(a) && IsDigits(b)
    ensures IsVersionChars(a + "." + b)
  {
    var run := a + "." + b;
    forall k | 0 <= k < |run| ensures IsVersionChar(run[k]) {
      if k < |a| {
        assert run[k] == a[k];
      } else if k > |a| {
        assert run[k] == b[k - |a| - 1];
      }
    }
  }

  /** A two-part value read position by position: the scanner's second step finds a quote where it needs a dot. */
  lemma TwoPartAt(s: string, a: string, b: string)
    requires IsDigits(a) && IsDigits(b) && StartsWithKey(s)
    requires |Key| + |a| + 1 + |b| < |s|
    requires s[|Key|..|Key| + |a|] == a && s[|Key| + |a|] == '.'
    requires s[|Key| + |a| + 1..|Key| + |a| + 1 + |b|] == b && s[|Key| + |a| + 1 + |b|] == '"'
    ensures MatchStrict(s) == None
  {
    var e1 := |Key| + |a|;
    DigitsThenComplete(s, |Key|, a, '.');
    DigitsThenComplete(s, e1 + 1, b, '"');
  }

  /** A substitution-pattern match whose run is two digit strings joined by a dot, read position by position. */
  lemma TwoPartShape(s: string, a: string, b: string)
    requires LooseText(a + "." + b) <= s
    ensures StartsWithKey(s) && |Key| + |a| + 1 + |b| < |s|
    ensures s[|Key|..|Key| + |a|] == a && s[|Key| + |a|] == '.'
    ensures s[|Key| + |a| + 1..|Key| + |a| + 1 + |b|] == b && s[|Key| + |a| + 1 + |b|] == '"'
  {
    var run := a + "." + b;
    var e1 := |Key| + |a|;
    var e2 := e1 + 1 + |b|;
    LooseShape(s, run);
    StartsWithKeySpec(s);
    assert s[|Key|..e2] == run;
    assert s[|Key|..e1] == run[..|a|] && s[e1] == run[|a|] && s[e1 + 1..e2] == run[|a| + 1..];
    assert run[..|a|] == a && run[|a| + 1..] == b;
  }

  /** A text beginning with a two-part value such as `version="1.0"` holds no search-pattern match there, yet a substitution-pattern match. */
  lemma TwoPartValue(s: string, a: string, b: string)
    requires IsDigits(a) && IsDigits(b) && LooseText(a + "." + b) <= s
    ensures MatchStrict(s) == None
    ensures MatchLoose(s) == Some(a + "." + b)
  {
    TwoPartShape(s, a, b);
    TwoPartAt(s, a, b);
    TwoPartRun(a, b);
    MatchLooseSpec(s, a + "." + b);
  }

  // ---------------------------------------------------------------------
  // re.search: the leftmost match of the search pattern

  /** Where the search pattern matched, and what it captured. */
  datatype Found = Found(pos: nat, groups: Groups)

  /** `re.search` started at position `i`: the first position from `i` on where the search pattern matches. */
  function SearchFrom(s: string, i: nat): (r: Option<Found>)
    requires i <= |s|
    ensures r.Some? ==> i <= r.value.pos <= |s| && MatchStrict(s[r.value.pos..]) == Some(r.value.groups)
    decreases |s| - i
  {
    match MatchStrict(s[i..])
    case Some(g) => Some(Found(i, g))
    case None => if i == |s| then None else SearchFrom(s, i + 1)
  }

  /** Every position the search passes over, from `i` up to where it stops, holds no match. */
  lemma {:induction false} SearchFromSkips(s: string, i: nat, j: nat)
    requires i <= j <= |s|
    requires SearchFrom(s, i).None? || j < SearchFrom(s, i).value.pos
    ensures MatchStrict(s[j..]).None?
    decreases j - i
  {
    if j > i {
      SearchFromSkips(s, i + 1, j);
    }
  }

  /** `re.search` over the whole text. */
  function Search(s: string): Option<Found> {
    SearchFrom(s, 0)
  }

  /** No match of the search pattern starts anywhere before position `p`. */
  ghost predicate NoStrictBefore(s: string, p: nat)
    requires p <= |s| + 1
  {
    forall j: nat, g :: j < p ==> !IsStrictMatch(s[j..], g)
  }

  /** A position the search passes over holds no match of the search pattern. */
  lemma SearchSkipped(s: string, j: nat)
    requires j <= |s| && (Search(s).None? || j < Search(s).value.pos)
    ensures forall g :: !IsStrictMatch(s[j..], g)
  {
    SearchFromSkips(s, 0, j);
    MatchStrictNone(s[j..]);
  }

  /** What the search finds is a match, and no match starts before it. */
  lemma SearchSound(s: string)
    requires Search(s).Some?
    ensures Search(s).value.pos <= |s|
    ensures IsStrictMatch(s[Search(s).value.pos..], Search(s).value.groups)
    ensures NoStrictBefore(s, Search(s).value.pos)
  {
    var f := Search(s).value;
    MatchStrictSound(s[f.pos..]);
    forall j: nat, g | j < f.pos ensures !IsStrictMatch(s[j..], g) {
      SearchSkipped(s, j);
    }
  }

  /** A search started at `i` stops at the first position from `i` on where the scanner matches. */
  lemma {:induction false} SearchFromFinds(s: string, i: nat, f: Found)
    requires i <= f.pos <= |s| && MatchStrict(s[f.pos..]) == Some(f.groups)
    requires forall j :: i <= j < f.pos ==> MatchStrict(s[j..]).None?
    ensures SearchFrom(s, i) == Some(f)
    decreases f.pos - i
  {
    if i < f.pos {
      SearchFromFinds(s, i + 1, f);
    }
  }

  /** The leftmost match is what the search finds. */
  lemma SearchComplete(s: string, f: Found)
    requires f.pos <= |s| && IsStrictMatch(s[f.pos..], f.groups) && NoStrictBefore(s, f.pos)
    ensures Search(s) == Some(f)
  {
    MatchStrictComplete(s[f.pos..], f.groups);
    forall j | 0 <= j < f.pos ensures MatchStrict(s[j..]).None? {
      MatchStrictNone(s[j..]);
    }
    SearchFromFinds(s, 0, f);
  }

  /** The search finds exactly the leftmost match of the search pattern, with the groups it captures. */
  lemma SearchLeftmost(s: string, f: Found)
    ensures Search(s) == Some(f) <==>
      f.pos <= |s| && IsStrictMatch(s[f.pos..], f.groups) && NoStrictBefore(s, f.pos)
  {
    if Search(s) == Some(f) {
      SearchSound(s);
    }
    if f.pos <= |s| && IsStrictMatch(s[f.pos..], f.groups) && NoStrictBefore(s, f.pos) {
      SearchComplete(s, f);
    }
  }

  /** The search fails exactly when the search pattern matches nowhere in the text. */
  lemma SearchAbsent(s: string)
    ensures Search(s).None? <==> NoStrictBefore(s, |s| + 1)
  {
    if Search(s).None? {
      forall j: nat, g | j < |s| + 1 ensures !IsStrictMatch(s[j..], g) {
        SearchFromSkips(s, 0, j);
        MatchStrictNone(s[j..]);
      }
    } else {
      var f := Search(s).value;
      MatchStrictSpec(s[f.pos..], f.groups);
    }
  }

  // ---------------------------------------------------------------------
  // re.sub: every leftmost, non-overlapping match of the substitution pattern replaced

  /** `re.sub` of the substitution pattern by the literal text `repl`. */
  function Substitute(s: string, repl: string): string
    decreases |s|
  {
    if s == [] then []
    else
      match MatchLoose(s)
      case Some(run) => repl + Substitute(s[|LooseText(run)|..], repl)
      case None => [s[0]] + Substitute(s[1..], repl)
  }

  /** No match of the substitution pattern starts anywhere before position `p`. */
  ghost predicate NoLooseBefore(s: string, p: nat)
    requires p <= |s| + 1
  {
    forall j: nat, run :: j < p ==> !IsLooseMatch(s[j..], run)
  }

  /** Where no match of the substitution pattern starts, one character is copied and substitution goes on after it. */
  lemma SubstituteSkip(s: string, repl: string, p: nat)
    requires 0 < p <= |s| && NoLooseBefore(s, p)
    ensures Substitute(s, repl) == [s[0]] + Substitute(s[1..], repl)
    ensures NoLooseBefore(s[1..], p - 1)
  {
    assert MatchLoose(s).None? by {
      assert s[0..] == s;
      MatchLooseNone(s);
    }
    var t := s[1..];
    forall j: nat, run | j < p - 1 ensures !IsLooseMatch(t[j..], run) {
      assert t[j..] == s[j + 1..];
    }
  }

  /** Text before the first match of the substitution pattern is copied unchanged. */
  lemma {:induction false} SubstituteCopies(s: string, repl: string, p: nat)
    requires p <= |s| && NoLooseBefore(s, p)
    ensures Substitute(s, repl) == s[..p] + Substitute(s[p..], repl)
    decreases p
  {
    if p > 0 {
      var t := s[1..];
      SubstituteSkip(s, repl, p);
      SubstituteCopies(t, repl, p - 1);
      assert t[p - 1..] == s[p..];
      PrependFirst(s, p, Substitute(t, repl), Substitute(s[p..], repl));
    }
  }

  /** Putting back the first character of `s` before `s[1..p]` and a tail gives `s[..p]` and that tail. */
  lemma PrependFirst(s: string, p: nat, y: string, z: string)
    requires 0 < p <= |s| && y == s[1..][..p - 1] + z
    ensures [s[0]] + y == s[..p] + z
  {
    assert s[..p] == [s[0]] + s[1..][..p - 1];
  }

  /**
   The leftmost match of the substitution pattern is replaced, the text before it
   is kept, and substitution resumes right after the match (matches never overlap).
   */
  lemma SubstituteLeftmost(s: string, repl: string, p: nat, run: string)
    requires p <= |s| && NoLooseBefore(s, p) && IsLooseMatch(s[p..], run)
    ensures p + |LooseText(run)| <= |s|
    ensures Substitute(s, repl) == s[..p] + (repl + Substitute(s[p + |LooseText(run)|..], repl))
  {
    SubstituteCopies(s, repl, p);
    MatchLooseSpec(s[p..], run);
    assert s[p..][|LooseText(run)|..] == s[p + |LooseText(run)|..];
  }

  /** A text in which the substitution pattern matches nowhere is left as it is. */
  lemma SubstituteUnchanged(s: string, repl: string)
    requires NoLooseBefore(s, |s| + 1)
    ensures Substitute(s, repl) == s
  {
    SubstituteCopies(s, repl, |s|);
    assert s[..|s|] == s;
  }

  /** Some match of the substitution pattern starting at or before `k` is the leftmost one. */
  lemma {:induction false} LeftmostLoose(s: string, k: nat, run: string) returns (p: nat, first: string)
    requires k <= |s| && IsLooseMatch(s[k..], run)
    ensures p <= k && IsLooseMatch(s[p..], first) && NoLooseBefore(s, p)
    decreases k
  {
    if NoLooseBefore(s, k) {
      p, first := k, run;
    } else {
      var j: nat, r :| j < k && IsLooseMatch(s[j..], r);
      p, first := LeftmostLoose(s, j, r);
    }
  }

  /** In a substitution-pattern match, the letter 'v' occurs only as its first character. */
  lemma OnlyLeadingV(run: string, d: nat)
    requires IsVersionChars(run) && 0 < d < |LooseText(run)|
    ensures LooseText(run)[d] != 'v'
  {
    var t := LooseText(run);
    if d < |Key| {
      assert t[d] == Key[d];
      assert Key == ['v', 'e', 'r', 's', 'i', 'o', 'n', '=', '"'];
    } else if d < |Key| + |run| {
      assert t[d] == run[d - |Key|];
    } else {
      assert t[d] == '"';
    }
  }

  /** A search-pattern match that ends within `s[..p]` is a match in `s` itself, whatever follows `s[..p]`. */
  lemma MatchInsidePrefix(s: string, p: nat, tail: string, q: nat, h: Groups)
    requires q <= p <= |s|
    ensures IsStrictMatch((s[..p] + tail)[q..], h) && q + |StrictText(h)| <= p ==> IsLooseMatch(s[q..], Dotted(h))
  {
    var n := s[..p] + tail;
    var m := StrictText(h);
    if IsStrictMatch(n[q..], h) && q + |m| <= p {
      assert n[q..q + |m|] == s[q..q + |m|];
      assert m <= s[q..];
      StrictIsLoose(s[q..], h);
    }
  }

  /**
   In a text made of `s[..p]` followed by a text that begins with 'v', no
   search-pattern match can start before `p` when no substitution-pattern match
   starts there in `s`: it would either lie inside `s[..p]` or contain the 'v'
   after its first character.
   */
  lemma NoStrictBeforeSplice(s: string, p: nat, tail: string, q: nat, h: Groups)
    requires p <= |s| && NoLooseBefore(s, p) && |tail| > 0 && tail[0] == 'v' && q < p
    ensures !IsStrictMatch((s[..p] + tail)[q..], h)
  {
    var n := s[..p] + tail;
    if IsStrictMatch(n[q..], h) {
      var m := StrictText(h);
      StrictTextIsLoose(h);
      StrictIsLoose(n[q..], h);
      if q + |m| <= p {
        MatchInsidePrefix(s, p, tail, q, h);
        assert false;
      } else {
        assert m[p - q] == n[p] == 'v';
        OnlyLeadingV(Dotted(h), p - q);
        assert false;
      }
    }
  }

  /** Searching `s[..p]` followed by a search-pattern match finds that match, when no substitution-pattern match starts before `p` in `s`. */
  lemma SearchSplice(s: string, p: nat, tail: string, g: Groups, n: string)
    requires p <= |s| && NoLooseBefore(s, p) && IsStrictMatch(tail, g) && n == s[..p] + tail
    ensures Search(n) == Some(Found(p, g))
  {
    assert n[p..] == tail;
    assert tail[0] == 'v' by {
      assert tail[..|Key|] == Key;
    }
    forall q: nat, h | q < p ensures !IsStrictMatch(n[q..], h) {
      NoStrictBeforeSplice(s, p, tail, q, h);
    }
    SearchLeftmost(n, Found(p, g));
  }

  /** The search over the substituted text stops at the position of the first replacement. */
  lemma SearchFindsFirstReplacement(s: string, g: Groups, p: nat, first: string)
    requires IsDigits(g.major) && IsDigits(g.minor) && IsDigits(g.patch)
    requires p <= |s| && NoLooseBefore(s, p) && IsLooseMatch(s[p..], first)
    ensures Search(Substitute(s, StrictText(g))) == Some(Found(p, g))
  {
    var repl := StrictText(g);
    var n := Substitute(s, repl);
    var rest := Substitute(s[p + |LooseText(first)|..], repl);
    SubstituteLeftmost(s, repl, p, first);
    assert IsStrictMatch(repl + rest, g) by {
      assert (repl + rest)[..|repl|] == repl;
    }
    SearchSplice(s, p, repl + rest, g, n);
  }

  /**
   After every substitution-pattern match of a text is replaced by a search-pattern
   match capturing `g`, searching the result finds that replacement, with the
   groups `g`. A text before the first replacement cannot form a match with it,
   because the replacement starts with the only 'v' of any match.
   */
  lemma SearchAfterSubstitute(s: string, g: Groups, k: nat, run: string)
    requires IsDigits(g.major) && IsDigits(g.minor) && IsDigits(g.patch)
    requires k <= |s| && IsLooseMatch(s[k..], run)
    ensures Search(Substitute(s, StrictText(g))).Some?
    ensures Search(Substitute(s, StrictText(g))).value.groups == g
  {
    var p, first := LeftmostLoose(s, k, run);
    SearchFindsFirstReplacement(s, g, p, first);
  }
}
