/**
 The version-bump routine: check the command line, find the add-on's
 version in the manifest (`addon.xml`), bump it by the semantic-versioning
 rule the argument names, write every version attribute of the manifest
 with the new value and put a dated entry at the head of the changelog
 (`changelog.txt`).

 `Run` is the whole routine as a function from the command line, the two
 file texts and today's date to its outcome; `Workspace.BumpVersion` is the
 same routine written step by step over the two files, as the script does it.
 */
module Bump {
  import opened Decimal
  import opened Patterns

  // ---------------------------------------------------------------------
  // The command line

  /** The three kinds of bump the script accepts. */
  datatype Kind = Major | Minor | Patch

  /** The command-line word naming each kind. */
  function KindName(kind: Kind): string {
    match kind
    case Major => "major"
    case Minor => "minor"
    case Patch => "patch"
  }

  /** The words accepted as the single argument. */
  const KindNames: seq<string> := [KindName(Major), KindName(Minor), KindName(Patch)]

  /** The bump kind the command line asks for: exactly one argument after the script name, naming a kind. */
  function ParseArgs(argv: seq<string>): (r: Option<Kind>)
    ensures r.None? <==> !(|argv| == 2 && argv[1] in KindNames)
    ensures r.Some? ==> |argv| == 2 && argv[1] == KindName(r.value)
  {
    if |argv| != 2 then None
    else if argv[1] == KindName(Major) then Some(Major)
    else if argv[1] == KindName(Minor) then Some(Minor)
    else if argv[1] == KindName(Patch) then Some(Patch)
    else None
  }

  // ---------------------------------------------------------------------
  // Versions

  /** A version triple; `int()` of a `\d+` group is never negative. */
  datatype Version = Version(major: nat, minor: nat, patch: nat)

  /** `v` comes strictly before `w` in the lexicographic order of triples. */
  predicate Less(v: Version, w: Version) {
    v.major < w.major ||
    (v.major == w.major && v.minor < w.minor) ||
    (v.major == w.major && v.minor == w.minor && v.patch < w.patch)
  }

  /** Component `i` of a version: 0 is the major number, 1 the minor, 2 the patch. */
  function Component(v: Version, i: nat): nat
    requires i < 3
  {
    if i == 0 then v.major else if i == 1 then v.minor else v.patch
  }

  /** The component a kind of bump increments. */
  function Rank(kind: Kind): nat {
    match kind
    case Major => 0
    case Minor => 1
    case Patch => 2
  }

  /**
   The semantic-versioning bump: the component the kind names goes up by one,
   the components above it are kept and those below it are reset to zero.
   */
  function Next(kind: Kind, v: Version): (w: Version)
    ensures Less(v, w)
    ensures forall i :: 0 <= i < 3 ==>
      Component(w, i) == (if i < Rank(kind) then Component(v, i)
                          else if i == Rank(kind) then Component(v, i) + 1
                          else 0)
  {
    match kind
    case Major => Version(v.major + 1, 0, 0)
    case Minor => Version(v.major, v.minor + 1, 0)
    case Patch => Version(v.major, v.minor, v.patch + 1)
  }

  /** Every component below position `k` is zero. */
  predicate ZeroFrom(v: Version, k: nat) {
    forall i :: k < i < 3 ==> Component(v, i) == 0
  }

  /** The bumped version is the least version above the old one whose components below the bumped one are zero. */
  lemma NextIsLeast(kind: Kind, v: Version, u: Version)
    requires Less(v, u) && ZeroFrom(u, Rank(kind))
    ensures !Less(u, Next(kind, v))
  {
    assert Component(u, 1) == u.minor && Component(u, 2) == u.patch;
  }

  /** The groups of the search pattern read as numbers, as `map(int, groups)` does. */
  function ParseGroups(g: Groups): (v: Version)
    requires IsDigits(g.major) && IsDigits(g.minor) && IsDigits(g.patch)
    ensures v.major < Pow10(|g.major|) && v.minor < Pow10(|g.minor|) && v.patch < Pow10(|g.patch|)
  {
    Version(Value(g.major), Value(g.minor), Value(g.patch))
  }

  /** Each number of a version in decimal, as the f-string renders it. */
  function RenderGroups(v: Version): (g: Groups)
    ensures IsCanonical(g.major) && IsCanonical(g.minor) && IsCanonical(g.patch)
  {
    Groups(Render(v.major), Render(v.minor), Render(v.patch))
  }

  /** The new version's text `M.m.p`. */
  function Show(v: Version): string {
    Dotted(RenderGroups(v))
  }

  /** Reading back the rendered groups gives the version. */
  lemma ParseRendered(v: Version)
    ensures ParseGroups(RenderGroups(v)) == v
  {
    ValueOfRender(v.major);
    ValueOfRender(v.minor);
    ValueOfRender(v.patch);
  }

  /** Rendering the parsed groups gives them back exactly when none has a leading zero. */
  lemma RenderParsed(g: Groups)
    requires IsDigits(g.major) && IsDigits(g.minor) && IsDigits(g.patch)
    ensures RenderGroups(ParseGroups(g)) == g <==> IsCanonical(g.major) && IsCanonical(g.minor) && IsCanonical(g.patch)
  {
    if IsCanonical(g.major) && IsCanonical(g.minor) && IsCanonical(g.patch) {
      RenderOfValue(g.major);
      RenderOfValue(g.minor);
      RenderOfValue(g.patch);
    }
  }

  // ---------------------------------------------------------------------
  // The changelog entry

  /** The entry put at the head of the changelog for version text `version` on date `date`. */
  function Entry(version: string, date: string): string {
    "v" + version + " (" + date + ")\n- Version bump\n\n"
  }

  // ---------------------------------------------------------------------
  // The whole routine

  /** What a run of the script ends with. */
  datatype Outcome =
    | Usage
    | VersionNotFound
    | Written(manifest: string, changelog: string, oldVersion: Version, newVersion: Version)

  /** The version the manifest holds: the numbers of the leftmost search-pattern match, if there is one. */
  function CurrentVersion(manifest: string): (r: Option<Version>)
    ensures r.None? <==> Search(manifest).None?
  {
    match Search(manifest)
    case None => None
    case Some(found) =>
      MatchStrictSound(manifest[found.pos..]);
      Some(ParseGroups(found.groups))
  }

  /**
   One run of the script on the command line `argv`, the manifest text, the
   changelog text and today's date: the usage message, the missing version, or
   the two new texts.
   */
  function Run(argv: seq<string>, manifest: string, changelog: string, today: string): Outcome {
    match ParseArgs(argv)
    case None => Usage
    case Some(kind) =>
      match CurrentVersion(manifest)
      case None => VersionNotFound
      case Some(current) =>
        var bumped := Next(kind, current);
        var text := Show(bumped);
        Written(Substitute(manifest, LooseText(text)), Entry(text, today) + changelog, current, bumped)
  }

  /** A run with a valid argument on a manifest holding version `v` writes the texts for the bumped version `text`. */
  lemma RunWritten(argv: seq<string>, manifest: string, changelog: string, today: string, v: Version, text: string)
    requires ParseArgs(argv).Some? && CurrentVersion(manifest) == Some(v)
    requires text == Show(Next(ParseArgs(argv).value, v))
    ensures Run(argv, manifest, changelog, today) ==
      Written(Substitute(manifest, LooseText(text)), Entry(text, today) + changelog, v, Next(ParseArgs(argv).value, v))
  {
  }

  /** Without exactly one argument naming a kind, the run stops at the usage message. */
  lemma RunUsage(argv: seq<string>, manifest: string, changelog: string, today: string)
    ensures Run(argv, manifest, changelog, today).Usage? <==> !(|argv| == 2 && argv[1] in KindNames)
  {
  }

  /** With a valid argument, the run stops without a version exactly when the search pattern matches nowhere in the manifest. */
  lemma RunVersionNotFound(argv: seq<string>, manifest: string, changelog: string, today: string)
    requires ParseArgs(argv).Some?
    ensures Run(argv, manifest, changelog, today).VersionNotFound? <==> NoStrictBefore(manifest, |manifest| + 1)
  {
    SearchAbsent(manifest);
  }

  /** A run that writes found the old version at the leftmost search-pattern match. */
  lemma RunFindsLeftmost(argv: seq<string>, manifest: string, changelog: string, today: string)
    requires Run(argv, manifest, changelog, today).Written?
    ensures Search(manifest).Some?
    ensures IsStrictMatch(manifest[Search(manifest).value.pos..], Search(manifest).value.groups)
    ensures NoStrictBefore(manifest, Search(manifest).value.pos)
    ensures Run(argv, manifest, changelog, today).oldVersion == ParseGroups(Search(manifest).value.groups)
  {
    SearchSound(manifest);
  }

  /** A valid argument and a leftmost search-pattern match make the run write, bumping the version that match holds. */
  lemma RunFromLeftmost(argv: seq<string>, manifest: string, changelog: string, today: string, kind: Kind, p: nat, g: Groups)
    requires |argv| == 2 && argv[1] == KindName(kind)
    requires p <= |manifest| && IsStrictMatch(manifest[p..], g) && NoStrictBefore(manifest, p)
    ensures var r := Run(argv, manifest, changelog, today);
      r.Written? && r.oldVersion == ParseGroups(g) && r.newVersion == Next(kind, ParseGroups(g))
  {
    SearchComplete(manifest, Found(p, g));
  }

  /** A run that writes bumps the old version by the kind its argument names. */
  lemma RunBumps(argv: seq<string>, manifest: string, changelog: string, today: string)
    requires Run(argv, manifest, changelog, today).Written?
    ensures ParseArgs(argv).Some?
    ensures Run(argv, manifest, changelog, today).newVersion == Next(ParseArgs(argv).value, Run(argv, manifest, changelog, today).oldVersion)
    ensures Less(Run(argv, manifest, changelog, today).oldVersion, Run(argv, manifest, changelog, today).newVersion)
  {
  }

  /** The new changelog is the entry for the new version followed by the whole old changelog. */
  lemma RunChangelog(argv: seq<string>, manifest: string, changelog: string, today: string)
    requires Run(argv, manifest, changelog, today).Written?
    ensures var r := Run(argv, manifest, changelog, today);
      |r.changelog| >= |changelog| &&
      r.changelog[..|r.changelog| - |changelog|] == Entry(Show(r.newVersion), today) &&
      r.changelog[|r.changelog| - |changelog|..] == changelog
  {
    var r := Run(argv, manifest, changelog, today);
    var e := Entry(Show(r.newVersion), today);
    assert r.changelog == e + changelog;
    assert r.changelog[..|e|] == e;
    assert r.changelog[|e|..] == changelog;
  }

  /** The new manifest is the old one with every substitution-pattern match replaced by the new version's attribute. */
  lemma RunManifest(argv: seq<string>, manifest: string, changelog: string, today: string)
    requires Run(argv, manifest, changelog, today).Written?
    ensures var r := Run(argv, manifest, changelog, today);
      r.manifest == Substitute(manifest, StrictText(RenderGroups(r.newVersion)))
  {
    StrictTextIsLoose(RenderGroups(Run(argv, manifest, changelog, today).newVersion));
  }

  /** Searching the new manifest finds the new version, and reading it back gives the new triple. */
  lemma RunRereadsNewVersion(argv: seq<string>, manifest: string, changelog: string, today: string)
    requires Run(argv, manifest, changelog, today).Written?
    ensures var r := Run(argv, manifest, changelog, today);
      CurrentVersion(r.manifest) == Some(r.newVersion)
  {
    var r := Run(argv, manifest, changelog, today);
    var found := Search(manifest).value;
    RunFindsLeftmost(argv, manifest, changelog, today);
    RunManifest(argv, manifest, changelog, today);
    StrictIsLoose(manifest[found.pos..], found.groups);
    var g := RenderGroups(r.newVersion);
    SearchAfterSubstitute(manifest, g, found.pos, Dotted(found.groups));
    ParseRendered(r.newVersion);
  }

  /** Running the script again with the same argument bumps from the version the first run wrote. */
  lemma RunAgain(argv: seq<string>, manifest: string, changelog: string, today: string, later: string)
    requires Run(argv, manifest, changelog, today).Written?
    ensures var r := Run(argv, manifest, changelog, today);
      var r2 := Run(argv, r.manifest, r.changelog, later);
      r2.Written? && r2.oldVersion == r.newVersion && Less(r.newVersion, r2.newVersion)
  {
    RunRereadsNewVersion(argv, manifest, changelog, today);
  }

  /**
   A two-part value such as the XML declaration's `version="1.0"`, standing
   before any other substitution-pattern match: the search does not stop
   there, yet a run that writes replaces it with the new version's attribute,
   keeping the text before it.
   */
  lemma RunOverwritesTwoPart(argv: seq<string>, manifest: string, changelog: string, today: string, a: string, b: string, p: nat)
    requires IsDigits(a) && IsDigits(b)
    requires p <= |manifest| && NoLooseBefore(manifest, p) && LooseText(a + "." + b) <= manifest[p..]
    requires Run(argv, manifest, changelog, today).Written?
    ensures Search(manifest).value.pos != p
    ensures var r := Run(argv, manifest, changelog, today);
      var repl := LooseText(Show(r.newVersion));
      p + |LooseText(a + "." + b)| <= |manifest| &&
      r.manifest == manifest[..p] + (repl + Substitute(manifest[p + |LooseText(a + "." + b)|..], repl))
  {
    TwoPartNotFound(manifest, a, b, p);
    var r := Run(argv, manifest, changelog, today);
    var repl := LooseText(Show(r.newVersion));
    assert r.manifest == Substitute(manifest, repl);
    SubstituteTwoPart(manifest, repl, a, b, p);
  }

  /** The search never stops at a two-part value. */
  lemma TwoPartNotFound(manifest: string, a: string, b: string, p: nat)
    requires IsDigits(a) && IsDigits(b) && p <= |manifest| && LooseText(a + "." + b) <= manifest[p..]
    ensures Search(manifest).Some? ==> Search(manifest).value.pos != p
  {
    TwoPartValue(manifest[p..], a, b);
  }

  /** Substitution replaces a two-part value before which no substitution-pattern match starts. */
  lemma SubstituteTwoPart(manifest: string, repl: string, a: string, b: string, p: nat)
    requires IsDigits(a) && IsDigits(b)
    requires p <= |manifest| && NoLooseBefore(manifest, p) && LooseText(a + "." + b) <= manifest[p..]
    ensures p + |LooseText(a + "." + b)| <= |manifest|
    ensures Substitute(manifest, repl) == manifest[..p] + (repl + Substitute(manifest[p + |LooseText(a + "." + b)|..], repl))
  {
    var run := a + "." + b;
    TwoPartRun(a, b);
    SubstituteLeftmost(manifest, repl, p, run);
    assert manifest[p + |LooseText(run)|..] == manifest[p + |LooseText(a + "." + b)|..];
  }

  /** No substitution-pattern match starts inside a head without the letter 'v', whatever follows it. */
  lemma NoLooseInHead(head: string, tail: string)
    requires forall k :: 0 <= k < |head| ==> head[k] != 'v'
    ensures NoLooseBefore(head + tail, |head|)
  {
    var m := head + tail;
    forall j: nat, run | j < |head| ensures !IsLooseMatch(m[j..], run) {
      assert m[j] == head[j];
      assert LooseText(run)[0] == 'v';
    }
  }

  /**
   A manifest opening with a head free of the letter 'v' and then a two-part
   value, as `<?xml version="1.0"` opens an XML file: a run that writes keeps
   the head and puts the add-on's new version into that value.
   */
  lemma RunOverwritesDeclaration(argv: seq<string>, head: string, a: string, b: string, rest: string, changelog: string, today: string)
    requires forall k :: 0 <= k < |head| ==> head[k] != 'v'
    requires IsDigits(a) && IsDigits(b)
    requires Run(argv, head + (LooseText(a + "." + b) + rest), changelog, today).Written?
    ensures var r := Run(argv, head + (LooseText(a + "." + b) + rest), changelog, today);
      var repl := LooseText(Show(r.newVersion));
      r.manifest == head + (repl + Substitute(rest, repl))
  {
    var r := Run(argv, head + (LooseText(a + "." + b) + rest), changelog, today);
    var repl := LooseText(Show(r.newVersion));
    assert r.manifest == Substitute(head + (LooseText(a + "." + b) + rest), repl);
    SubstituteAfterHead(head, a, b, rest, repl);
  }

  /** Substitution keeps a head free of the letter 'v' and replaces the two-part value after it. */
  lemma SubstituteAfterHead(head: string, a: string, b: string, rest: string, repl: string)
    requires forall k :: 0 <= k < |head| ==> head[k] != 'v'
    requires IsDigits(a) && IsDigits(b)
    ensures Substitute(head + (LooseText(a + "." + b) + rest), repl) == head + (repl + Substitute(rest, repl))
  {
    var value := LooseText(a + "." + b);
    var m := head + (value + rest);
    NoLooseInHead(head, value + rest);
    ThreeParts(head, value, rest);
    SubstituteTwoPart(m, repl, a, b, |head|);
    ReplaceParts(m, head, |head| + |LooseText(a + "." + b)|, rest, repl);
  }

  /** A substituted text read as its two slices, with the slices named. */
  lemma ReplaceParts(m: string, head: string, q: nat, rest: string, repl: string)
    requires |head| <= q <= |m| && m[..|head|] == head && m[q..] == rest
    requires Substitute(m, repl) == m[..|head|] + (repl + Substitute(m[q..], repl))
    ensures Substitute(m, repl) == head + (repl + Substitute(rest, repl))
  {
  }

  /** The three parts of `head + (middle + rest)` are found again by slicing at their lengths. */
  lemma ThreeParts(head: string, middle: string, rest: string)
    ensures var m := head + (middle + rest);
      m[..|head|] == head && m[|head|..] == middle + rest && m[|head| + |middle|..] == rest
  {
    var m := head + (middle + rest);
    assert m[|head|..] == middle + rest;
    assert (middle + rest)[|middle|..] == rest;
  }

  // ---------------------------------------------------------------------
  // The routine over the two files

  const UsageMessage: string := "Usage: python bump_version.py [major|minor|patch]"
  const NotFoundMessage: string := "Could not find version in addon.xml"
  const BumpedMessage: string := "Version bumped to "

  /** The two files the script reads and rewrites. */
  class Workspace {
    var addonXml: string
    var changelogTxt: string

    constructor(addonXml: string, changelogTxt: string)
      ensures this.addonXml == addonXml && this.changelogTxt == changelogTxt
    {
      this.addonXml := addonXml;
      this.changelogTxt := changelogTxt;
    }

    /**
     The script's `bump_version`: the command line and today's date come in as
     parameters, the message it prints comes out as the result.
     */
    method BumpVersion(argv: seq<string>, today: string) returns (message: string)
      modifies this
      ensures var r := Run(argv, old(addonXml), old(changelogTxt), today);
        (r.Usage? ==> message == UsageMessage) &&
        (r.VersionNotFound? ==> message == NotFoundMessage) &&
        (!r.Written? ==> addonXml == old(addonXml) && changelogTxt == old(changelogTxt)) &&
        (r.Written? ==> addonXml == r.manifest && changelogTxt == r.changelog &&
                        message == BumpedMessage + Show(r.newVersion))
    {
      if |argv| != 2 || argv[1] !in KindNames {
        message := UsageMessage;
        return;
      }
      var bumpType := argv[1];

      var content := addonXml;
      var versionMatch := Search(content);
      if versionMatch.None? {
        message := NotFoundMessage;
        return;
      }
      var found := versionMatch.value;
      MatchStrictSound(content[found.pos..]);
      var major, minor, patch := Value(found.groups.major), Value(found.groups.minor), Value(found.groups.patch);
      ghost var current := Version(major, minor, patch);
      ghost var kind := ParseArgs(argv).value;

      if bumpType == "major" {
        major := major + 1;
        minor := 0;
        patch := 0;
      } else if bumpType == "minor" {
        minor := minor + 1;
        patch := 0;
      } else if bumpType == "patch" {
        patch := patch + 1;
      }
      assert Version(major, minor, patch) == Next(kind, current);

      var newVersion := Render(major) + "." + Render(minor) + "." + Render(patch);
      assert newVersion == Show(Next(kind, current));
      RunWritten(argv, old(addonXml), old(changelogTxt), today, current, newVersion);
      content := Substitute(content, Key + newVersion + "\"");
      addonXml := content;

      var changelog := changelogTxt;
      var newEntry := "v" + newVersion + " (" + today + ")\n- Version bump\n\n";
      changelog := newEntry + changelog;
      changelogTxt := changelog;

      message := BumpedMessage + newVersion;
    }
  }
}
