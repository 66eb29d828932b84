# Version bump for the kodi-maps add-on

The add-on ships a small maintenance script, `bump_version.py`. It raises the
version number recorded in the add-on manifest `addon.xml` and records the
release at the head of `changelog.txt`. Run as `python bump_version.py
[major|minor|patch]`, it does the following:

1. It checks that the command line has exactly one argument, and that the
   argument is `major`, `minor` or `patch`. Otherwise it prints the usage line
   and stops.
2. It searches the manifest for the leftmost `version="(\d+)\.(\d+)\.(\d+)"`.
   If there is none, it prints that the version was not found and stops.
3. It reads the three numbers with `int()` and bumps them by semantic
   versioning. `major` resets minor and patch, `minor` resets patch, and
   `patch` only increments.
4. It renders the new version as `M.m.p`.
5. It replaces every `version="[\d\.]+"` of the manifest with
   `version="M.m.p"`. Two-part values such as the XML declaration's
   `version="1.0"` are replaced too.
6. It puts `v<new> (<date>)\n- Version bump\n\n` at the head of the changelog.

The model has three modules:

- `Decimal` (decimal.dfy) covers digit strings. `Value` reads them as `int()`
  does, leading zeros allowed. `Render` writes a number as the f-string does.
- `Patterns` (patterns.dfy) covers the two regular expressions, kept as two
  distinct matchers. Each has a declarative predicate (`IsStrictMatch`,
  `IsLooseMatch`) and a scanner (`MatchStrict`, `MatchLoose`). On top of the
  scanners it defines `re.search` (`Search`) and `re.sub` (`Substitute`). In
  both patterns a greedy run is followed by a character outside the run's
  class, so a match at a given position is unique. The scanners therefore
  read maximal runs and never backtrack.
- `Bump` (bump.dfy) covers the command line, the version triple and the bump
  rule. `Run` is the whole routine as a function from the command line, the
  two file texts and the date to an `Outcome`. `Workspace.BumpVersion` is the
  same routine written step by step over the two files, with the local
  variables `major`, `minor` and `patch` updated in an if/else chain as in the
  script. It is proved to agree with `Run`.

## Model

| member | source | states |
|---|---|---|
| Decimal.Value | bump_version.py:31 | the number a digit string denotes, leading zeros allowed, is below 10 to the power of its length |
| Decimal.Render | bump_version.py:44 | a number renders as a digit string without a leading zero; it starts with '0' exactly when the number is zero |
| Decimal.ValueOfRender | bump_version.py:31 | reading with `int()` the text the f-string wrote gives the number back |
| Decimal.RenderOfValue | bump_version.py:44 | writing the number read from a digit string without a leading zero gives that string back |
| Patterns.MatchLoose | bump_version.py:47 | the substitution pattern anchored at the start of a text; specified by MatchLooseSpec and MatchLooseNone |
| Patterns.MatchLooseSpec | bump_version.py:47 | the substitution-pattern scanner returns a run exactly when `version="run"` with run in `[0-9.]+` begins the text; the run is unique |
| Patterns.MatchLooseNone | bump_version.py:47 | the substitution-pattern scanner fails exactly when no run matches at the start of the text |
| Patterns.MatchStrict | bump_version.py:26 | the search pattern anchored at the start of a text; specified by MatchStrictSpec and MatchStrictNone |
| Patterns.MatchStrictSpec | bump_version.py:26 | the search-pattern scanner returns groups exactly when `version="a.b.c"` with three digit strings begins the text; the groups are unique |
| Patterns.MatchStrictNone | bump_version.py:26 | the search-pattern scanner fails exactly when no groups match at the start of the text |
| Patterns.StrictIsLoose | bump_version.py:47 | every search-pattern match is a substitution-pattern match whose run is the dotted groups |
| Patterns.TwoPartValue | bump_version.py:47 | a text beginning with a two-part value `version="a.b"` has no search-pattern match there, yet the substitution pattern matches it |
| Patterns.Search | bump_version.py:26 | `re.search` of the search pattern; specified by SearchLeftmost and SearchAbsent |
| Patterns.SearchFrom | bump_version.py:26 | a search from position i reports a position at or after i where the scanner matches, with its groups |
| Patterns.SearchSound | bump_version.py:26 | what the search finds is a search-pattern match and no match starts before it |
| Patterns.SearchComplete | bump_version.py:26 | the leftmost search-pattern match is what the search returns |
| Patterns.SearchLeftmost | bump_version.py:26 | the search returns a position and groups if and only if they are the leftmost search-pattern match |
| Patterns.SearchAbsent | bump_version.py:26-27 | the search fails if and only if the search pattern matches nowhere in the text |
| Patterns.Substitute | bump_version.py:47 | `re.sub` of the substitution pattern by a literal text; specified by SubstituteCopies, SubstituteLeftmost and SubstituteUnchanged |
| Patterns.SubstituteCopies | bump_version.py:47 | text before the first substitution-pattern match is copied unchanged |
| Patterns.SubstituteLeftmost | bump_version.py:47 | the leftmost substitution-pattern match is replaced by the replacement text, the text before it is kept and substitution resumes right after the match |
| Patterns.SubstituteUnchanged | bump_version.py:47 | a text without any substitution-pattern match is left as it is |
| Patterns.SearchFindsFirstReplacement | bump_version.py:47 | after substituting a search-pattern text for every match, the search stops at the first replacement |
| Patterns.SearchAfterSubstitute | bump_version.py:47 | after every substitution-pattern match of a text holding one is replaced by a search-pattern text with groups g, searching the result finds groups g |
| Bump.ParseArgs | bump_version.py:15-19 | the command line selects a kind exactly when it has one argument and that argument is major, minor or patch; the kind is the one the word names |
| Bump.Next | bump_version.py:34-42 | the bumped triple is lexicographically greater; the named component goes up by one, the ones above it are kept and the ones below it become zero |
| Bump.NextIsLeast | bump_version.py:34-42 | the bumped triple is the least triple above the old one whose components below the bumped one are zero |
| Bump.ParseGroups | bump_version.py:31 | the three groups read as numbers, each below 10 to the power of its group's length |
| Bump.RenderGroups | bump_version.py:44 | the three numbers written without leading zeros |
| Bump.Show | bump_version.py:44 | the new version's text `M.m.p`; specified by RenderGroups and ParseRendered |
| Bump.ParseRendered | bump_version.py:44 | reading back the rendered `M.m.p` gives the same triple |
| Bump.RenderParsed | bump_version.py:31 | rendering the parsed groups gives them back if and only if none has a leading zero |
| Bump.Entry | bump_version.py:58 | the changelog entry for a version text and a date; specified by RunChangelog |
| Bump.CurrentVersion | bump_version.py:26-31 | the manifest yields a version exactly when the search finds a match |
| Bump.Run | bump_version.py:13-64 | the whole routine from the command line, the two texts and the date to its outcome; specified by RunUsage, RunVersionNotFound, RunFindsLeftmost, RunFromLeftmost, RunBumps, RunChangelog, RunManifest, RunRereadsNewVersion and RunAgain |
| Bump.RunUsage | bump_version.py:15-17 | the run stops at the usage message if and only if the command line is not one argument among major, minor, patch |
| Bump.RunVersionNotFound | bump_version.py:26-29 | with a valid argument, the run stops without a version if and only if the search pattern matches nowhere in the manifest |
| Bump.RunFindsLeftmost | bump_version.py:26-31 | the old version is the numbers of the leftmost search-pattern match of the manifest |
| Bump.RunBumps | bump_version.py:34-42 | the new version is the old one bumped by the kind the argument names, and is greater |
| Bump.RunFromLeftmost | bump_version.py:15-42 | one argument naming a kind and a leftmost search-pattern match make the run write, with the old version read from that match's groups and the new one its bump by that kind |
| Bump.RunChangelog | bump_version.py:58-59 | the new changelog is the entry for the new version and date followed by the whole old changelog, which survives as a suffix |
| Bump.RunManifest | bump_version.py:47 | the new manifest is the old one with every substitution-pattern match replaced by `version="M.m.p"` of the new version |
| Bump.RunRereadsNewVersion | bump_version.py:47 | searching the new manifest finds the new version and reading it gives the new triple |
| Bump.RunAgain | bump_version.py:13-64 | running again with the same argument on the written files bumps from the version just written to a greater one |
| Bump.TwoPartNotFound | bump_version.py:26 | the search never stops at a position holding a two-part value `version="a.b"` |
| Bump.SubstituteTwoPart | bump_version.py:47 | a two-part value before which no substitution-pattern match starts is replaced, the text before it kept and substitution resumed after it |
| Bump.RunOverwritesTwoPart | bump_version.py:47 | a two-part value at any position before which no substitution-pattern match starts is not where the search stops, yet the written manifest keeps the text before it, puts the new version's attribute in its place and substitutes the rest |
| Bump.SubstituteAfterHead | bump_version.py:47 | substituting a text made of a head free of the letter 'v', a two-part value and a rest keeps the head, replaces the value and substitutes the rest |
| Bump.RunOverwritesDeclaration | bump_version.py:47 | a manifest opening with a head free of the letter 'v' and a two-part value, as `<?xml version="1.0"` does, is written with the head kept and the new version's attribute in place of that value |
| Bump.Workspace.BumpVersion | bump_version.py:13-64 | the usage and not-found outcomes leave both files unchanged and return their message; otherwise the files hold the new manifest and changelog and the message names the new version |

## Left out

- File reads and writes (bump_version.py:22-23, 49-50, 54-55, 61-62) are the `Workspace` fields `addonXml` and `changelogTxt`. UTF-8 decoding is not modelled. The fields hold the texts after newline normalisation. Text-mode reading turns `\r\n` and `\r` into `\n`, and text-mode writing writes each `\n` as the platform's line separator. Neither translation is modelled. So "text outside the matches is unchanged" and "the old changelog survives as a suffix" hold for the decoded texts, not byte for byte for the files. A missing or unreadable file raises an exception in the script, and that is not modelled either. In particular the script writes `addon.xml` before it reads `changelog.txt`, so a missing changelog leaves the manifest rewritten. The model always has both files.
- `print` (bump_version.py:16, 28, 64) becomes the message `BumpVersion` returns.
- `sys.argv` is the parameter `argv`. The entry of the `__main__` guard (bump_version.py:66-67) is not modelled.
- `datetime.now().strftime('%Y-%m-%d')` (bump_version.py:53) is the parameter `today`, which may be any string.
- Decimal.Value, Decimal.Render: the limit on the number of digits in integer-string conversions is not modelled. Recent Python versions raise `ValueError` in `int()` (bump_version.py:31) and in the f-string (bump_version.py:44) for numbers of more than 4300 digits. Given such a number, the script stops with an exception, either before writing anything or, after a bump that reaches 4301 digits, at the rendering. The model treats numbers of any length and returns `Written`.
- Python's `\d` also matches non-ASCII decimal digits, which `int()` accepts. The model has only the ASCII digits `0`-`9`.
- Regular expressions in general are not modelled. Only the two patterns of the script are modelled, each by its own scanner.
- main.py is not part of this model. It holds HTTP requests, JSON decoding, Kodi user-interface, settings and logging calls, PIL image decoding and temporary-file writing, and `urllib` URL handling. None of it has behaviour beyond these foreign calls.
