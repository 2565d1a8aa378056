# Commit changelog notifications

A GitHub action posts a Discord webhook message for every push. Its
notification pipeline lives in `src/discord.js`, and this project models
that pipeline in Dafny:

- `send` rejects missing credentials and a non-numeric thread id. It then
  drops merge commits and sends one embed.
- `createEmbed` builds that embed. It yields nothing for an empty batch.
  Otherwise it writes the author line `<size> commit was|commits were added
  to <repo>/<branch>`.
- `getChangeLog` writes the changelog text:
  - a fixed header;
  - one line `` `<sha6>` <message> `` for each of the first 33 commits;
  - a `+N more changes...` line when there are more.

  A `%` at the start of any commit message turns on obfuscation for the
  whole batch. In that mode the repository name, the branch name and every
  message are hidden behind block glyphs. Otherwise, 19 case-insensitive
  keyword prefixes such as `fix:` are replaced by an emoji. Every message
  is clamped to 1024 characters plus `...`.
- `obfuscateMessage` replaces every non-space character by one of five
  glyphs, picked at random.

Modules:

- `Text`: prefix and suffix tests, the ASCII case folding of the
  case-insensitive tests, and decimal rendering of integers.
- `Obfuscation`: `obfuscateMessage` and the space marking.
- `Keywords`: the 19 prefix rewrites, kept as the source lists them,
  duplicate alternatives included.
- `ChangeLog`: `getChangeLog`.
- `Dispatch`: the merge filter, `createEmbed` and `send`.

## How the model works

`obfuscateMessage` is random. The random draws are an input here:

- A `Picks` gives the glyph index for each character position.
- A `Draws` gives one `Picks` per call, numbered in the order the source
  calls it: branch, repository, then each listed message.

Every silhouette is reachable for some draws (`EverySilhouetteReachable`),
so no outcome of the random choice is lost.

The two loops of `getChangeLog` and the loop of `obfuscateMessage` are
methods, each proved equal to a specification function:

- `GetChangeLog` and `WriteListing` against `ChangeLogOf` and `Listing`;
- `FormatLine` against `Line`;
- `ObfuscateMessage` against `Obfuscated`.

The layout, rewrite and obfuscation properties are lemmas about those
functions.

The 19 rewrites are modelled as the source runs them. `RewritePass` is a
fold of `replace` calls. `PassIsFirstMatch` proves that this fold equals
applying only the first replacement that matches. The reason is that every
replacement starts with a character that is not an ASCII letter, and every
keyword starts with one. One consequence is `DuplicateBugRuleNeverApplies`:
the `bug|bugfix` replacement on line 135 never fires, because line 130
already rewrites `bug:` and `bugfix:` to 🔧.

Three behaviours of the code worth noting:

- An author present on the latest commit gets the fixed picture as icon.
  A missing author gets no icon: the default author has a null avatar.
- A batch that is empty after filtering still reaches `client.send`, with
  one `undefined` embed. This is `None` in `Payload.embeds`.
- The thread id is passed on as the string it was given.

## Model

| member | source | states |
|---|---|---|
| Text.Fold | src/discord.js:13 | case folding changes only ASCII letters: the result is never upper case, a letter stays a letter, anything else is unchanged |
| Text.FoldAlike | src/discord.js:130-148 | two characters compare equal ignoring case exactly when they are equal or are the two cases of one ASCII letter |
| Text.LowerStartsWith | src/discord.js:13 | lower-casing and then testing a lower-case prefix is the same as a case-insensitive prefix test |
| Text.NatToString | src/discord.js:77-79 | the decimal rendering of a count is non-empty, all digits, and starts with `0` only for zero |
| Text.IntToString | src/discord.js:110 | a non-negative integer is rendered as its decimal digits, a negative one as `-` followed by the digits of its magnitude |
| Text.DecimalRoundTrip | src/discord.js:77-79 | reading back the rendering of a number gives the number |
| Text.IntToStringInjective | src/discord.js:110 | different integers are rendered differently, so the summary line's count is unambiguous |
| Obfuscation.Obfuscated | src/discord.js:167-184 | the result has the message's length, a space exactly where the message has one, and one of the five glyphs everywhere else |
| Obfuscation.ObfuscateMessage | src/discord.js:167-184 | the character loop returns exactly `Obfuscated` for the same draws |
| Obfuscation.EverySilhouetteReachable | src/discord.js:176-179 | every string of that shape is what `obfuscateMessage` returns for some draws |
| Obfuscation.ReplaceSpaces | src/discord.js:126 | the length is kept, non-space characters are kept, and no space remains |
| Obfuscation.ScrambledShape | src/discord.js:124-126 | an obfuscated and space-marked message keeps its length, has no space, shows `▌` exactly where the message had a space and a glyph elsewhere |
| Keywords.MatchLength | src/discord.js:130-148 | a pattern matches exactly when some alternative followed by the suffix starts the message, ignoring case, and the matched length is that of such an alternative |
| Keywords.FirstKeywordMatches | src/discord.js:130-148 | an alternation matches the earliest written alternative that starts the message |
| Keywords.ApplyRule | src/discord.js:130-148 | one `replace` leaves an unmatched message unchanged, and a matched one starts with the replacement |
| Keywords.FirstMatchIndex | src/discord.js:130-148 | the index returned names a matching replacement with none matching before it; no index means none matches |
| Keywords.RulesWellFormed | src/discord.js:130-148 | every keyword starts with an ASCII letter and no replacement does |
| Keywords.NoMatchWithoutLetter | src/discord.js:130-148 | a message not starting with an ASCII letter matches no pattern |
| Keywords.PassKeepsUnlettered | src/discord.js:130-148 | the whole pass leaves such a message unchanged |
| Keywords.PassIsFirstMatch | src/discord.js:130-148 | the sequence of 19 `replace` calls equals applying only the first replacement that matches |
| Keywords.FirstMatchApplies | src/discord.js:130-148 | first-match application uses the replacement that `FirstMatchIndex` names, and changes nothing when there is none |
| Keywords.DecorateIsFirstMatch | src/discord.js:130-148 | a plain message gets exactly its earliest matching replacement, and stays unchanged when nothing matches |
| Keywords.DecorateFirstWins | src/discord.js:130-148 | with replacement `j` the earliest match on alternative `k`, the message becomes that replacement followed by the text after the keyword and its suffix |
| Keywords.FirstMatchIndexIs | src/discord.js:130-148 | the earliest matching replacement is the one applied |
| Keywords.DecoratedStartsWithReplacement | src/discord.js:130-148 | a message some pattern matches is shown starting with the replacement of the earliest match |
| Keywords.Subsumed | src/discord.js:130-135 | a pattern whose alternatives are among another's, with the same suffix, matches only where the other does |
| Keywords.DuplicateBugRuleNeverApplies | src/discord.js:130-135 | whatever the duplicate `bug`, `bugfix` pattern matches, an earlier pattern matches first, so its 🐛 is never used |
| Keywords.FixPrefix | src/discord.js:130 | `fix:` in any case becomes `🔧 ` and the rest of the message is kept |
| Keywords.BugPrefix | src/discord.js:130-135 | `bug:` in any case also becomes `🔧 `, never `🐛 ` |
| Keywords.MismatchAt | src/discord.js:130-148 | a pattern none of whose keywords agrees with the message at one position does not match |
| Keywords.LeadingRulesMissSignature | src/discord.js:130-138 | no keyword of the first nine patterns matches a message starting with `sy`, ignoring case |
| Keywords.TrailingRulesMissSignature | src/discord.js:139-147 | nor does any keyword of the next nine |
| Keywords.SignaturePrefix | src/discord.js:148 | `Sytrookie: ` in any case becomes `@Developers` with no space after it |
| ChangeLog.StripMarker | src/discord.js:119-121 | one leading `%` is removed, and a message without it is unchanged |
| ChangeLog.Clamp | src/discord.js:151-153 | the result is at most 1027 long; a message of at most 1024 characters is unchanged; a longer one keeps its first 1024 characters followed by `...` |
| ChangeLog.ShortSha | src/discord.js:115 | the short hash is the first `min(6, length)` characters of the id |
| ChangeLog.RenderMessage | src/discord.js:116-153 | every rendered message, in either mode, is at most 1027 characters long |
| ChangeLog.ChangeLogOf | src/discord.js:90-163 | the text starts with the header; repository and branch are unchanged in plain mode and are silhouettes of themselves in obfuscated mode |
| ChangeLog.GetChangeLog | src/discord.js:90-163 | the two loops, the early `break`s and the reassignments compute exactly `ChangeLogOf`, with obfuscation on when some message starts with `%` |
| ChangeLog.WriteListing | src/discord.js:108-160 | the line loop with its `i > 32` cut-off computes exactly `Listing` |
| ChangeLog.FormatLine | src/discord.js:114-158 | the loop body for one commit computes exactly `Line` |
| ChangeLog.LinesStep | src/discord.js:155-159 | listing one more commit appends exactly that commit's line |
| ChangeLog.LinesPrefix | src/discord.js:108-160 | the lines of earlier commits are never rewritten by later ones |
| ChangeLog.ListingStartsWithLines | src/discord.js:108-160 | the listing starts with the lines of the first `n` commits, for any `n` up to 33 |
| ChangeLog.ListingStartsWithLine | src/discord.js:108-160 | the listing starts with the lines of the commits before `i` followed by the line of commit `i` |
| ChangeLog.LineOfCommit | src/discord.js:106-158 | each commit among the first 33 has its line, rendered in the mode of the whole batch, right after the header and the lines of the commits before it |
| ChangeLog.LongBatch | src/discord.js:108-112 | past 33 commits the text is the header, the lines of the first 33 commits and directly after them the one summary line `+(size−33)`, which ends it; commits after the 33rd affect the text only through the obfuscation mode |
| ChangeLog.ShortBatch | src/discord.js:106-160 | up to 33 commits the text is the header followed by every commit's line, with no summary line |
| ChangeLog.ObfuscatedMessage | src/discord.js:119-153 | in obfuscated mode every message, with or without `%`, has no space left. Its length is that of the message without its marker, or 1027 when clamped. Within the limit it shows `▌` exactly for spaces and a glyph elsewhere |
| ChangeLog.PlainMessageUndecorated | src/discord.js:127-153 | in plain mode a message no pattern matches is only clamped |
| ChangeLog.PlainMessageDecorated | src/discord.js:127-153 | in plain mode a message shows its earliest matching replacement followed by the rest of its text, then clamped |
| ChangeLog.SingleFixCommit | src/discord.js:106-158 | a push of one commit `fix:<rest>` yields the header and the line `` `<sha6>` 🔧 <rest> `` |
| Dispatch.MergeIgnoresCase | src/discord.js:13 | the merge test is a case-insensitive test for the prefix `merge` |
| Dispatch.FilterMerges | src/discord.js:13-14 | the filtered list keeps exactly the commits that are not merges, and is no longer than the input |
| Dispatch.FilterAppend | src/discord.js:13 | the filter keeps the original order: filtering a concatenation concatenates the filtered parts |
| Dispatch.FilterIdempotent | src/discord.js:13 | filtering twice gives the same result as filtering once |
| Dispatch.FilterKeepsAll | src/discord.js:13 | the filter returns its input unchanged exactly when no commit is a merge |
| Dispatch.AuthorName | src/discord.js:76-79 | the author line is the count, then `commit was` when the count is one and `commits were` otherwise, then ` added to <repo>/<branch>` |
| Dispatch.SingularExactlyForOne | src/discord.js:77-79 | the author line reads `1 commit was ` exactly when the count is one |
| Dispatch.CreateEmbed | src/discord.js:54-87 | there is no embed exactly when the batch is empty; otherwise the description starts with the changelog header, there is an icon exactly when the latest commit has an author; the description is the changelog text, the author line is built from the count and the changelog's repository and branch, the timestamp is the latest commit's, colour and footer are the fixed ones |
| Dispatch.AuthorNameNamesTarget | src/discord.js:71-79 | the author line names the repository and branch as the changelog returns them: as given in plain mode, their silhouettes in obfuscated mode |
| Dispatch.Send | src/discord.js:9-47 | the call is refused exactly when the id or token is falsy or a truthy thread id is not numeric. The reason is `ID or token is missing` first, else `threadId is not a number`. Otherwise the payload sent is the one embed of the commits left after the merge filter, counted after filtering, with the thread id exactly when it is truthy, and the call settles as the transport does |
| Dispatch.SendResolves | src/discord.js:9-47 | `send` resolves exactly when id and token are truthy, the thread id is absent or numeric, and the transport delivers the filtered payload |
| Dispatch.SentEmbedIsFiltered | src/discord.js:13-38 | the embed sent is empty exactly when every commit is a merge, and otherwise counts the commits left after filtering |
| Dispatch.SizeIgnored | src/discord.js:4-14 | the caller's `size` argument has no effect on what `send` does |

## Left out

- `Math.random` in `obfuscateMessage`: the draws are an input (`Draws`,
  `Picks`), one glyph index per character position, and not a stream of
  random numbers.
- `isNaN(threadId)`: its coercion rules are not modelled; the numeric test
  is a parameter of `Send`.
- `WebhookClient`, `MessageEmbed` and `client.send`: the transport is a
  parameter from payload to `Delivered` or `Failed`. The Promise,
  `resolve`/`reject` and the exceptions are folded into the `Outcome`
  value.
- `console.log` calls: output only.
- `Date.parse(latest.timestamp)`: the embed keeps the timestamp string.
- The unused `url` argument of `send` and `createEmbed`.
- The in-place update of `latest.author` (its default `unknown` author and
  its avatar): only the icon it leads to is modelled, as a derived value.
- Unicode: strings are sequences of characters, while the source counts
  JavaScript UTF-16 code units. This matters in three places: the 1024
  limit (the emoji take two units), `obfuscateMessage`, which draws one
  glyph per code unit so that a character outside the Basic Multilingual
  Plane becomes two glyphs in the source and one here, and
  `substring(0, 6)` of the commit id. Case folding covers ASCII letters only. This is exact for the
  ASCII patterns and for the `merge` prefix, because no other character
  folds onto an ASCII letter in these tests.
- Commits without a `message` or `id` string are not modelled. On such
  input the source throws inside the filter or the loop.
