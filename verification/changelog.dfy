/** `getChangeLog`: turns the repository name, the branch name and the
    commits of a push into the changelog text of the notification, possibly
    hiding all of it behind glyphs. */
module ChangeLog {
  import opened Wrappers
  import opened Text
  import opened Obfuscation
  import opened Keywords

  datatype Author = Author(username: string)

  /** A commit as the caller supplies it. */
  datatype Commit = Commit(id: string, message: string, timestamp: string, author: Option<Author>)

  /** The source's three-element result `[repo, branch, changelog]`. */
  datatype ChangeLog = ChangeLog(repo: string, branch: string, text: string)

  /** The random draws of one run: for each call of `obfuscateMessage`,
      the glyph picked at each position. */
  type Draws = nat -> Picks

  /** Calls are numbered in the order the source makes them: the branch
      name first, then the repository name, then the message of commit `i`. */
  const BranchCall: nat := 0
  const RepoCall: nat := 1
  function MessageCall(i: nat): nat { 2 + i }

  /** `MAX_MESSAGE_LENGTH`. */
  const MaxMessageLength: nat := 1024
  const Ellipsis := "..."

  /** Number of commits listed before the rest are summarised. */
  const MaxLines: nat := 33

  const Header := "**🔄 Recent Changes:**\n"

  /** The marker that asks for obfuscation. */
  predicate HasMarker(message: string) {
    StartsWith(message, "%")
  }

  /** The batch is obfuscated when some commit message carries the marker. */
  predicate IsObfuscatedBatch(commits: seq<Commit>) {
    exists i :: 0 <= i < |commits| && HasMarker(commits[i].message)
  }

  /** The message without its marker. */
  function StripMarker(message: string): (r: string)
    ensures HasMarker(message) ==> message == "%" + r
    ensures !HasMarker(message) ==> r == message
  {
    if HasMarker(message) then message[1..] else message
  }

  /** The length clamp: a message over the limit keeps its first
      `MaxMessageLength` characters and gets an ellipsis. */
  function Clamp(m: string): (r: string)
    ensures |r| <= MaxMessageLength + |Ellipsis|
    ensures |m| <= MaxMessageLength ==> r == m
    ensures |m| > MaxMessageLength ==> StartsWith(r, m[..MaxMessageLength]) && r[MaxMessageLength..] == Ellipsis
  {
    if |m| > MaxMessageLength then m[..MaxMessageLength] + Ellipsis else m
  }

  /** `id.substring(0, 6)`. */
  function ShortSha(id: string): (s: string)
    ensures StartsWith(id, s)
    ensures |s| == if |id| < 6 then |id| else 6
  {
    id[..if |id| < 6 then |id| else 6]
  }

  /** The message of one changelog line. */
  function RenderMessage(message: string, obfuscated: bool, pick: Picks): (r: string)
    ensures |r| <= MaxMessageLength + |Ellipsis|
  {
    var m := StripMarker(message);
    Clamp(if obfuscated then Scrambled(m, pick) else Decorate(m))
  }

  function Line(c: Commit, obfuscated: bool, pick: Picks): string {
    "`" + ShortSha(c.id) + "` " + RenderMessage(c.message, obfuscated, pick) + "\n"
  }

  /** The lines of the listed commits, the commit at position `i` using
      the draws of call `MessageCall(i)`. */
  function Lines(listed: seq<Commit>, obfuscated: bool, draws: Draws): string {
    if listed == [] then ""
    else
      var i := |listed| - 1;
      Lines(listed[..i], obfuscated, draws) + Line(listed[i], obfuscated, draws(MessageCall(i)))
  }

  /** The line that stands for the commits beyond `MaxLines`. */
  function Summary(remaining: int): string {
    "\n**+" + IntToString(remaining) + "** more changes...\n"
  }

  /** The text after the header: a line for each of the first `MaxLines`
      commits, then the summary line if there are more. */
  function Listing(commits: seq<Commit>, size: int, obfuscated: bool, draws: Draws): string {
    if |commits| <= MaxLines then Lines(commits, obfuscated, draws)
    else Lines(commits[..MaxLines], obfuscated, draws) + Summary(size - MaxLines)
  }

  /** What `getChangeLog(repo, branch, commits, size)` returns when the
      random draws are `draws`. */
  function ChangeLogOf(repo: string, branch: string, commits: seq<Commit>, size: int, draws: Draws): (r: ChangeLog)
    ensures StartsWith(r.text, Header)
    ensures !IsObfuscatedBatch(commits) ==> r.repo == repo && r.branch == branch
    ensures IsObfuscatedBatch(commits) ==> IsSilhouette(repo, r.repo) && IsSilhouette(branch, r.branch)
  {
    var obfuscated := IsObfuscatedBatch(commits);
    ChangeLog(
      if obfuscated then Obfuscated(repo, draws(RepoCall)) else repo,
      if obfuscated then Obfuscated(branch, draws(BranchCall)) else branch,
      Header + Listing(commits, size, obfuscated, draws))
  }

  /** `getChangeLog`: one pass to decide on obfuscation, then one pass that
      appends a line per commit and stops at the summary line. */
  method GetChangeLog(repo: string, branch: string, commits: seq<Commit>, size: int, draws: Draws)
    returns (r: ChangeLog)
    ensures r == ChangeLogOf(repo, branch, commits, size, draws)
  {
    var changelog := "";
    var obfuscated := false;
    var repoName, branchName := repo, branch;

    for i := 0 to |commits|
      invariant !obfuscated && repoName == repo && branchName == branch
      invariant forall k :: 0 <= k < i ==> !HasMarker(commits[k].message)
    {
      if StartsWith(commits[i].message, "%") {
        obfuscated := true;
        branchName := ObfuscateMessage(branch, draws(BranchCall));
        repoName := ObfuscateMessage(repo, draws(RepoCall));
        break;
      }
    }
    assert obfuscated == IsObfuscatedBatch(commits);

    EmptyAppend(Header);
    changelog := changelog + Header;
    var listing := WriteListing(commits, size, obfuscated, draws);
    changelog := changelog + listing;

    r := ChangeLog(repoName, branchName, changelog);
  }

  /** The second loop of `getChangeLog`: a line per commit, until the
      summary line replaces the commits after the first `MaxLines`. */
  method WriteListing(commits: seq<Commit>, size: int, obfuscated: bool, draws: Draws)
    returns (listing: string)
    ensures listing == Listing(commits, size, obfuscated, draws)
  {
    listing := "";
    for i := 0 to |commits|
      invariant i <= MaxLines
      invariant listing == Lines(commits[..i], obfuscated, draws)
    {
      if i > 32 {
        listing := listing + Summary(size - i);
        break;
      }
      var line := FormatLine(commits[i], obfuscated, draws(MessageCall(i)));
      LinesStep(commits, i, obfuscated, draws);
      listing := listing + line;
    }
    assert commits[..|commits|] == commits;
  }

  /** Listing one more commit appends its line. */
  lemma LinesStep(commits: seq<Commit>, i: nat, obfuscated: bool, draws: Draws)
    requires i < |commits|
    ensures Lines(commits[..i + 1], obfuscated, draws)
      == Lines(commits[..i], obfuscated, draws) + Line(commits[i], obfuscated, draws(MessageCall(i)))
  {
    assert commits[..i + 1][..i] == commits[..i];
  }

  /** The body of the line loop for one commit: short hash, marker
      removal, obfuscation or decoration, clamp. */
  method FormatLine(commit: Commit, obfuscated: bool, pick: Picks) returns (line: string)
    ensures line == Line(commit, obfuscated, pick)
  {
    var sha := commit.id[..if |commit.id| < 6 then |commit.id| else 6];
    var message := commit.message;

    if StartsWith(message, "%") {
      message := message[1..];
    }

    if obfuscated {
      message := ObfuscateMessage(message, pick);
      message := ReplaceSpaces(message);
    } else {
      message := Decorate(message);
    }

    if |message| > MaxMessageLength {
      message := message[..MaxMessageLength] + "...";
    }

    line := "`" + sha + "` " + message + "\n";
  }

  /** The lines of a prefix of the listed commits start the lines of all
      of them. */
  lemma {:induction false} LinesPrefix(listed: seq<Commit>, n: nat, obfuscated: bool, draws: Draws)
    requires n <= |listed|
    ensures StartsWith(Lines(listed, obfuscated, draws), Lines(listed[..n], obfuscated, draws))
    decreases |listed|
  {
    if n < |listed| {
      var i := |listed| - 1;
      assert listed[..i][..n] == listed[..n];
      LinesPrefix(listed[..i], n, obfuscated, draws);
    } else {
      assert listed[..n] == listed;
    }
  }

  /** Each of the first `MaxLines` commits has its line, in commit order,
      right after the lines of the commits before it; the line is rendered
      in the mode of the whole batch. */
  lemma LineOfCommit(repo: string, branch: string, commits: seq<Commit>, size: int, draws: Draws, i: nat)
    requires i < |commits| && i < MaxLines
    ensures var text := ChangeLogOf(repo, branch, commits, size, draws).text;
      var offset := |Header| + |Lines(commits[..i], IsObfuscatedBatch(commits), draws)|;
      offset <= |text| &&
      StartsWith(text[offset..], Line(commits[i], IsObfuscatedBatch(commits), draws(MessageCall(i))))
  {
    var obfuscated := IsObfuscatedBatch(commits);
    ListingStartsWithLine(commits, size, obfuscated, draws, i);
    StartsWithAfter(Header, Listing(commits, size, obfuscated, draws), Lines(commits[..i], obfuscated, draws),
      Line(commits[i], obfuscated, draws(MessageCall(i))));
  }

  /** The listing starts with the lines of the first `n` commits, for any
      `n` up to `MaxLines`. */
  lemma ListingStartsWithLines(commits: seq<Commit>, size: int, obfuscated: bool, draws: Draws, n: nat)
    requires n <= |commits| && n <= MaxLines
    ensures StartsWith(Listing(commits, size, obfuscated, draws), Lines(commits[..n], obfuscated, draws))
  {
    if |commits| <= MaxLines {
      LinesPrefix(commits, n, obfuscated, draws);
    } else {
      var listed := commits[..MaxLines];
      assert listed[..n] == commits[..n];
      LinesPrefix(listed, n, obfuscated, draws);
      StartsWithAppended(Lines(listed, obfuscated, draws), Summary(size - MaxLines));
      StartsWithTransitive(Listing(commits, size, obfuscated, draws), Lines(listed, obfuscated, draws), Lines(commits[..n], obfuscated, draws));
    }
  }

  lemma ListingStartsWithLine(commits: seq<Commit>, size: int, obfuscated: bool, draws: Draws, i: nat)
    requires i < |commits| && i < MaxLines
    ensures StartsWith(Listing(commits, size, obfuscated, draws),
      Lines(commits[..i], obfuscated, draws) + Line(commits[i], obfuscated, draws(MessageCall(i))))
  {
    ListingStartsWithLines(commits, size, obfuscated, draws, i + 1);
    LinesStep(commits, i, obfuscated, draws);
  }

  /** Past `MaxLines` commits the text ends with the one summary line
      counting the rest, and the commits after the first `MaxLines` show
      only through the obfuscation mode they may turn on. */
  lemma LongBatch(repo: string, branch: string, commits: seq<Commit>, others: seq<Commit>, size: int, draws: Draws)
    requires |commits| > MaxLines && |others| > MaxLines
    requires commits[..MaxLines] == others[..MaxLines]
    requires IsObfuscatedBatch(commits) == IsObfuscatedBatch(others)
    ensures var text := ChangeLogOf(repo, branch, commits, size, draws).text;
      |Summary(size - MaxLines)| <= |text| &&
      text[|text| - |Summary(size - MaxLines)|..] == Summary(size - MaxLines)
    ensures ChangeLogOf(repo, branch, commits, size, draws).text
      == Header + Lines(commits[..MaxLines], IsObfuscatedBatch(commits), draws) + Summary(size - MaxLines)
    ensures ChangeLogOf(repo, branch, commits, size, draws) == ChangeLogOf(repo, branch, others, size, draws)
  {
    var obfuscated := IsObfuscatedBatch(commits);
    var lines := Lines(commits[..MaxLines], obfuscated, draws);
    EndsWithAppended(Header + lines, Summary(size - MaxLines));
    AppendAssociative(Header, lines, Summary(size - MaxLines));
  }

  /** Up to `MaxLines` commits, every commit has its line and no summary
      line is added. */
  lemma ShortBatch(repo: string, branch: string, commits: seq<Commit>, size: int, draws: Draws)
    requires |commits| <= MaxLines
    ensures ChangeLogOf(repo, branch, commits, size, draws).text
      == Header + Lines(commits, IsObfuscatedBatch(commits), draws)
  {
  }

  /** In obfuscated mode a rendered message has no space left; within the
      length limit it has the length of the message without its marker, the
      space mark exactly where that message has a space and a glyph
      everywhere else. */
  lemma ObfuscatedMessage(message: string, pick: Picks)
    ensures var r := RenderMessage(message, true, pick);
      var m := StripMarker(message);
      ' ' !in r &&
      |r| == (if |m| <= MaxMessageLength then |m| else MaxMessageLength + |Ellipsis|) &&
      forall i :: 0 <= i < |m| && i < MaxMessageLength ==>
        (m[i] == ' ' <==> r[i] == SpaceMark) && (m[i] != ' ' ==> r[i] in Glyphs)
  {
    var m := StripMarker(message);
    var scrambled := Scrambled(m, pick);
    ScrambledShape(m, pick);
    var r := RenderMessage(message, true, pick);
    if |m| > MaxMessageLength {
      assert r == scrambled[..MaxMessageLength] + Ellipsis;
      assert ' ' !in Ellipsis;
      forall i | 0 <= i < MaxMessageLength ensures r[i] == scrambled[i] { }
    }
  }

  /** In plain mode a message whose marker-less text no replacement matches
      is only clamped. */
  lemma PlainMessageUndecorated(message: string, pick: Picks)
    requires forall j :: 0 <= j < |Rules| ==> !Matches(Rules[j], StripMarker(message))
    ensures RenderMessage(message, false, pick) == Clamp(StripMarker(message))
  {
    var m := StripMarker(message);
    DecorateIsFirstMatch(m);
    assert FirstMatchIndex(Rules, m).None?;
  }

  /** In plain mode a message whose earliest matching replacement is `j`,
      on its first matching alternative `k`, shows that replacement followed
      by the rest of the message, then clamped. */
  lemma PlainMessageDecorated(message: string, pick: Picks, j: nat, k: nat)
    requires j < |Rules| && k < |Rules[j].words|
    requires StartsWithFolded(StripMarker(message), Rules[j].words[k] + Rules[j].suffix)
    requires forall i :: 0 <= i < k ==> !StartsWithFolded(StripMarker(message), Rules[j].words[i] + Rules[j].suffix)
    requires forall i :: 0 <= i < j ==> !Matches(Rules[i], StripMarker(message))
    ensures RenderMessage(message, false, pick)
      == Clamp(Rules[j].replacement + StripMarker(message)[|Rules[j].words[k] + Rules[j].suffix|..])
  {
    DecorateFirstWins(StripMarker(message), j, k);
  }

  /** A push of one plain `fix:` commit: the header, then the six-character
      hash and the wrench in place of the keyword. */
  lemma SingleFixCommit(repo: string, branch: string, c: Commit, draws: Draws, rest: string)
    requires |c.id| >= 6 && c.message == "fix:" + rest && |rest| + 2 <= MaxMessageLength
    ensures ChangeLogOf(repo, branch, [c], 1, draws)
      == ChangeLog(repo, branch, Header + ("`" + c.id[..6] + "` " + ("🔧 " + rest) + "\n"))
  {
    assert !HasMarker(c.message) by {
      assert c.message[0] == 'f';
    }
    assert !IsObfuscatedBatch([c]);
    assert StartsWithFolded(c.message, "fix:");
    FixPrefix(c.message);
    assert c.message[4..] == rest;
    var line := Line(c, false, draws(MessageCall(0)));
    assert line == "`" + c.id[..6] + "` " + ("🔧 " + rest) + "\n";
    assert [c][..0] == [];
    EmptyAppend(line);
    assert Lines([c], false, draws) == line;
  }
}
