/** `send` and the text of `createEmbed`: the arguments are checked, merge
    commits are dropped, and what is left becomes the one embed of the
    webhook message. */
module Dispatch {
  import opened Wrappers
  import opened Text
  import opened Obfuscation
  import opened ChangeLog

  /** `commit.message.toLowerCase().startsWith('merge')`. */
  predicate IsMerge(c: Commit) {
    StartsWith(Lower(c.message), "merge")
  }

  /** The merge test is a case-insensitive prefix test. */
  lemma MergeIgnoresCase(c: Commit)
    ensures IsMerge(c) <==> StartsWithFolded(c.message, "merge")
  {
    assert Lower("merge") == "merge";
    LowerStartsWith(c.message, "merge");
  }

  /** `commits.filter(commit => !isMerge(commit))`. */
  function FilterMerges(commits: seq<Commit>): (r: seq<Commit>)
    ensures |r| <= |commits|
    ensures forall c :: c in r <==> c in commits && !IsMerge(c)
  {
    if commits == [] then []
    else
      var rest := FilterMerges(commits[1..]);
      assert commits == [commits[0]] + commits[1..];
      if IsMerge(commits[0]) then rest else [commits[0]] + rest
  }

  /** The filter keeps order: filtering a concatenation concatenates the
      filtered parts. */
  lemma {:induction false} FilterAppend(a: seq<Commit>, b: seq<Commit>)
    ensures FilterMerges(a + b) == FilterMerges(a) + FilterMerges(b)
    decreases |a|
  {
    if a != [] {
      assert a + b != [] && (a + b)[0] == a[0];
      assert (a + b)[1..] == a[1..] + b;
      FilterAppend(a[1..], b);
    } else {
      assert a + b == b;
    }
  }

  /** Filtering twice is filtering once. */
  lemma {:induction false} FilterIdempotent(commits: seq<Commit>)
    ensures FilterMerges(FilterMerges(commits)) == FilterMerges(commits)
    decreases |commits|
  {
    if commits != [] {
      FilterIdempotent(commits[1..]);
      var rest := FilterMerges(commits[1..]);
      if !IsMerge(commits[0]) {
        FilterAppend([commits[0]], rest);
      }
    }
  }

  /** A batch without merge commits passes the filter unchanged, and only
      such a batch does. */
  lemma {:induction false} FilterKeepsAll(commits: seq<Commit>)
    ensures FilterMerges(commits) == commits <==> forall i :: 0 <= i < |commits| ==> !IsMerge(commits[i])
    decreases |commits|
  {
    if commits != [] {
      var rest := FilterMerges(commits[1..]);
      FilterKeepsAll(commits[1..]);
      assert forall i :: 1 <= i < |commits| ==> commits[i] == commits[1..][i - 1];
      if IsMerge(commits[0]) {
        assert |FilterMerges(commits)| < |commits|;
      } else {
        assert FilterMerges(commits) == [commits[0]] + rest;
        assert commits == [commits[0]] + commits[1..];
      }
    }
  }

  /** `iconURL` after the author of the latest commit has been filled in:
      none when the commit has no author, the fixed picture otherwise. */
  const AvatarUrl := "https://i.imgur.com/yZcbfqm.png?size=32"

  const EmbedColor := 0x00bb22
  const Footer := "⚡ Edited by SALife @Developers"

  /** The parts of the embed the source sets; `timestamp` is the raw
      string handed to `Date.parse`. */
  datatype Embed = Embed(
    color: nat,
    authorName: string,
    iconUrl: Option<string>,
    description: string,
    timestamp: string,
    footer: string)

  /** The author line: `<size> commit was|commits were added to <repo>/<branch>`. */
  function AuthorName(size: int, repo: string, branch: string): (r: string)
    ensures StartsWith(r, IntToString(size) + " ")
    ensures StartsWith(r, IntToString(size) + (if size == 1 then " commit was" else " commits were") + " added to ")
    ensures EndsWith(r, " added to " + repo + "/" + branch)
    ensures |r| == |IntToString(size)| + (if size == 1 then 21 else 23) + |repo| + 1 + |branch|
  {
    var count := IntToString(size) + (if size == 1 then " commit was" else " commits were");
    AppendAssociative(IntToString(size), " ", if size == 1 then "commit was" else "commits were");
    var r := count + " added to " + repo + "/" + branch;
    assert r == count + (" added to " + repo + "/" + branch);
    r
  }

  /** The singular form is used exactly when the count is one. */
  lemma SingularExactlyForOne(size: int, repo: string, branch: string)
    ensures StartsWith(AuthorName(size, repo, branch), "1 commit was ") <==> size == 1
  {
    var s := IntToString(size);
    var r := AuthorName(size, repo, branch);
    var singular := "1 commit was ";
    if size == 1 {
      assert s == "1";
      assert r[..|singular|] == singular;
    } else if |s| == 1 {
      assert r[0] != singular[0];
    } else if size < 0 {
      assert r[0] == '-';
      assert r[0] != singular[0];
    } else {
      assert IsDigit(s[1]) && r[1] == s[1];
      assert r[1] != singular[1];
    }
  }

  /** `createEmbed(repo, branch, url, commits, size)`: nothing for an empty
      batch, otherwise the embed built around the changelog. */
  function CreateEmbed(repo: string, branch: string, commits: seq<Commit>, size: int, draws: Draws): (r: Option<Embed>)
    ensures r.None? <==> commits == []
    ensures r.Some? ==> StartsWith(r.value.description, Header)
    ensures r.Some? ==> (r.value.iconUrl.Some? <==> commits[0].author.Some?)
    ensures r.Some? ==> StartsWith(r.value.authorName, IntToString(size) + " ")
    ensures r.Some? ==>
      var log := ChangeLogOf(repo, branch, commits, size, draws);
      r.value.description == log.text &&
      r.value.authorName == AuthorName(size, log.repo, log.branch) &&
      r.value.timestamp == commits[0].timestamp &&
      r.value.color == EmbedColor && r.value.footer == Footer
  {
    if commits == [] then None
    else
      var latest := commits[0];
      var log := ChangeLogOf(repo, branch, commits, size, draws);
      Some(Embed(
        EmbedColor,
        AuthorName(size, log.repo, log.branch),
        if latest.author.None? then None else Some(AvatarUrl),
        log.text,
        latest.timestamp,
        Footer))
  }

  /** The author line names the repository and branch as the changelog
      shows them: as given, or, in an obfuscated batch, their silhouettes. */
  lemma AuthorNameNamesTarget(repo: string, branch: string, commits: seq<Commit>, size: int, draws: Draws)
    requires commits != []
    ensures var log := ChangeLogOf(repo, branch, commits, size, draws);
      EndsWith(CreateEmbed(repo, branch, commits, size, draws).value.authorName, " added to " + log.repo + "/" + log.branch) &&
      (IsObfuscatedBatch(commits) ==> IsSilhouette(repo, log.repo) && IsSilhouette(branch, log.branch)) &&
      (!IsObfuscatedBatch(commits) ==> log.repo == repo && log.branch == branch)
  {
  }

  /** The message handed to `client.send`. */
  datatype Payload = Payload(embeds: seq<Option<Embed>>, threadId: Option<string>)

  /** How the webhook transport settles a send. */
  datatype Delivery = Delivered | Failed(error: string)

  /** How `send` settles: refused before anything is sent, or sent and
      settled as the transport settles. */
  datatype Outcome =
    | Refused(reason: string)
    | Sent(payload: Payload, delivery: Delivery)

  const MissingCredentials := "ID or token is missing"
  const BadThreadId := "threadId is not a number"

  /** A JavaScript truthiness test on an optional string argument:
      `undefined` and the empty string are falsy. */
  predicate Truthy(s: Option<string>) {
    s.Some? && s.value != ""
  }

  /** The payload `send` hands to the transport: the one embed of the batch
      without its merge commits, counted after filtering, and the thread id
      when it is truthy. */
  function SentPayload(repo: string, branch: string, commits: seq<Commit>, threadId: Option<string>, draws: Draws): Payload {
    var kept := FilterMerges(commits);
    Payload([CreateEmbed(repo, branch, kept, |kept|, draws)], if Truthy(threadId) then threadId else None)
  }

  /** `send(id, token, repo, branch, url, commits, size, threadId)`, with the
      numeric test of `isNaN` and the webhook transport as parameters. */
  function Send(
    id: Option<string>, token: Option<string>, repo: string, branch: string,
    commits: seq<Commit>, size: int, threadId: Option<string>,
    isNumeric: string -> bool, draws: Draws, deliver: Payload -> Delivery): (o: Outcome)
    ensures o.Refused? <==> !Truthy(id) || !Truthy(token) || (Truthy(threadId) && !isNumeric(threadId.value))
    ensures o.Refused? ==> o.reason == (if !Truthy(id) || !Truthy(token) then MissingCredentials else BadThreadId)
    ensures o.Sent? ==> o.delivery == deliver(o.payload)
    ensures o.Sent? ==> |o.payload.embeds| == 1 && (o.payload.threadId.Some? <==> Truthy(threadId))
    ensures o.Sent? ==> o.payload == SentPayload(repo, branch, commits, threadId, draws)
  {
    if !Truthy(id) || !Truthy(token) then Refused(MissingCredentials)
    else
      var kept := FilterMerges(commits);
      var embeds := [CreateEmbed(repo, branch, kept, |kept|, draws)];
      if Truthy(threadId) then
        if !isNumeric(threadId.value) then Refused(BadThreadId)
        else
          var payload := Payload(embeds, threadId);
          Sent(payload, deliver(payload))
      else
        var payload := Payload(embeds, None);
        Sent(payload, deliver(payload))
  }

  /** The promise resolves exactly when the arguments pass and the transport
      delivers. */
  predicate Resolves(o: Outcome) {
    o.Sent? && o.delivery.Delivered?
  }

  /** `send` resolves exactly when the credentials are there, the thread id
      is absent or numeric, and the transport delivers the filtered payload. */
  lemma SendResolves(
    id: Option<string>, token: Option<string>, repo: string, branch: string,
    commits: seq<Commit>, size: int, threadId: Option<string>,
    isNumeric: string -> bool, draws: Draws, deliver: Payload -> Delivery)
    ensures Resolves(Send(id, token, repo, branch, commits, size, threadId, isNumeric, draws, deliver))
      <==> Truthy(id) && Truthy(token) && (!Truthy(threadId) || isNumeric(threadId.value))
           && deliver(SentPayload(repo, branch, commits, threadId, draws)).Delivered?
  {
  }

  /** What is sent is the embed of the batch without its merge commits,
      counted after filtering: the `size` argument is never used, and a batch
      of only merge commits sends an empty embed slot. */
  lemma SentEmbedIsFiltered(
    id: Option<string>, token: Option<string>, repo: string, branch: string,
    commits: seq<Commit>, size: int, threadId: Option<string>,
    isNumeric: string -> bool, draws: Draws, deliver: Payload -> Delivery)
    requires Send(id, token, repo, branch, commits, size, threadId, isNumeric, draws, deliver).Sent?
    ensures var e := Send(id, token, repo, branch, commits, size, threadId, isNumeric, draws, deliver).payload.embeds[0];
      (e.None? <==> forall i :: 0 <= i < |commits| ==> IsMerge(commits[i])) &&
      (e.Some? ==> StartsWith(e.value.authorName, IntToString(|FilterMerges(commits)|) + " "))
  {
    var kept := FilterMerges(commits);
    if kept == [] {
      forall i | 0 <= i < |commits| ensures IsMerge(commits[i]) {
        assert commits[i] in commits;
      }
    } else {
      assert kept[0] in commits;
    }
  }

  /** The `size` argument has no effect on what `send` does. */
  lemma SizeIgnored(
    id: Option<string>, token: Option<string>, repo: string, branch: string,
    commits: seq<Commit>, size: int, size': int, threadId: Option<string>,
    isNumeric: string -> bool, draws: Draws, deliver: Payload -> Delivery)
    ensures Send(id, token, repo, branch, commits, size, threadId, isNumeric, draws, deliver)
      == Send(id, token, repo, branch, commits, size', threadId, isNumeric, draws, deliver)
  {
  }
}
