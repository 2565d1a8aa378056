/** The keyword decoration of plain (not obfuscated) commit messages: a
    fixed, ordered list of case-insensitive, start-anchored replacements
    that turn a conventional prefix such as `fix:` into an emoji. */
module Keywords {
  import opened Wrappers
  import opened Text

  /** One `message.replace(/^(w1|w2|...)<suffix>/i, replacement)`: the
      alternatives in their written order, the literal text that must
      follow the keyword, and the replacement text. */
  datatype Rule = Rule(words: seq<string>, suffix: string, replacement: string)

  /* The replacements of the source, one per statement, alternatives kept
     as written, repeated ones included. */
  const FixRule := Rule(["fix", "fixed", "fixes", "bug", "bugfix", "bugfixes", "bugfixing", "bugfixes", "bugfixing"], ":", "🔧 ")
  const FeatureRule := Rule(["feat", "add", "added", "adds", "feature", "features", "featureing", "featureing", "featureing", "featureing"], ":", "✨ ")
  const RemoveRule := Rule(["remove", "removed", "removeing", "removeing", "removeing", "removeing"], ":", "🗑️ ")
  const UpdateRule := Rule(["update", "updated", "updateing", "updateing", "updateing", "updateing"], ":", "📝 ")
  const SecurityRule := Rule(["security", "secure"], ":", "🔒 ")
  const BugRule := Rule(["bug", "bugfix"], ":", "🐛 ")
  const RefactorRule := Rule(["refactor", "refactored"], ":", "🔄 ")
  const DocsRule := Rule(["docs", "documentation"], ":", "📚 ")
  const TestRule := Rule(["test", "testing"], ":", "🧪 ")
  const StyleRule := Rule(["style", "styling"], ":", "🎨 ")
  const ChoreRule := Rule(["chore", "choreography"], ":", "🧹 ")
  const PerfRule := Rule(["perf", "performance"], ":", "🚀 ")
  const RevertRule := Rule(["revert", "reverted"], ":", "⏪ ")
  const ScriptRule := Rule(["script", "scripts", "scripting", "scripting", "scripting", "scripting"], ":", "💻 ")
  const ConfigRule := Rule(["config", "configuration", "configuring", "configuring", "configuring", "configuring"], ":", "🔧 ")
  const GarageRule := Rule(["garage", "vehicle", "vehicles"], ":", "🚗 ")
  const JobRule := Rule(["job", "jobs"], ":", "💼 ")
  const HousingRule := Rule(["ps-housing", "house", "property", "properties", "property", "properties"], ":", "🏠 ")
  const SignatureRule := Rule(["Sytrookie"], ": ", "@Developers")

  /** The replacements, in the order they are applied. */
  const Rules: seq<Rule> := [
    FixRule, FeatureRule, RemoveRule, UpdateRule, SecurityRule,
    BugRule, RefactorRule, DocsRule, TestRule, StyleRule,
    ChoreRule, PerfRule, RevertRule, ScriptRule, ConfigRule,
    GarageRule, JobRule, HousingRule, SignatureRule
  ]

  /** Position of the duplicate `bug|bugfix` replacement in `Rules`. */
  const BugRuleIndex := 5

  /** Length of the text the pattern matches at the start of `m`: that of
      the first alternative which, followed by the suffix, starts `m`
      ignoring case; `None` when there is none. */
  function MatchLength(words: seq<string>, suffix: string, m: string): (r: Option<nat>)
    ensures r.Some? <==> exists k :: 0 <= k < |words| && StartsWithFolded(m, words[k] + suffix)
    ensures r.Some? ==> r.value <= |m|
    ensures r.Some? ==> exists k :: 0 <= k < |words| && StartsWithFolded(m, words[k] + suffix) && r.value == |words[k] + suffix|
  {
    if words == [] then None
    else if StartsWithFolded(m, words[0] + suffix) then Some(|words[0] + suffix|)
    else
      var r := MatchLength(words[1..], suffix, m);
      assert forall k :: 1 <= k < |words| ==> words[k] == words[1..][k - 1];
      r
  }

  predicate Matches(rule: Rule, m: string) {
    MatchLength(rule.words, rule.suffix, m).Some?
  }

  /** One `replace` call: the matched prefix, if any, becomes the
      replacement and the rest of the message is kept. */
  function ApplyRule(rule: Rule, m: string): (r: string)
    ensures !Matches(rule, m) ==> r == m
    ensures Matches(rule, m) ==> StartsWith(r, rule.replacement)
  {
    match MatchLength(rule.words, rule.suffix, m)
    case None => m
    case Some(n) => rule.replacement + m[n..]
  }

  /** The replacements as the source runs them: one after the other, each
      on the result of the previous one. */
  function RewritePass(rules: seq<Rule>, m: string): string
    decreases |rules|
  {
    if rules == [] then m else RewritePass(rules[1..], ApplyRule(rules[0], m))
  }

  /** Reference semantics: only the first replacement whose pattern
      matches is applied. */
  function FirstMatch(rules: seq<Rule>, m: string): string
    decreases |rules|
  {
    if rules == [] then m
    else if Matches(rules[0], m) then ApplyRule(rules[0], m)
    else FirstMatch(rules[1..], m)
  }

  /** Index of the replacement `FirstMatch` applies. */
  function FirstMatchIndex(rules: seq<Rule>, m: string): (r: Option<nat>)
    ensures r.Some? ==> r.value < |rules| && Matches(rules[r.value], m)
    ensures r.Some? ==> forall k :: 0 <= k < r.value ==> !Matches(rules[k], m)
    ensures r.None? ==> forall k :: 0 <= k < |rules| ==> !Matches(rules[k], m)
    decreases |rules|
  {
    if rules == [] then None
    else if Matches(rules[0], m) then Some(0)
    else
      match FirstMatchIndex(rules[1..], m)
      case None => None
      case Some(j) => Some(j + 1)
  }

  /** Every keyword starts with an ASCII letter and every replacement
      starts with something that is not one. */
  predicate RuleWellFormed(rule: Rule) {
    |rule.replacement| > 0 && !IsAsciiLetter(rule.replacement[0]) &&
    forall k :: 0 <= k < |rule.words| ==> |rule.words[k]| > 0 && IsAsciiLetter(rule.words[k][0])
  }

  predicate WellFormed(rules: seq<Rule>) {
    forall j :: 0 <= j < |rules| ==> RuleWellFormed(rules[j])
  }

  lemma RulesWellFormed()
    ensures WellFormed(Rules)
  {
    LeadingRulesWellFormed();
    MiddleRulesWellFormed();
    TrailingRulesWellFormed();
  }

  lemma LeadingRulesWellFormed()
    ensures forall j :: 0 <= j < 6 ==> RuleWellFormed(Rules[j])
  {
    assert RuleWellFormed(FixRule);
    assert RuleWellFormed(FeatureRule);
    assert RuleWellFormed(RemoveRule);
    assert RuleWellFormed(UpdateRule);
    assert RuleWellFormed(SecurityRule);
    assert RuleWellFormed(BugRule);
  }

  lemma MiddleRulesWellFormed()
    ensures forall j :: 6 <= j < 13 ==> RuleWellFormed(Rules[j])
  {
    assert RuleWellFormed(RefactorRule);
    assert RuleWellFormed(DocsRule);
    assert RuleWellFormed(TestRule);
    assert RuleWellFormed(StyleRule);
    assert RuleWellFormed(ChoreRule);
    assert RuleWellFormed(PerfRule);
    assert RuleWellFormed(RevertRule);
  }

  lemma TrailingRulesWellFormed()
    ensures forall j :: 13 <= j < |Rules| ==> RuleWellFormed(Rules[j])
  {
    assert RuleWellFormed(ScriptRule);
    assert RuleWellFormed(ConfigRule);
    assert RuleWellFormed(GarageRule);
    assert RuleWellFormed(JobRule);
    assert RuleWellFormed(HousingRule);
    assert RuleWellFormed(SignatureRule);
  }

  /** The pattern matches the first alternative (in written order) that,
      with the suffix, starts the message. */
  lemma {:induction false} FirstKeywordMatches(words: seq<string>, suffix: string, m: string, k: nat)
    requires k < |words| && StartsWithFolded(m, words[k] + suffix)
    requires forall i :: 0 <= i < k ==> !StartsWithFolded(m, words[i] + suffix)
    ensures MatchLength(words, suffix, m) == Some(|words[k] + suffix|)
  {
    if k > 0 {
      assert words[1..][k - 1] == words[k];
      forall i | 0 <= i < k - 1 ensures !StartsWithFolded(m, words[1..][i] + suffix) {
        assert words[1..][i] == words[i + 1];
      }
      FirstKeywordMatches(words[1..], suffix, m, k - 1);
    }
  }

  /** A message that does not start with an ASCII letter, as every
      rewritten message does, matches no well-formed pattern. */
  lemma NoMatchWithoutLetter(rule: Rule, m: string)
    requires RuleWellFormed(rule)
    requires |m| > 0 && !IsAsciiLetter(m[0])
    ensures !Matches(rule, m)
  {
  }

  lemma {:induction false} PassKeepsUnlettered(rules: seq<Rule>, m: string)
    requires WellFormed(rules)
    requires |m| > 0 && !IsAsciiLetter(m[0])
    ensures RewritePass(rules, m) == m
    decreases |rules|
  {
    if rules != [] {
      NoMatchWithoutLetter(rules[0], m);
      PassKeepsUnlettered(rules[1..], m);
    }
  }

  /** Running the replacements in sequence is the same as applying only the
      first one that matches: once a replacement has fired, the message
      starts with its emoji and no later pattern can match. */
  lemma {:induction false} PassIsFirstMatch(rules: seq<Rule>, m: string)
    requires WellFormed(rules)
    ensures RewritePass(rules, m) == FirstMatch(rules, m)
    decreases |rules|
  {
    if rules != [] {
      var m' := ApplyRule(rules[0], m);
      if Matches(rules[0], m) {
        assert m'[0] == rules[0].replacement[0];
        PassKeepsUnlettered(rules[1..], m');
      } else {
        PassIsFirstMatch(rules[1..], m);
      }
    }
  }

  /** `FirstMatch` applies the replacement `FirstMatchIndex` names. */
  lemma {:induction false} FirstMatchApplies(rules: seq<Rule>, m: string)
    ensures FirstMatchIndex(rules, m).None? ==> FirstMatch(rules, m) == m
    ensures FirstMatchIndex(rules, m).Some? ==>
      FirstMatch(rules, m) == ApplyRule(rules[FirstMatchIndex(rules, m).value], m)
    decreases |rules|
  {
    if rules == [] {
    } else if Matches(rules[0], m) {
      assert FirstMatchIndex(rules, m) == Some(0);
    } else {
      FirstMatchApplies(rules[1..], m);
      assert FirstMatch(rules, m) == FirstMatch(rules[1..], m);
      match FirstMatchIndex(rules[1..], m)
      case None =>
        assert FirstMatchIndex(rules, m) == None;
      case Some(t) =>
        assert FirstMatchIndex(rules, m) == Some(t + 1);
        assert rules[1..][t] == rules[t + 1];
    }
  }

  /** The decoration of a plain commit message. */
  function Decorate(m: string): string {
    RewritePass(Rules, m)
  }

  /** The decoration applies exactly the earliest replacement that matches,
      and leaves a message no pattern matches unchanged. */
  lemma DecorateIsFirstMatch(m: string)
    ensures FirstMatchIndex(Rules, m).None? ==> Decorate(m) == m
    ensures FirstMatchIndex(Rules, m).Some? ==>
      Decorate(m) == ApplyRule(Rules[FirstMatchIndex(Rules, m).value], m)
  {
    RulesWellFormed();
    PassIsFirstMatch(Rules, m);
    FirstMatchApplies(Rules, m);
  }

  /** When the earliest matching replacement is number `j` and its first
      matching alternative is `k`, the decoration is that replacement
      followed by the rest of the message after the keyword and its
      suffix. */
  lemma DecorateFirstWins(m: string, j: nat, k: nat)
    requires j < |Rules| && k < |Rules[j].words|
    requires StartsWithFolded(m, Rules[j].words[k] + Rules[j].suffix)
    requires forall i :: 0 <= i < k ==> !StartsWithFolded(m, Rules[j].words[i] + Rules[j].suffix)
    requires forall i :: 0 <= i < j ==> !Matches(Rules[i], m)
    ensures Decorate(m) == Rules[j].replacement + m[|Rules[j].words[k] + Rules[j].suffix|..]
  {
    FirstKeywordMatches(Rules[j].words, Rules[j].suffix, m, k);
    DecorateIsFirstMatch(m);
    FirstMatchIndexIs(Rules, m, j);
  }

  /** The replacement applied is the earliest one that matches. */
  lemma FirstMatchIndexIs(rules: seq<Rule>, m: string, j: nat)
    requires j < |rules| && Matches(rules[j], m)
    requires forall i :: 0 <= i < j ==> !Matches(rules[i], m)
    ensures FirstMatchIndex(rules, m) == Some(j)
  {
    var f := FirstMatchIndex(rules, m);
    assert f.Some? && !(f.value < j) && !(j < f.value);
  }

  /** A message a pattern matches is rewritten: it no longer starts with a
      letter, so it reads as the emoji (or the mention) followed by the rest. */
  lemma DecoratedStartsWithReplacement(m: string, j: nat)
    requires j < |Rules| && Matches(Rules[j], m)
    ensures FirstMatchIndex(Rules, m).Some?
    ensures StartsWith(Decorate(m), Rules[FirstMatchIndex(Rules, m).value].replacement)
  {
    DecorateIsFirstMatch(m);
  }

  /** If `rule`'s alternatives are among `wider`'s and the suffix is the
      same, whatever `rule` matches `wider` matches too. */
  lemma Subsumed(wider: Rule, rule: Rule, m: string)
    requires rule.suffix == wider.suffix
    requires forall k :: 0 <= k < |rule.words| ==> rule.words[k] in wider.words
    ensures Matches(rule, m) ==> Matches(wider, m)
  {
    if Matches(rule, m) {
      var k :| 0 <= k < |rule.words| && StartsWithFolded(m, rule.words[k] + rule.suffix);
      var k' :| 0 <= k' < |wider.words| && wider.words[k'] == rule.words[k];
      assert StartsWithFolded(m, wider.words[k'] + wider.suffix);
    }
  }

  /** The duplicate `bug|bugfix` replacement never fires: whatever it
      would match, the first replacement has already matched. */
  lemma DuplicateBugRuleNeverApplies(m: string)
    ensures FirstMatchIndex(Rules, m) != Some(BugRuleIndex)
  {
    Subsumed(Rules[0], Rules[BugRuleIndex], m);
  }

  /** A message that starts with the keyword `fix` and a colon, in any
      case, is shown as the wrench and a space followed by the rest. */
  lemma FixPrefix(m: string)
    requires StartsWithFolded(m, "fix:")
    ensures Decorate(m) == "🔧 " + m[4..]
  {
    assert FixRule.words[0] + FixRule.suffix == "fix:";
    DecorateFirstWins(m, 0, 0);
  }

  /** `bug:`, in any case, also gets the wrench of the first replacement
      and never the bug of the duplicate one. */
  lemma BugPrefix(m: string)
    requires StartsWithFolded(m, "bug:")
    ensures Decorate(m) == "🔧 " + m[4..]
  {
    assert FixRule.words[3] + FixRule.suffix == "bug:";
    assert Fold(m[0]) == 'b';
    DecorateFirstWins(m, 0, 3);
  }

  /** A rule none of whose keywords agrees with `m`, ignoring case, at
      position `p` does not match `m`. */
  lemma MismatchAt(rule: Rule, m: string, p: nat)
    requires p < |m|
    requires forall k :: 0 <= k < |rule.words| ==> p < |rule.words[k]| && Fold(rule.words[k][p]) != Fold(m[p])
    ensures !Matches(rule, m)
  {
    forall k | 0 <= k < |rule.words| ensures !StartsWithFolded(m, rule.words[k] + rule.suffix) {
      assert (rule.words[k] + rule.suffix)[p] == rule.words[k][p];
    }
  }

  /** No keyword of the first nine replacements starts with `sy`, ignoring
      case. */
  lemma LeadingRulesMissSignature(m: string)
    requires |m| >= 2 && Fold(m[0]) == 's' && Fold(m[1]) == 'y'
    ensures forall i :: 0 <= i < 9 ==> !Matches(Rules[i], m)
  {
    MismatchAt(FixRule, m, 0);
    MismatchAt(FeatureRule, m, 0);
    MismatchAt(RemoveRule, m, 0);
    MismatchAt(UpdateRule, m, 0);
    MismatchAt(SecurityRule, m, 1);
    MismatchAt(BugRule, m, 0);
    MismatchAt(RefactorRule, m, 0);
    MismatchAt(DocsRule, m, 0);
    MismatchAt(TestRule, m, 0);
  }

  /** Nor does any keyword of the next nine. */
  lemma TrailingRulesMissSignature(m: string)
    requires |m| >= 2 && Fold(m[0]) == 's' && Fold(m[1]) == 'y'
    ensures forall i :: 9 <= i < 18 ==> !Matches(Rules[i], m)
  {
    MismatchAt(StyleRule, m, 1);
    MismatchAt(ChoreRule, m, 0);
    MismatchAt(PerfRule, m, 0);
    MismatchAt(RevertRule, m, 0);
    MismatchAt(ScriptRule, m, 1);
    MismatchAt(ConfigRule, m, 0);
    MismatchAt(GarageRule, m, 0);
    MismatchAt(JobRule, m, 0);
    MismatchAt(HousingRule, m, 0);
  }

  /** The signature `Sytrookie: `, in any case, becomes the `@Developers`
      mention with no space after it. */
  lemma SignaturePrefix(m: string)
    requires StartsWithFolded(m, "Sytrookie: ")
    ensures Decorate(m) == "@Developers" + m[11..]
  {
    assert SignatureRule.words[0] + SignatureRule.suffix == "Sytrookie: ";
    assert Fold(m[0]) == Fold('S') && Fold(m[1]) == Fold('y');
    LeadingRulesMissSignature(m);
    TrailingRulesMissSignature(m);
    DecorateFirstWins(m, 18, 0);
  }
}
