/**
 * The command patcher `fix_command`: seven append-if-absent rules applied in a
 * fixed order to the command string the language model returned, followed by
 * `str.strip()`.
 *
 * The specification `Patched` tests the six flag rules against the ORIGINAL
 * command and concatenates what they append, while `FixCommand` tests each rule
 * against the command accumulated so far, as the source does; the two agree
 * because no appended token contains the check string of another rule.
 */
module Patcher {
  import opened Text

  /** When a rule applies: always, or when the lower-cased goal mentions a keyword. */
  datatype Trigger = Always | GoalMentions(keyword: string)

  /** One rule: when `trigger` holds and `check` is not yet in the command,
      a space and `token` are appended. */
  datatype Rule = Rule(trigger: Trigger, check: string, token: string)

  const OutputRule := Rule(Always, "-oX", "-oX scan_output.xml")
  const OsRule := Rule(GoalMentions("os"), "-O", "-O")
  const AllPortsRule := Rule(GoalMentions("all ports"), "-p-", "-p-")
  const HttpRule := Rule(GoalMentions("http"), "--script=http-", "--script=http-*")
  const VulnRule := Rule(GoalMentions("vuln"), "--script=vuln", "--script=vuln")
  const UdpRule := Rule(GoalMentions("udp"), "-sU", "-sU")

  /** The flag rules in the order `fix_command` applies them; the target rule
      comes last and is handled by `TargetPiece`. */
  const FlagRules: seq<Rule> := [OutputRule, OsRule, AllPortsRule, HttpRule, VulnRule, UdpRule]

  /** The goal is lower-cased before the keyword test; the command is not. */
  predicate Triggered(rule: Rule, goal: string) {
    match rule.trigger
    case Always => true
    case GoalMentions(keyword) => Contains(Lower(goal), keyword)
  }

  predicate Fires(rule: Rule, command: string, goal: string) {
    Triggered(rule, goal) && !Contains(command, rule.check)
  }

  /** What `rule` appends when tested against `command`. */
  function Piece(rule: Rule, command: string, goal: string): string {
    if Fires(rule, command, goal) then [' '] + rule.token else []
  }

  /** What `rules` append, each tested against the unchanged `command`. */
  function FlagSuffix(command: string, goal: string, rules: seq<Rule>): string
    decreases |rules|
  {
    if rules == [] then []
    else FlagSuffix(command, goal, rules[..|rules| - 1]) + Piece(rules[|rules| - 1], command, goal)
  }

  /** The target rule: the target is appended unless it already occurs. */
  function TargetPiece(command: string, target: string): string {
    if Contains(command, target) then [] else [' '] + target
  }

  /** The specification of `fix_command`: the command, then a space and the
      token of every flag rule that fires on it, in rule order, then the target
      if it is still missing, all stripped of surrounding whitespace. */
  function Patched(command: string, goal: string, target: string): string {
    var flagged := command + FlagSuffix(command, goal, FlagRules);
    Strip(flagged + TargetPiece(flagged, target))
  }

  /** `fix_command`: each rule tests the command as updated by the rules
      before it, and the result is stripped. */
  method FixCommand(command: string, goal: string, target: string) returns (fixed: string)
    ensures fixed == Patched(command, goal, target)
    ensures Strip(command) <= fixed
    ensures forall k | 0 <= k < |FlagRules| && Triggered(FlagRules[k], goal) :: Contains(fixed, FlagRules[k].check)
    ensures Trimmed(target) ==> Contains(fixed, target)
  {
    var cmd := ApplyFlagRules(command, goal);
    ghost var flagged := cmd;
    if !Contains(cmd, target) {
      cmd := cmd + [' '] + target;
    }
    assert cmd == flagged + TargetPiece(flagged, target);
    fixed := Strip(cmd);
    PatchedExtends(command, goal, target);
    forall k | 0 <= k < |FlagRules| && Triggered(FlagRules[k], goal)
      ensures Contains(fixed, FlagRules[k].check)
    {
      PatchedHasCheck(command, goal, target, k);
    }
    if Trimmed(target) {
      PatchedHasTarget(command, goal, target);
    }
  }

  /** The six flag steps of `fix_command`, each testing the command as the
      steps before it left it. */
  method ApplyFlagRules(command: string, goal: string) returns (flagged: string)
    ensures flagged == command + FlagSuffix(command, goal, FlagRules)
  {
    flagged := ApplyRule(OutputRule, command, goal);
    ghost var c0 := flagged;
    flagged := ApplyRule(OsRule, flagged, goal);
    ghost var c1 := flagged;
    flagged := ApplyRule(AllPortsRule, flagged, goal);
    ghost var c2 := flagged;
    flagged := ApplyRule(HttpRule, flagged, goal);
    ghost var c3 := flagged;
    flagged := ApplyRule(VulnRule, flagged, goal);
    ghost var c4 := flagged;
    flagged := ApplyRule(UdpRule, flagged, goal);
    StepsAgree(command, goal, c0, c1, c2, c3, c4, flagged);
  }

  /** One `if ... not in command: command += ...` step of `fix_command`. */
  method ApplyRule(rule: Rule, command: string, goal: string) returns (updated: string)
    ensures updated == Apply(rule, command, goal)
    ensures command <= updated
    ensures !Triggered(rule, goal) || Contains(command, rule.check) ==> updated == command
    ensures Triggered(rule, goal) && StartsWith(rule.token, rule.check) ==> Contains(updated, rule.check)
  {
    updated := command;
    if Triggered(rule, goal) && !Contains(command, rule.check) {
      updated := command + [' '] + rule.token;
      if StartsWith(rule.token, rule.check) {
        PieceHasCheck(command, rule, command, goal);
        assert updated == command + Piece(rule, command, goal);
      }
    }
  }

  // ---------------------------------------------------------------------
  // Facts about the six rules
  // ---------------------------------------------------------------------

  /** A check string is a word of at least two characters that starts with '-'. */
  lemma CheckShape(k: nat)
    requires k < |FlagRules|
    ensures var c := FlagRules[k].check; |c| >= 2 && c[0] == '-' && Unspaced(c) && Trimmed(c)
  {
  }

  /** Each token starts with its own check string. */
  lemma TokenStartsWithCheck(k: nat)
    requires k < |FlagRules|
    ensures StartsWith(FlagRules[k].token, FlagRules[k].check)
  {
  }

  /** No token contains the check string of another rule: each check has a
      pair of adjacent characters that no other token has. */
  lemma TokenAvoidsCheck(j: nat, k: nat)
    requires j < |FlagRules| && k < |FlagRules| && j != k
    ensures !Contains(FlagRules[j].token, FlagRules[k].check)
  {
    if k == 0 {
      AvoidsOutputCheck(j);
    } else if k == 1 {
      AvoidsOsCheck(j);
    } else if k == 2 {
      AvoidsAllPortsCheck(j);
    } else if k == 3 {
      AvoidsHttpCheck(j);
    } else if k == 4 {
      AvoidsVulnCheck(j);
    } else if k == 5 {
      AvoidsUdpCheck(j);
    }
  }

  lemma AvoidsOutputCheck(j: nat)
    requires j < |FlagRules| && j != 0
    ensures !Contains(FlagRules[j].token, FlagRules[0].check)
  {
    NotContainedByPair(FlagRules[j].token, FlagRules[0].check, 1);
  }

  lemma AvoidsOsCheck(j: nat)
    requires j < |FlagRules| && j != 1
    ensures !Contains(FlagRules[j].token, FlagRules[1].check)
  {
    NotContainedByPair(FlagRules[j].token, FlagRules[1].check, 0);
  }

  lemma AvoidsAllPortsCheck(j: nat)
    requires j < |FlagRules| && j != 2
    ensures !Contains(FlagRules[j].token, FlagRules[2].check)
  {
    NotContainedByPair(FlagRules[j].token, FlagRules[2].check, 0);
  }

  lemma AvoidsHttpCheck(j: nat)
    requires j < |FlagRules| && j != 3
    ensures !Contains(FlagRules[j].token, FlagRules[3].check)
  {
    NotContainedByPair(FlagRules[j].token, FlagRules[3].check, 8);
  }

  lemma AvoidsVulnCheck(j: nat)
    requires j < |FlagRules| && j != 4
    ensures !Contains(FlagRules[j].token, FlagRules[4].check)
  {
    NotContainedByPair(FlagRules[j].token, FlagRules[4].check, 8);
  }

  lemma AvoidsUdpCheck(j: nat)
    requires j < |FlagRules| && j != 5
    ensures !Contains(FlagRules[j].token, FlagRules[5].check)
  {
    NotContainedByPair(FlagRules[j].token, FlagRules[5].check, 1);
  }

  // ---------------------------------------------------------------------
  // Accumulated checks agree with checks against the original command
  // ---------------------------------------------------------------------

  /** One rule of `fix_command` applied to the command built so far: the
      value-level specification of the method `ApplyRule`. */
  function Apply(rule: Rule, acc: string, goal: string): string {
    if Triggered(rule, goal) && !Contains(acc, rule.check) then acc + [' '] + rule.token else acc
  }

  /** `rule` may be tested after `rules`: its check string has no whitespace
      and occurs in none of their tokens. */
  predicate CanFollow(rules: seq<Rule>, rule: Rule) {
    Unspaced(rule.check) && forall j | 0 <= j < |rules| :: !Contains(rules[j].token, rule.check)
  }

  /** The rules applied in order, each to the command the rules before it
      built: the way `fix_command` updates its local `command`. */
  function ApplyAll(rules: seq<Rule>, command: string, goal: string): string
    decreases |rules|
  {
    if rules == [] then command
    else Apply(rules[|rules| - 1], ApplyAll(rules[..|rules| - 1], command, goal), goal)
  }

  /** The six updates `fix_command` makes, one per flag rule, append the
      pieces of `FlagSuffix`. */
  lemma StepsAgree(command: string, goal: string, c0: string, c1: string, c2: string, c3: string, c4: string, c5: string)
    requires c0 == Apply(OutputRule, command, goal) && c1 == Apply(OsRule, c0, goal)
    requires c2 == Apply(AllPortsRule, c1, goal) && c3 == Apply(HttpRule, c2, goal)
    requires c4 == Apply(VulnRule, c3, goal) && c5 == Apply(UdpRule, c4, goal)
    ensures c5 == command + FlagSuffix(command, goal, FlagRules)
  {
    ApplyAllUnfold(command, goal);
    FlagRulesAgree(command, goal);
  }

  lemma ApplyAllUnfold(command: string, goal: string)
    ensures ApplyAll(FlagRules, command, goal)
         == Apply(UdpRule, Apply(VulnRule, Apply(HttpRule, Apply(AllPortsRule, Apply(OsRule,
              Apply(OutputRule, command, goal), goal), goal), goal), goal), goal)
  {
    var r := FlagRules;
    var a0 := Apply(OutputRule, command, goal);
    var a1 := Apply(OsRule, a0, goal);
    var a2 := Apply(AllPortsRule, a1, goal);
    var a3 := Apply(HttpRule, a2, goal);
    var a4 := Apply(VulnRule, a3, goal);
    assert r[..1][..0] == [];
    assert ApplyAll(r[..1], command, goal) == a0;
    assert r[..2][..1] == r[..1];
    assert ApplyAll(r[..2], command, goal) == a1;
    assert r[..3][..2] == r[..2];
    assert ApplyAll(r[..3], command, goal) == a2;
    assert r[..4][..3] == r[..3];
    assert ApplyAll(r[..4], command, goal) == a3;
    assert r[..5][..4] == r[..4];
    assert ApplyAll(r[..5], command, goal) == a4;
    assert r[..5] == r[..|r| - 1];
  }

  /** Applying the first `n` rules one after the other appends exactly the
      pieces they append when each is tested against the original command. */
  lemma {:induction false} AccumulatedAgrees(command: string, goal: string, n: nat)
    requires n <= |FlagRules|
    ensures ApplyAll(FlagRules[..n], command, goal) == command + FlagSuffix(command, goal, FlagRules[..n])
  {
    if n == 0 {
      assert command + [] == command;
    } else {
      AccumulatedAgrees(command, goal, n - 1);
      RuleFollowsEarlier(n - 1);
      ApplyAfter(command, goal, FlagRules[..n - 1], FlagRules[n - 1]);
      assert FlagRules[..n][..n - 1] == FlagRules[..n - 1];
    }
  }

  /** Applying the six flag rules one after the other, as `fix_command` does,
      appends exactly the pieces they append when each is tested against the
      original command. */
  lemma FlagRulesAgree(command: string, goal: string)
    ensures ApplyAll(FlagRules, command, goal) == command + FlagSuffix(command, goal, FlagRules)
  {
    AccumulatedAgrees(command, goal, |FlagRules|);
    assert FlagRules[..|FlagRules|] == FlagRules;
  }

  /** Testing `rule` against the command accumulated by `rules`, as
      `fix_command` does, appends the same as testing it against the
      original command. */
  lemma ApplyAfter(command: string, goal: string, rules: seq<Rule>, rule: Rule)
    requires CanFollow(rules, rule)
    ensures Apply(rule, command + FlagSuffix(command, goal, rules), goal)
         == command + FlagSuffix(command, goal, rules + [rule])
  {
    SuffixAvoids(command, goal, rules, rule.check);
    assert (rules + [rule])[..|rules|] == rules;
  }

  /** Each of the six rules may follow the rules before it. */
  lemma RuleFollowsEarlier(n: nat)
    requires n < |FlagRules|
    ensures CanFollow(FlagRules[..n], FlagRules[n])
    ensures FlagRules[..n] + [FlagRules[n]] == FlagRules[..n + 1]
  {
    CheckShape(n);
    forall j | 0 <= j < n
      ensures !Contains(FlagRules[..n][j].token, FlagRules[n].check)
    {
      TokenAvoidsCheck(j, n);
    }
  }

  /** Appending the tokens of rules none of which contains `t` neither creates
      nor removes an occurrence of `t`. */
  lemma {:induction false} SuffixAvoids(command: string, goal: string, rules: seq<Rule>, t: string)
    requires Unspaced(t)
    requires forall j | 0 <= j < |rules| :: !Contains(rules[j].token, t)
    ensures Contains(command + FlagSuffix(command, goal, rules), t) <==> Contains(command, t)
    decreases |rules|
  {
    if rules == [] {
      assert command + [] == command;
    } else {
      var init := rules[..|rules| - 1];
      var last := rules[|rules| - 1];
      SuffixAvoids(command, goal, init, t);
      var x := command + FlagSuffix(command, goal, init);
      var piece := Piece(last, command, goal);
      assert command + FlagSuffix(command, goal, rules) == x + piece;
      if piece == [] {
        assert x + piece == x;
      } else {
        assert x + piece == x + [' '] + last.token;
        ContainsAcrossSpace(x, last.token, t);
      }
    }
  }

  // ---------------------------------------------------------------------
  // What the patched command contains
  // ---------------------------------------------------------------------

  /** Each token holds its own check string exactly once. */
  lemma OwnCheckOnce(k: nat)
    requires k < |FlagRules|
    ensures Count(FlagRules[k].token, FlagRules[k].check) == 1
  {
    TokenStartsWithCheck(k);
    CountOnceByPair(FlagRules[k].token, FlagRules[k].check, 0);
  }

  /** A triggered rule leaves its check string in the flagged command: either
      it was there already or the rule appended its token, which starts with
      it. */
  lemma {:induction false} SuffixKeepsCheck(command: string, goal: string, rules: seq<Rule>, k: nat)
    requires k < |rules| && Triggered(rules[k], goal)
    requires StartsWith(rules[k].token, rules[k].check)
    ensures Contains(command + FlagSuffix(command, goal, rules), rules[k].check)
    decreases |rules|
  {
    var init := rules[..|rules| - 1];
    var last := rules[|rules| - 1];
    var x := command + FlagSuffix(command, goal, init);
    assert command + FlagSuffix(command, goal, rules) == x + Piece(last, command, goal);
    if k < |rules| - 1 {
      assert init[k] == rules[k];
      SuffixKeepsCheck(command, goal, init, k);
      ContainsExtended(x, Piece(last, command, goal), rules[k].check);
    } else if Fires(last, command, goal) {
      PieceHasCheck(x, last, command, goal);
    } else {
      ContainsExtended(command, FlagSuffix(command, goal, rules), rules[k].check);
    }
  }

  lemma ContainsExtended(x: string, y: string, t: string)
    requires Contains(x, t)
    ensures Contains(x + y, t)
  {
    ContainsInfix([], x, y, t);
    assert [] + x + y == x + y;
  }

  /** A rule that fires appends its own check string. */
  lemma PieceHasCheck(x: string, rule: Rule, command: string, goal: string)
    requires Fires(rule, command, goal) && StartsWith(rule.token, rule.check)
    ensures Contains(x + Piece(rule, command, goal), rule.check)
  {
    assert rule.token[0..|rule.check|] == rule.token[..|rule.check|];
    ContainsOccurrence(rule.token, rule.check, 0);
    ContainsInfix(x + [' '], rule.token, [], rule.check);
    assert x + [' '] + rule.token + [] == x + Piece(rule, command, goal);
  }

  /** Every flag rule whose trigger holds has its check string in the result:
      in particular "-oX" is always there. */
  lemma PatchedHasCheck(command: string, goal: string, target: string, k: nat)
    requires k < |FlagRules| && Triggered(FlagRules[k], goal)
    ensures Contains(Patched(command, goal, target), FlagRules[k].check)
  {
    var check := FlagRules[k].check;
    var flagged := command + FlagSuffix(command, goal, FlagRules);
    CheckShape(k);
    TokenStartsWithCheck(k);
    SuffixKeepsCheck(command, goal, FlagRules, k);
    ContainsInfix([], flagged, TargetPiece(flagged, target), check);
    assert [] + flagged + TargetPiece(flagged, target) == flagged + TargetPiece(flagged, target);
    StripKeeps(flagged + TargetPiece(flagged, target), check);
  }

  /** The target is in the result, unless stripping could cut into it. */
  lemma PatchedHasTarget(command: string, goal: string, target: string)
    requires Trimmed(target)
    ensures Contains(Patched(command, goal, target), target)
  {
    var flagged := command + FlagSuffix(command, goal, FlagRules);
    var whole := flagged + TargetPiece(flagged, target);
    if Contains(flagged, target) {
      ContainsInfix([], flagged, [], target);
      assert [] + flagged + [] == whole;
    } else {
      assert StartsWith(target, target);
      ContainsInfix(flagged + [' '], target, [], target);
      assert flagged + [' '] + target + [] == whole;
    }
    StripKeeps(whole, target);
  }

  /** What the flag rules append is empty or starts with a space. */
  lemma {:induction false} SuffixShape(command: string, goal: string, rules: seq<Rule>)
    ensures var x := FlagSuffix(command, goal, rules); x == [] || x[0] == ' '
    decreases |rules|
  {
    if rules != [] {
      SuffixShape(command, goal, rules[..|rules| - 1]);
    }
  }

  /** The flag rules put the check of rule `k` into the suffix once if rule `k`
      fires and never otherwise. */
  lemma {:induction false} SuffixCount(command: string, goal: string, rules: seq<Rule>, k: nat, t: string)
    requires |t| > 0 && Unspaced(t)
    requires forall j | 0 <= j < |rules| && j != k :: !Contains(rules[j].token, t)
    requires k < |rules| ==> rules[k].check == t && Count(rules[k].token, t) == 1
    ensures Count(FlagSuffix(command, goal, rules), t) == if k < |rules| && Fires(rules[k], command, goal) then 1 else 0
    decreases |rules|
  {
    if rules != [] {
      var init := rules[..|rules| - 1];
      var last := rules[|rules| - 1];
      var piece := Piece(last, command, goal);
      SuffixCount(command, goal, init, k, t);
      if piece != [] {
        CountAfterSpace(last.token, t);
        CountPositiveIff(last.token, t);
      }
      CountSplit(FlagSuffix(command, goal, init), piece, t);
    }
  }

  /** The flag rules add one occurrence of the check of rule `k` if that rule
      fires and none otherwise. */
  lemma FlaggedCount(command: string, goal: string, k: nat)
    requires k < |FlagRules|
    ensures var check := FlagRules[k].check;
      Count(command + FlagSuffix(command, goal, FlagRules), check)
      == Count(command, check) + if Fires(FlagRules[k], command, goal) then 1 else 0
  {
    var check := FlagRules[k].check;
    CheckShape(k);
    OwnCheckOnce(k);
    forall j | 0 <= j < |FlagRules| && j != k
      ensures !Contains(FlagRules[j].token, check)
    {
      TokenAvoidsCheck(j, k);
    }
    SuffixCount(command, goal, FlagRules, k, check);
    SuffixShape(command, goal, FlagRules);
    CountSplit(command, FlagSuffix(command, goal, FlagRules), check);
  }

  /** The occurrences of a flag rule's check in the result: one if the rule
      fired, as many as in the original command otherwise; so no flag is ever
      duplicated, and a triggered flag missing from the command appears
      exactly once. */
  lemma PatchedCount(command: string, goal: string, target: string, k: nat)
    requires k < |FlagRules|
    requires !Contains(target, FlagRules[k].check)
    ensures var n := Count(command, FlagRules[k].check);
      Count(Patched(command, goal, target), FlagRules[k].check)
      == if Triggered(FlagRules[k], goal) && n == 0 then 1 else n
  {
    var check := FlagRules[k].check;
    var flagged := command + FlagSuffix(command, goal, FlagRules);
    var piece := TargetPiece(flagged, target);
    CheckShape(k);
    FlaggedCount(command, goal, k);
    CountSplit(flagged, piece, check);
    if piece != [] {
      CountAfterSpace(target, check);
    }
    CountPositiveIff(target, check);
    CountPositiveIff(command, check);
    CountStrip(flagged + piece, check);
  }

  /** Patching only appends: the stripped original command is a prefix of the
      result. */
  lemma PatchedExtends(command: string, goal: string, target: string)
    ensures Strip(command) <= Patched(command, goal, target)
  {
    var added := PatchedAppends(command, goal, target);
    StripPrefix(command, added);
  }

  lemma PatchedAppends(command: string, goal: string, target: string) returns (added: string)
    ensures Patched(command, goal, target) == Strip(command + added)
  {
    var suffix := FlagSuffix(command, goal, FlagRules);
    var piece := TargetPiece(command + suffix, target);
    added := suffix + piece;
    assert command + suffix + piece == command + added;
  }

  /** An empty target counts as already present: nothing is appended for it. */
  lemma EmptyTargetNotAppended(command: string, goal: string)
    ensures Patched(command, goal, []) == Strip(command + FlagSuffix(command, goal, FlagRules))
  {
    var flagged := command + FlagSuffix(command, goal, FlagRules);
    ContainsEmpty(flagged);
    assert flagged + TargetPiece(flagged, []) == flagged;
  }

  /** When no rule fires, the flag rules append nothing. */
  lemma {:induction false} SuffixEmpty(command: string, goal: string, rules: seq<Rule>)
    requires forall j | 0 <= j < |rules| :: !Fires(rules[j], command, goal)
    ensures FlagSuffix(command, goal, rules) == []
    decreases |rules|
  {
    if rules != [] {
      SuffixEmpty(command, goal, rules[..|rules| - 1]);
    }
  }

  /** A command that has every triggered flag and the target is only stripped. */
  lemma PatchedComplete(command: string, goal: string, target: string)
    requires forall k | 0 <= k < |FlagRules| :: Triggered(FlagRules[k], goal) ==> Contains(command, FlagRules[k].check)
    requires Contains(command, target)
    ensures Patched(command, goal, target) == Strip(command)
  {
    SuffixEmpty(command, goal, FlagRules);
    assert command + [] == command;
    assert command + [] == command + FlagSuffix(command, goal, FlagRules);
  }

  /** Patching a patched command changes nothing more. */
  lemma PatchedIdempotent(command: string, goal: string, target: string)
    requires Trimmed(target)
    ensures Patched(Patched(command, goal, target), goal, target) == Patched(command, goal, target)
  {
    var p := Patched(command, goal, target);
    forall k | 0 <= k < |FlagRules| && Triggered(FlagRules[k], goal)
      ensures Contains(p, FlagRules[k].check)
    {
      PatchedHasCheck(command, goal, target, k);
    }
    PatchedHasTarget(command, goal, target);
    PatchedComplete(p, goal, target);
    StripTrimmed(p);
  }

  /** The keyword test ignores case: a goal that mentions any spelling of a
      rule's keyword, such as "OS" or "Udp", triggers the rule. */
  lemma MentionTriggers(goal: string, k: nat, word: string)
    requires 0 < k < |FlagRules|
    requires Lower(word) == FlagRules[k].trigger.keyword
    requires Contains(goal, word)
    ensures Triggered(FlagRules[k], goal)
  {
    ContainsLower(goal, word);
  }
}
