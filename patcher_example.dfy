/**
 * The worked example of `fix_command` with the goal "Find open common ports
 * and detect service versions quickly": none of the five keywords occurs in
 * the goal, so only the output flag and the target are appended.
 */
module PatcherExample {
  import opened Text
  import opened Patcher

  /** With no keyword rule triggered, only the output rule can fire. */
  lemma {:induction false} SuffixOnlyFirst(command: string, goal: string, rules: seq<Rule>)
    requires rules != []
    requires forall j | 1 <= j < |rules| :: !Fires(rules[j], command, goal)
    ensures FlagSuffix(command, goal, rules) == Piece(rules[0], command, goal)
    decreases |rules|
  {
    if |rules| == 1 {
      assert rules[..0] == [];
    } else {
      var init := rules[..|rules| - 1];
      SuffixOnlyFirst(command, goal, init);
      assert FlagSuffix(command, goal, rules) == FlagSuffix(command, goal, init) + [];
    }
  }

  /** A goal that mentions none of the keywords gets the output flag (when it
      is missing) and the target (when it is missing), and nothing else. */
  lemma PatchedOutputOnly(command: string, goal: string, target: string)
    requires forall k | 1 <= k < |FlagRules| :: !Triggered(FlagRules[k], goal)
    ensures var flagged := command + Piece(OutputRule, command, goal);
      Patched(command, goal, target) == Strip(flagged + TargetPiece(flagged, target))
  {
    SuffixOnlyFirst(command, goal, FlagRules);
  }

  // ---------------------------------------------------------------------
  // The goal mentions no keyword
  // ---------------------------------------------------------------------

  /** Two adjacent lower-cased characters that start a keyword, or for
      "all ports" the "ll" inside it. */
  predicate KeywordPair(x: char, y: char) {
    (x == 'o' && y == 's') || (x == 'l' && y == 'l') || (x == 'h' && y == 't')
    || (x == 'v' && y == 'u') || (x == 'u' && y == 'd')
  }

  /** No two adjacent characters of `g` form a keyword pair once lowered. */
  predicate Quiet(g: string) {
    forall k | 0 <= k < |g| - 1 :: !KeywordPair(LowerChar(g[k]), LowerChar(g[k + 1]))
  }

  lemma QuietJoin(a: string, b: string)
    requires Quiet(a) && Quiet(b)
    ensures Quiet(a + [' '] + b)
  {
    var s := a + [' '] + b;
    forall k | 0 <= k < |s| - 1
      ensures !KeywordPair(LowerChar(s[k]), LowerChar(s[k + 1]))
    {
      if k + 1 < |a| {
        assert s[k] == a[k] && s[k + 1] == a[k + 1];
      } else if k >= |a| + 1 {
        assert s[k] == b[k - |a| - 1] && s[k + 1] == b[k - |a|];
      } else {
        assert s[|a|] == ' ';
      }
    }
  }

  /** A quiet goal triggers no keyword rule. */
  lemma QuietTriggersNothing(goal: string)
    requires Quiet(goal)
    ensures forall k | 1 <= k < |FlagRules| :: !Triggered(FlagRules[k], goal)
  {
    forall k | 1 <= k < |FlagRules|
      ensures !Triggered(FlagRules[k], goal)
    {
      QuietKeyword(goal, FlagRules[k].trigger.keyword, if k == 2 then 1 else 0);
    }
  }

  lemma QuietKeyword(goal: string, keyword: string, m: nat)
    requires Quiet(goal) && m + 1 < |keyword| && KeywordPair(keyword[m], keyword[m + 1])
    ensures !Contains(Lower(goal), keyword)
  {
    if Contains(Lower(goal), keyword) {
      var i := OccurrenceOf(Lower(goal), keyword);
      OccursAtChar(Lower(goal), keyword, i, m);
      OccursAtChar(Lower(goal), keyword, i, m + 1);
      assert false;
    }
  }

  lemma QuietSentence(goal: string, a: string, b: string, c: string, d: string)
    requires goal == a + [' '] + b + [' '] + c + [' '] + d
    requires Quiet(a) && Quiet(b) && Quiet(c) && Quiet(d)
    ensures Quiet(goal)
  {
    QuietJoin(a, b);
    QuietJoin(a + [' '] + b, c);
    QuietJoin(a + [' '] + b + [' '] + c, d);
  }

  lemma QuietFirstWords(w: string)
    requires w == "Find open common"
    ensures Quiet(w)
  {
  }

  lemma QuietSecondWords(w: string)
    requires w == "ports and detect"
    ensures Quiet(w)
  {
  }

  lemma QuietThirdWords(w: string)
    requires w == "service versions"
    ensures Quiet(w)
  {
  }

  lemma QuietLastWord(w: string)
    requires w == "quickly"
    ensures Quiet(w)
  {
  }

  /** The example goal has no keyword pair, so it triggers no keyword rule. */
  lemma ExampleGoalQuiet(goal: string)
    requires goal == "Find open common" + " " + "ports and detect" + " " + "service versions" + " " + "quickly"
    ensures Quiet(goal)
  {
    var a, b, c, d := "Find open common", "ports and detect", "service versions", "quickly";
    QuietFirstWords(a);
    QuietSecondWords(b);
    QuietThirdWords(c);
    QuietLastWord(d);
    QuietSentence(goal, a, b, c, d);
  }

  // ---------------------------------------------------------------------
  // The command
  // ---------------------------------------------------------------------

  lemma ExampleFlagged(c: string, goal: string)
    requires c == "nmap -sV"
    ensures Fires(OutputRule, c, goal)
  {
    NotContainedByPair(c, OutputRule.check, 1);
  }

  lemma ExampleJoin(c: string, f: string)
    requires c == "nmap -sV" && f == c + ([' '] + OutputRule.token)
    ensures f == "nmap -sV -oX scan_output.xml"
  {
  }

  lemma ExampleTarget(f: string, t: string)
    requires f == "nmap -sV -oX scan_output.xml" && t == "10.0.0.5"
    ensures f + TargetPiece(f, t) == "nmap -sV -oX scan_output.xml 10.0.0.5"
  {
    NotContainedByPair(f, t, 0);
  }

  lemma ExampleStrip(w: string)
    requires w == "nmap -sV -oX scan_output.xml 10.0.0.5"
    ensures Strip(w) == w
  {
    StripTrimmed(w);
  }

  /** `fix_command("nmap -sV", "Find open common ports and detect service
      versions quickly", "10.0.0.5")` is "nmap -sV -oX scan_output.xml 10.0.0.5". */
  lemma Example(command: string, goal: string, target: string)
    requires command == "nmap -sV" && target == "10.0.0.5"
    requires goal == "Find open common" + " " + "ports and detect" + " " + "service versions" + " " + "quickly"
    ensures Patched(command, goal, target) == "nmap -sV -oX scan_output.xml 10.0.0.5"
  {
    ExampleGoalQuiet(goal);
    QuietTriggersNothing(goal);
    PatchedOutputOnly(command, goal, target);
    ExampleFlagged(command, goal);
    var f := command + Piece(OutputRule, command, goal);
    ExampleJoin(command, f);
    ExampleTarget(f, target);
    ExampleStrip(f + TargetPiece(f, target));
  }
}
