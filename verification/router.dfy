/**
 * `RiceFieldBot.find_response` (main.py): keyword routing of a free-text chat
 * message to one of the bot's canned answers. The long reply texts are
 * represented by tags; the FAQ table is represented by its ordered key list.
 */
module Router {
  import opened Text

  /** The keys of the FAQ table, in the table's own (iteration) order. */
  datatype FaqKey = Weed | Health | Yield | Fertilizer | Ndvi | Irrigation | Disease | Weather

  const FaqKeys: seq<FaqKey> := [Weed, Health, Yield, Fertilizer, Ndvi, Irrigation, Disease, Weather]

  function KeyName(k: FaqKey): string {
    match k
    case Weed => "weed"
    case Health => "health"
    case Yield => "yield"
    case Fertilizer => "fertilizer"
    case Ndvi => "ndvi"
    case Irrigation => "irrigation"
    case Disease => "disease"
    case Weather => "weather"
  }

  /** The canned replies of the router. */
  datatype Response =
    | WeedDetectionAlert      // the U-Net weed alert text
    | Faq(key: FaqKey)        // the FAQ entry stored under `key`
    | CropHealthAnalysis      // the multi-index crop health text
    | YieldPrediction         // the ensemble yield prediction text
    | RecommendedActions      // the AI-recommended actions text
    | Welcome                 // the default "I can help with" reply

  const WeedWords: seq<string> := ["weed", "weeds"]
  const AlertWords: seq<string> := ["alert", "detected"]
  const HealthWords: seq<string> := ["health", "crop health", "ndvi"]
  const YieldWords: seq<string> := ["yield", "prediction", "harvest"]
  const ActionWords: seq<string> := ["action", "actions", "recommend", "do", "next"]
  const FertilizerWords: seq<string> := ["fertilizer", "nutrition", "nutrient", "npk"]

  /**
   * One routing rule: it fires when, for every group of words, some word of
   * the group occurs in the lower-cased message.
   */
  datatype Rule = Rule(groups: seq<seq<string>>, answer: Response)

  predicate Fires(rule: Rule, m: string) {
    forall g | g in rule.groups :: AnyIn(g, m)
  }

  /** The keyword rules tested before the FAQ table, highest priority first. */
  const ExplicitRules: seq<Rule> := [
    Rule([WeedWords, AlertWords], WeedDetectionAlert),
    Rule([WeedWords], Faq(Weed)),
    Rule([HealthWords], CropHealthAnalysis),
    Rule([YieldWords], YieldPrediction),
    Rule([ActionWords], RecommendedActions),
    Rule([FertilizerWords], Faq(Fertilizer))
  ]

  /** One single-word rule per FAQ key, in table order. */
  function FaqRules(keys: seq<FaqKey>): (rules: seq<Rule>)
    ensures |rules| == |keys|
    ensures forall j :: 0 <= j < |keys| ==> rules[j].answer == Faq(keys[j])
  {
    seq(|keys|, j requires 0 <= j < |keys| => Rule([[KeyName(keys[j])]], Faq(keys[j])))
  }

  /** The FAQ rule for a key fires exactly when the key's name occurs in the message. */
  lemma FaqRuleFires(keys: seq<FaqKey>, j: nat, m: string)
    requires j < |keys|
    ensures Fires(FaqRules(keys)[j], m) <==> Contains(m, KeyName(keys[j]))
  {
    SingleWordFires(KeyName(keys[j]), Faq(keys[j]), m);
  }

  /** The whole routing policy as one ordered rule table. */
  function RuleTable(): (rules: seq<Rule>)
    ensures |rules| == |ExplicitRules| + |FaqKeys|
  {
    ExplicitRules + FaqRules(FaqKeys)
  }

  /** Index of the first rule that fires, or `|rules|` when none does. */
  function FirstFiring(rules: seq<Rule>, m: string): (i: nat)
    ensures i <= |rules|
    ensures i < |rules| ==> Fires(rules[i], m)
    ensures forall j :: 0 <= j < i ==> !Fires(rules[j], m)
  {
    if rules == [] then 0
    else if Fires(rules[0], m) then 0
    else 1 + FirstFiring(rules[1..], m)
  }

  /**
   * The reference routing: lower-case the message, answer with the first
   * firing rule of the table, and with the welcome text when none fires.
   */
  function Respond(message: string): (r: Response)
    ensures r.Faq? ==> r.key !in {Health, Yield, Ndvi}
  {
    var m := Lower(message);
    var i := FirstFiring(RuleTable(), m);
    ShadowedFaqRules(m);
    if i < |RuleTable()| then RuleTable()[i].answer else Welcome
  }

  /**
   * The FAQ entries for "health", "yield" and "ndvi" are never the answer:
   * their keywords belong to an earlier rule, which fires first.
   */
  lemma ShadowedFaqRules(m: string)
    ensures var i := FirstFiring(RuleTable(), m);
      i < |RuleTable()| && RuleTable()[i].answer.Faq? ==>
      RuleTable()[i].answer.key !in {Health, Yield, Ndvi}
  {
    var table := RuleTable();
    var i := FirstFiring(table, m);
    var n := |ExplicitRules|;
    EarlierRulesCover(m);
    if n <= i < |table| {
      FaqRuleFires(FaqKeys, i - n, m);
      assert table[i] == FaqRules(FaqKeys)[i - n];
      assert !Fires(table[2], m) && !Fires(table[3], m);
    }
  }

  /** Helper: "health" and "ndvi" make the health rule fire, "yield" the yield rule. */
  lemma EarlierRulesCover(m: string)
    ensures Contains(m, KeyName(Health)) ==> Fires(ExplicitRules[2], m)
    ensures Contains(m, KeyName(Ndvi)) ==> Fires(ExplicitRules[2], m)
    ensures Contains(m, KeyName(Yield)) ==> Fires(ExplicitRules[3], m)
  {
    if Contains(m, KeyName(Health)) { assert KeyName(Health) in HealthWords; }
    if Contains(m, KeyName(Ndvi)) { assert KeyName(Ndvi) in HealthWords; }
    if Contains(m, KeyName(Yield)) { assert KeyName(Yield) in YieldWords; }
  }

  /** A single-word rule fires exactly when its word occurs. */
  lemma SingleWordFires(w: string, a: Response, m: string)
    ensures Fires(Rule([[w]], a), m) <==> Contains(m, w)
  {
    if Contains(m, w) {
      assert AnyIn([w], m);
    }
    if Fires(Rule([[w]], a), m) {
      assert AnyIn([w], m);
      var v :| v in [w] && Contains(m, v);
      assert v == w;
    }
  }

  /** Pins `FirstFiring` down: rule `k` fires and none before it does. */
  lemma FirstFiringIs(rules: seq<Rule>, m: string, k: nat)
    requires k <= |rules|
    requires k < |rules| ==> Fires(rules[k], m)
    requires forall j :: 0 <= j < k ==> !Fires(rules[j], m)
    ensures FirstFiring(rules, m) == k
  {
  }

  /** `find_response`, written as the source writes it: an if-chain, then a loop over the FAQ table. */
  method FindResponse(message: string) returns (r: Response)
    ensures r == Respond(message)
  {
    var m := Lower(message);
    var table := RuleTable();
    var n := |ExplicitRules|;
    ExplicitRulesFire(m);
    if AnyIn(WeedWords, m) {
      if Contains(m, "alert") || Contains(m, "detected") {
        FirstFiringIs(table, m, 0);
        return WeedDetectionAlert;
      } else {
        FirstFiringIs(table, m, 1);
        return Faq(Weed);
      }
    } else if AnyIn(HealthWords, m) {
      FirstFiringIs(table, m, 2);
      return CropHealthAnalysis;
    } else if AnyIn(YieldWords, m) {
      FirstFiringIs(table, m, 3);
      return YieldPrediction;
    } else if AnyIn(ActionWords, m) {
      FirstFiringIs(table, m, 4);
      return RecommendedActions;
    } else if AnyIn(FertilizerWords, m) {
      FirstFiringIs(table, m, 5);
      return Faq(Fertilizer);
    }
    for i := 0 to |FaqKeys|
      invariant forall j :: 0 <= j < n + i ==> !Fires(table[j], m)
    {
      FaqRuleFires(FaqKeys, i, m);
      assert table[n + i] == FaqRules(FaqKeys)[i];
      if Contains(m, KeyName(FaqKeys[i])) {
        FirstFiringIs(table, m, n + i);
        return Faq(FaqKeys[i]);
      }
    }
    FirstFiringIs(table, m, |table|);
    return Welcome;
  }

  /**
   * The keyword rules ahead of the FAQ table, one by one: when each fires, in
   * the terms the if-chain of `find_response` tests.
   */
  lemma ExplicitRulesFire(m: string)
    ensures Fires(RuleTable()[0], m) <==>
      AnyIn(WeedWords, m) && (Contains(m, "alert") || Contains(m, "detected"))
    ensures Fires(RuleTable()[1], m) <==> AnyIn(WeedWords, m)
    ensures Fires(RuleTable()[2], m) <==> AnyIn(HealthWords, m)
    ensures Fires(RuleTable()[3], m) <==> AnyIn(YieldWords, m)
    ensures Fires(RuleTable()[4], m) <==> AnyIn(ActionWords, m)
    ensures Fires(RuleTable()[5], m) <==> AnyIn(FertilizerWords, m)
  {
    AnyInConcat(["alert"], ["detected"], m);
    assert AlertWords == ["alert"] + ["detected"];
  }

  /** None of the keyword rules that precede the FAQ table fires on `m`. */
  predicate NoKeywordRule(m: string) {
    !AnyIn(WeedWords, m) && !AnyIn(HealthWords, m) && !AnyIn(YieldWords, m) &&
    !AnyIn(ActionWords, m) && !AnyIn(FertilizerWords, m)
  }

  /** The routing depends only on the lower-cased message. */
  lemma RespondIgnoresCase(message: string)
    ensures Respond(Lower(message)) == Respond(message)
  {
    LowerIdempotent(message);
  }

  /** Testing for "weeds" as well as "weed" adds nothing: the first test subsumes it. */
  lemma WeedWordsMeanWeed(m: string)
    ensures AnyIn(WeedWords, m) <==> Contains(m, "weed")
  {
    if AnyIn(WeedWords, m) {
      var w :| w in WeedWords && Contains(m, w);
      if w == "weeds" {
        assert Contains("weeds", "weed") by { assert IsPrefix("weed", "weeds"); }
        ContainsTransitive(m, "weeds", "weed");
      }
    }
  }

  /**
   * A message mentioning "weed" is answered by the weed rules, ahead of every
   * other rule: the alert text when "alert" or "detected" also occurs, the FAQ
   * weed entry otherwise.
   */
  lemma WeedRulesComeFirst(message: string)
    requires Contains(Lower(message), "weed")
    ensures Respond(message) ==
      if Contains(Lower(message), "alert") || Contains(Lower(message), "detected")
      then WeedDetectionAlert else Faq(Weed)
  {
    var m := Lower(message);
    var table := RuleTable();
    assert AnyIn(WeedWords, m);
    if Contains(m, "alert") || Contains(m, "detected") {
      assert AnyIn(AlertWords, m);
      FirstFiringIs(table, m, 0);
    } else {
      assert !AnyIn(AlertWords, m);
      assert !Fires(table[0], m);
      FirstFiringIs(table, m, 1);
    }
  }

  /**
   * The actions rule matches bare substrings: a message that escapes the weed,
   * health and yield rules but contains "do" or "next" anywhere (as in
   * "window" or "doing") gets the recommended-actions reply.
   */
  lemma DoOrNextGivesActions(message: string)
    requires !Contains(Lower(message), "weed")
    requires !AnyIn(HealthWords, Lower(message)) && !AnyIn(YieldWords, Lower(message))
    requires Contains(Lower(message), "do") || Contains(Lower(message), "next")
    ensures Respond(message) == RecommendedActions
  {
    var m := Lower(message);
    var table := RuleTable();
    WeedWordsMeanWeed(m);
    assert AnyIn(ActionWords, m);
    FirstFiringIs(table, m, 4);
  }

  /** Two messages with no farming meaning that the actions rule still captures. */
  lemma WindowAndDoingGetActions()
    ensures Respond("window") == RecommendedActions
    ensures Respond("Doing") == RecommendedActions
  {
    LowerFixesLowerCase("window");
    assert Lower("Doing") == "doing";
    NoFarmingWordsIn("window");
    NoFarmingWordsIn("doing");
    assert Contains("window", "do") by { assert IsPrefix("do", "window"[3..]); }
    assert Contains("doing", "do") by { assert IsPrefix("do", "doing"); }
    DoOrNextGivesActions("window");
    DoOrNextGivesActions("Doing");
  }

  /** Helper: the weed, health and yield words are absent from a short word. */
  lemma NoFarmingWordsIn(m: string)
    requires m == "window" || m == "doing"
    ensures !Contains(m, "weed")
    ensures !AnyIn(HealthWords, m) && !AnyIn(YieldWords, m)
  {
    MissingCharBlocks(m, "weed", 'e');
    MissingCharBlocks(m, "health", 'h');
    MissingCharBlocks(m, "crop health", 'h');
    MissingCharBlocks(m, "ndvi", 'v');
    MissingCharBlocks(m, "yield", 'y');
    MissingCharBlocks(m, "prediction", 'p');
    MissingCharBlocks(m, "harvest", 'h');
  }

  /**
   * When no keyword rule fires, the FAQ table is scanned in order and the first
   * key contained in the message wins; only "irrigation", "disease" and
   * "weather" can win there, since every other key is a word of an earlier rule.
   */
  lemma FaqFallbackFirstKey(message: string, i: nat)
    requires NoKeywordRule(Lower(message))
    requires i < |FaqKeys| && Contains(Lower(message), KeyName(FaqKeys[i]))
    requires forall j :: 0 <= j < i ==> !Contains(Lower(message), KeyName(FaqKeys[j]))
    ensures Respond(message) == Faq(FaqKeys[i])
    ensures FaqKeys[i] in {Irrigation, Disease, Weather}
  {
    var m := Lower(message);
    var table := RuleTable();
    var n := |ExplicitRules|;
    assert forall j :: 0 <= j < n ==> !Fires(table[j], m);
    forall j | n <= j < n + i ensures !Fires(table[j], m) {
      SingleWordFires(KeyName(FaqKeys[j - n]), Faq(FaqKeys[j - n]), m);
    }
    SingleWordFires(KeyName(FaqKeys[i]), Faq(FaqKeys[i]), m);
    FirstFiringIs(table, m, n + i);
  }

  /** The welcome text is the answer exactly when no rule and no FAQ key matches. */
  lemma WelcomeIffNothingMatches(message: string)
    ensures Respond(message) == Welcome <==>
      NoKeywordRule(Lower(message)) &&
      forall k :: k in FaqKeys ==> !Contains(Lower(message), KeyName(k))
  {
    var m := Lower(message);
    NoRuleAnswersWelcome();
    if NoKeywordRule(m) && forall k :: k in FaqKeys ==> !Contains(m, KeyName(k)) {
      NothingFires(m);
    } else if !NoKeywordRule(m) {
      KeywordRuleFires(m);
    } else {
      FaqKeyFires(m);
    }
  }

  /** Helper: no rule of the table answers with the welcome text. */
  lemma NoRuleAnswersWelcome()
    ensures forall j :: 0 <= j < |RuleTable()| ==> RuleTable()[j].answer != Welcome
  {
    var table := RuleTable();
    var n := |ExplicitRules|;
    forall j | 0 <= j < |table| ensures table[j].answer != Welcome {
      if j >= n {
        assert table[j] == FaqRules(FaqKeys)[j - n];
      }
    }
  }

  /** Helper: with no keyword and no FAQ key in `m`, no rule fires. */
  lemma NothingFires(m: string)
    requires NoKeywordRule(m)
    requires forall k :: k in FaqKeys ==> !Contains(m, KeyName(k))
    ensures FirstFiring(RuleTable(), m) == |RuleTable()|
  {
    var table := RuleTable();
    var n := |ExplicitRules|;
    assert forall j :: 0 <= j < n ==> !Fires(table[j], m);
    forall j | n <= j < |table| ensures !Fires(table[j], m) {
      FaqRuleFires(FaqKeys, j - n, m);
      assert table[j] == FaqRules(FaqKeys)[j - n];
    }
    FirstFiringIs(table, m, |table|);
  }

  /** Helper: a keyword in `m` makes some rule fire. */
  lemma KeywordRuleFires(m: string)
    requires !NoKeywordRule(m)
    ensures FirstFiring(RuleTable(), m) < |RuleTable()|
  {
    var table := RuleTable();
    if AnyIn(WeedWords, m) {
      assert Fires(table[1], m);
    } else if AnyIn(HealthWords, m) {
      assert Fires(table[2], m);
    } else if AnyIn(YieldWords, m) {
      assert Fires(table[3], m);
    } else if AnyIn(ActionWords, m) {
      assert Fires(table[4], m);
    } else {
      assert Fires(table[5], m);
    }
  }

  /** Helper: a FAQ key in `m` makes its FAQ rule fire. */
  lemma FaqKeyFires(m: string)
    requires exists k :: k in FaqKeys && Contains(m, KeyName(k))
    ensures FirstFiring(RuleTable(), m) < |RuleTable()|
  {
    var table := RuleTable();
    var n := |ExplicitRules|;
    var k :| k in FaqKeys && Contains(m, KeyName(k));
    var j :| 0 <= j < |FaqKeys| && FaqKeys[j] == k;
    FaqRuleFires(FaqKeys, j, m);
    assert table[n + j] == FaqRules(FaqKeys)[j];
  }
}
