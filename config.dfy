/**
 * The linter configuration (the types of pkg/config/config.go) and the
 * rule-level merge of pkg/config/bundle.go: after the user's configuration
 * has been merged over the provided defaults, each provided rule's level is
 * chosen by precedence — the user's own level, then the category default,
 * then the global default, then the provided level.
 */
module RegalConfig {
  import opened Wrappers

  /** A value of a rule's free-form extra attributes. */
  datatype ExtraValue = Bool(b: bool) | Str(s: string) | Num(n: int) | Other

  datatype Rule = Rule(level: string, ignoreFiles: Option<seq<string>>, extra: map<string, ExtraValue>)

  datatype Default = Default(level: string)

  datatype Defaults = Defaults(global: Default, categories: map<string, Default>)

  datatype Capabilities = Capabilities(builtins: set<string>, futureKeywords: seq<string>, features: seq<string>)

  datatype Config = Config(
    rules: map<string, map<string, Rule>>,
    ignoreFiles: seq<string>,
    capabilities: Option<Capabilities>,
    defaults: Defaults,
    capabilitiesURL: string,
    projectRoots: Option<seq<string>>)

  /** The level the user set for a rule, or "" when the user did not configure it. */
  function UserLevel(user: Config, category: string, rule: string): string {
    if category in user.rules && rule in user.rules[category] then user.rules[category][rule].level else ""
  }

  /**
   * The level a provided rule ends up with: the user's level if set;
   * otherwise the category default's when the category has a default
   * (an empty one keeps the provided level and hides the global default);
   * otherwise the global default's if set; otherwise the provided level.
   */
  function SelectedLevel(user: Config, defaults: Defaults, category: string, rule: string, provided: string): (r: string)
    ensures UserLevel(user, category, rule) != "" ==> r == UserLevel(user, category, rule)
  {
    if UserLevel(user, category, rule) != "" then UserLevel(user, category, rule)
    else if category in defaults.categories then
      if defaults.categories[category].level != "" then defaults.categories[category].level else provided
    else if defaults.global.level != "" then defaults.global.level
    else provided
  }

  /** The precedence of SelectedLevel, case by case. */
  lemma LevelPrecedence(user: Config, defaults: Defaults, category: string, rule: string, provided: string)
    ensures var r := SelectedLevel(user, defaults, category, rule, provided);
      && (UserLevel(user, category, rule) == "" && category in defaults.categories && defaults.categories[category].level != ""
          ==> r == defaults.categories[category].level)
      && (UserLevel(user, category, rule) == "" && category in defaults.categories && defaults.categories[category].level == ""
          ==> r == provided)
      && (UserLevel(user, category, rule) == "" && category !in defaults.categories && defaults.global.level != ""
          ==> r == defaults.global.level)
      && (UserLevel(user, category, rule) == "" && category !in defaults.categories && defaults.global.level == ""
          ==> r == provided)
  {
  }

  /**
   * The rule levels after the merge: every rule that the provided
   * configuration knows gets its selected level, the others are untouched.
   */
  predicate AdoptedLevels(user: Config, merged: Config, provided: map<string, string>, rules: map<string, map<string, Rule>>) {
    rules.Keys == merged.rules.Keys &&
    forall c :: c in rules ==>
      rules[c].Keys == merged.rules[c].Keys &&
      forall r :: r in rules[c] ==>
        rules[c][r] == if r in provided
          then merged.rules[c][r].(level := SelectedLevel(user, merged.defaults, c, r, provided[r]))
          else merged.rules[c][r]
  }

  /** The rules of one category with their levels adopted. */
  method AdoptCategory(user: Config, merged: Config, provided: map<string, string>, c: string) returns (category: map<string, Rule>)
    requires c in merged.rules
    ensures category.Keys == merged.rules[c].Keys
    ensures forall r :: r in category ==>
      category[r] == if r in provided
        then merged.rules[c][r].(level := SelectedLevel(user, merged.defaults, c, r, provided[r]))
        else merged.rules[c][r]
  {
    category := merged.rules[c];
    var remaining := category.Keys;
    while remaining != {}
      invariant remaining <= merged.rules[c].Keys
      invariant category.Keys == merged.rules[c].Keys
      invariant forall r :: r in category ==>
        category[r] == if r in provided && r !in remaining
          then merged.rules[c][r].(level := SelectedLevel(user, merged.defaults, c, r, provided[r]))
          else merged.rules[c][r]
      decreases remaining
    {
      var ruleName :| ruleName in remaining;
      remaining := remaining - {ruleName};
      if ruleName !in provided {
        continue;
      }
      var rule := merged.rules[c][ruleName];
      var selected := provided[ruleName];
      var userHasConfiguredRule := c in user.rules && ruleName in user.rules[c];
      if userHasConfiguredRule && user.rules[c][ruleName].level != "" {
        selected := user.rules[c][ruleName].level;
      } else if c in merged.defaults.categories {
        if merged.defaults.categories[c].level != "" {
          selected := merged.defaults.categories[c].level;
        }
      } else if merged.defaults.global.level != "" {
        selected := merged.defaults.global.level;
      }
      category := category[ruleName := rule.(level := selected)];
    }
  }

  /** extractUserRuleLevels: sets the level of every provided rule in the merged configuration. */
  method ExtractUserRuleLevels(user: Config, merged: Config, provided: map<string, string>) returns (result: Config)
    ensures result == merged.(rules := result.rules)
    ensures AdoptedLevels(user, merged, provided, result.rules)
  {
    var rules := merged.rules;
    var remaining := rules.Keys;
    while remaining != {}
      invariant remaining <= merged.rules.Keys
      invariant rules.Keys == merged.rules.Keys
      invariant forall c :: c in rules && c in remaining ==> rules[c] == merged.rules[c]
      invariant forall c :: c in rules && c !in remaining ==>
        rules[c].Keys == merged.rules[c].Keys &&
        forall r :: r in rules[c] ==>
          rules[c][r] == if r in provided
            then merged.rules[c][r].(level := SelectedLevel(user, merged.defaults, c, r, provided[r]))
            else merged.rules[c][r]
      decreases remaining
    {
      var c :| c in remaining;
      var category := AdoptCategory(user, merged, provided, c);
      rules := rules[c := category];
      remaining := remaining - {c};
    }
    result := merged.(rules := rules);
  }

  /**
   * providedConfLevels: the level of every provided rule by rule name.  Rule
   * names are taken to be unique across categories; for a name in several
   * categories the map holds the level of one of them.
   */
  method ProvidedConfLevels(conf: Config) returns (levels: map<string, string>)
    ensures forall r :: r in levels <==> exists c :: c in conf.rules && r in conf.rules[c]
    ensures forall r :: r in levels ==> exists c :: c in conf.rules && r in conf.rules[c] && levels[r] == conf.rules[c][r].level
  {
    levels := map[];
    var categories := conf.rules.Keys;
    while categories != {}
      invariant categories <= conf.rules.Keys
      invariant forall r :: r in levels <==> exists c :: c in conf.rules && c !in categories && r in conf.rules[c]
      invariant forall r :: r in levels ==> exists c :: c in conf.rules && r in conf.rules[c] && levels[r] == conf.rules[c][r].level
      decreases categories
    {
      var c :| c in categories;
      var names := conf.rules[c].Keys;
      ghost var before := levels;
      while names != {}
        invariant names <= conf.rules[c].Keys
        invariant forall r :: r in levels <==> r in before || (r in conf.rules[c] && r !in names)
        invariant forall r :: r in levels ==> exists c' :: c' in conf.rules && r in conf.rules[c'] && levels[r] == conf.rules[c'][r].level
        decreases names
      {
        var r :| r in names;
        levels := levels[r := conf.rules[c][r].level];
        names := names - {r};
      }
      categories := categories - {c};
    }
  }

  /**
   * LoadConfigWithDefaultsFromBundle, after the provided configuration has
   * been read: without a user configuration the provided one is used with
   * this version's capabilities; otherwise the merge of the user's
   * configuration over the provided one (`merged`, computed by the merge
   * library) gets this version's capabilities if it has none, and the
   * provided rules' levels by precedence.
   */
  method LoadConfigWithDefaults(defaultConfig: Config, user: Option<Config>, merged: Result<Config>, thisVersion: Capabilities)
    returns (r: Result<Config>)
    ensures user.None? ==> r == Ok(defaultConfig.(capabilities := Some(thisVersion)))
    ensures user.Some? && merged.Err? ==> r.Err?
    ensures user.Some? && merged.Ok? ==>
      && r.Ok?
      && r.value.capabilities == (if merged.value.capabilities.Some? then merged.value.capabilities else Some(thisVersion))
      && r.value == merged.value.(rules := r.value.rules, capabilities := r.value.capabilities)
      && r.value.rules.Keys == merged.value.rules.Keys
    ensures user.Some? && merged.Ok? ==>
      forall c, rule :: c in merged.value.rules && rule in merged.value.rules[c] ==>
        && c in r.value.rules && rule in r.value.rules[c]
        && (UserLevel(user.value, c, rule) != "" && (exists c' :: c' in defaultConfig.rules && rule in defaultConfig.rules[c'])
            ==> r.value.rules[c][rule].level == UserLevel(user.value, c, rule))
  {
    if user.None? {
      return Ok(defaultConfig.(capabilities := Some(thisVersion)));
    }
    var provided := ProvidedConfLevels(defaultConfig);
    if merged.Err? {
      return Err("failed to merge user config: " + merged.error);
    }
    var conf := merged.value;
    if conf.capabilities.None? {
      conf := conf.(capabilities := Some(thisVersion));
    }
    var result := ExtractUserRuleLevels(user.value, conf, provided);
    return Ok(result);
  }
}
