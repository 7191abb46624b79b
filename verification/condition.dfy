/** Foreground-window conditions: up to three regular expressions, on the
    window title, the executable and the window class. The regular
    expression engine is a parameter: `compiles(p)` says whether pattern `p`
    is accepted, `isMatch(p, t)` whether it matches text `t` somewhere. */
module Condition {
  import opened Wrappers
  import opened Errors

  /** `WindowInformation`: what is known of the window now in the foreground. */
  datatype WindowInformation = WindowInformation(title: string, executable: string, className: string)

  /** `ForegroundWindowConditionConfig`: the patterns as written. */
  datatype ConditionConfig = ConditionConfig(title: Option<string>, executable: Option<string>, className: Option<string>)

  /** A pattern that compiled. */
  datatype Regex = Regex(pattern: string)

  datatype ForegroundWindowCondition =
    ForegroundWindowCondition(title: Option<Regex>, executable: Option<Regex>, className: Option<Regex>)

  /** Does a pattern, if one is given, fail to compile? */
  predicate PatternFails(p: Option<string>, compiles: string -> bool) {
    p.Some? && !compiles(p.value)
  }

  function CompilePattern(p: Option<string>, compiles: string -> bool): (r: Result<Option<Regex>, StateError>)
    ensures r.Failure? <==> PatternFails(p, compiles)
    ensures r.Failure? ==> r.error == RegexError(p.value)
    ensures r.Success? ==> (r.value.Some? <==> p.Some?)
    ensures r.Success? && p.Some? ==> r.value.value.pattern == p.value
  {
    match p
    case None => Success(None)
    case Some(s) => if compiles(s) then Success(Some(Regex(s))) else Failure(RegexError(s))
  }

  /** `ForegroundWindowCondition::from_config`: each present pattern is
      compiled on its own, in the order title, executable, class; the first
      that fails is reported. */
  function FromConfig(config: ConditionConfig, compiles: string -> bool): (r: Result<ForegroundWindowCondition, StateError>)
    ensures r.Failure? <==>
      PatternFails(config.title, compiles) || PatternFails(config.executable, compiles) ||
      PatternFails(config.className, compiles)
    ensures r.Failure? && PatternFails(config.title, compiles) ==> r.error == RegexError(config.title.value)
    ensures r.Failure? && !PatternFails(config.title, compiles) && PatternFails(config.executable, compiles) ==>
      r.error == RegexError(config.executable.value)
    ensures r.Failure? && !PatternFails(config.title, compiles) && !PatternFails(config.executable, compiles) ==>
      r.error == RegexError(config.className.value)
    ensures r.Success? ==>
      && Patterns(r.value.title) == config.title
      && Patterns(r.value.executable) == config.executable
      && Patterns(r.value.className) == config.className
  {
    var title :- CompilePattern(config.title, compiles);
    var executable :- CompilePattern(config.executable, compiles);
    var className :- CompilePattern(config.className, compiles);
    Success(ForegroundWindowCondition(title, executable, className))
  }

  /** The source text of an optional compiled pattern. */
  function Patterns(r: Option<Regex>): Option<string> {
    match r
    case None => None
    case Some(re) => Some(re.pattern)
  }

  /** An absent pattern accepts every text. */
  predicate FieldMatches(re: Option<Regex>, text: string, isMatch: (string, string) -> bool) {
    re.None? || isMatch(re.value.pattern, text)
  }

  /** `ForegroundWindowCondition::matches`. */
  predicate Matches(c: ForegroundWindowCondition, w: WindowInformation, isMatch: (string, string) -> bool) {
    FieldMatches(c.title, w.title, isMatch) &&
    FieldMatches(c.executable, w.executable, isMatch) &&
    FieldMatches(c.className, w.className, isMatch)
  }

  /** A condition matches exactly when every present pattern matches its own
      field of the window. */
  lemma MatchesIsConjunction(c: ForegroundWindowCondition, w: WindowInformation, isMatch: (string, string) -> bool)
    ensures Matches(c, w, isMatch) <==>
      && (c.title.Some? ==> isMatch(c.title.value.pattern, w.title))
      && (c.executable.Some? ==> isMatch(c.executable.value.pattern, w.executable))
      && (c.className.Some? ==> isMatch(c.className.value.pattern, w.className))
  {
  }

  /** A condition without patterns matches every window. */
  lemma EmptyConditionMatchesAll(w: WindowInformation, isMatch: (string, string) -> bool)
    ensures Matches(ForegroundWindowCondition(None, None, None), w, isMatch)
  {
  }

  /** Each pattern reads only its own field: windows that agree on the
      fields that carry a pattern are matched alike. */
  lemma OnlyPatternedFieldsMatter(c: ForegroundWindowCondition, w1: WindowInformation, w2: WindowInformation,
                                  isMatch: (string, string) -> bool)
    requires c.title.Some? ==> w1.title == w2.title
    requires c.executable.Some? ==> w1.executable == w2.executable
    requires c.className.Some? ==> w1.className == w2.className
    ensures Matches(c, w1, isMatch) <==> Matches(c, w2, isMatch)
  {
  }

  /** A configuration of valid patterns compiles to a condition that matches
      a window iff every configured pattern matches the window's field. */
  lemma ConfigMatchesIffPatternsMatch(config: ConditionConfig, w: WindowInformation,
                                      compiles: string -> bool, isMatch: (string, string) -> bool)
    requires FromConfig(config, compiles).Success?
    ensures Matches(FromConfig(config, compiles).value, w, isMatch) <==>
      && (config.title.Some? ==> isMatch(config.title.value, w.title))
      && (config.executable.Some? ==> isMatch(config.executable.value, w.executable))
      && (config.className.Some? ==> isMatch(config.className.value, w.className))
  {
  }
}
