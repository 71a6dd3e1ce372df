/**
  The eligibility gate shared by the API conversion (`WithCheck::check`):
  a project qualifies only in the exact state a fresh Laravel 11 skeleton is
  in. The gate is a fixed list of rules checked in order; the first rule
  that fails answers `false`.
 */
module Preconditions {
  import opened Text
  import opened FileSystem
  import opened Paths

  /** One condition on the project: a path exists or is missing, or the
      bootstrap file mentions or does not mention a literal. */
  datatype Rule =
    | MustExist(path: Path)
    | MustBeMissing(path: Path)
    | MustMention(literal: string)
    | MustNotMention(literal: string)
  {
    /** The rule looks inside the bootstrap file. */
    predicate ReadsBootstrap() {
      MustMention? || MustNotMention?
    }
  }

  /** The fluent-configuration call of a Laravel 11 `bootstrap/app.php`. */
  const ConfigureMarker := "return Application::configure"
  /** Left behind by `install:api`. */
  const ApiRoutesMarker := "/routes/api.php"
  /** Left behind by the Breeze API (Sanctum SPA) starter kit. */
  const StatefulMarker := "EnsureFrontendRequestsAreStateful::class"
  /** Left behind by the Breeze Inertia starter kit. */
  const InertiaMarker := "HandleInertiaRequests::class"

  /** Whether a rule holds, given the content of the bootstrap file. */
  predicate Holds(r: Rule, t: Tree, bootstrap: string) {
    match r
    case MustExist(p) => Exists(t, p)
    case MustBeMissing(p) => Missing(t, p)
    case MustMention(s) => Contains(bootstrap, s)
    case MustNotMention(s) => !Contains(bootstrap, s)
  }

  /** Every rule of the list holds. */
  predicate AllHold(rules: seq<Rule>, t: Tree, bootstrap: string) {
    forall i :: 0 <= i < |rules| ==> Holds(rules[i], t, bootstrap)
  }

  /** The rules checked in order, stopping at the first that fails. The
      bootstrap file is read when the first rule about its content is
      reached; if it is not a readable file (`bootstrap` is `None`), the read
      raises. */
  function Evaluate(rules: seq<Rule>, t: Tree, bootstrap: Option<string>): (r: Option<bool>)
    ensures r.None? ==> bootstrap.None?
    ensures (forall i :: 0 <= i < |rules| ==> !rules[i].ReadsBootstrap()) ==> r.Some?
    decreases |rules|
  {
    if |rules| == 0 then Some(true)
    else if rules[0].ReadsBootstrap() && bootstrap.None? then None
    else if Holds(rules[0], t, if bootstrap.Some? then bootstrap.value else "") then
      assert forall i :: 1 <= i < |rules| ==> rules[1..][i - 1] == rules[i];
      Evaluate(rules[1..], t, bootstrap)
    else Some(false)
  }

  /** The rules of `WithCheck::check`, in the order it checks them. */
  function ApiRules(l: Layout): seq<Rule> {
    [ MustExist(ProvidersFile(l)),
      MustMention(ConfigureMarker),
      MustNotMention(ApiRoutesMarker),
      MustNotMention(StatefulMarker),
      MustNotMention(InertiaMarker),
      MustBeMissing(AuthServiceProviderFile(l)),
      MustExist(WebRoutes),
      MustBeMissing(ApiRoutes),
      MustBeMissing(ChannelRoutes),
      MustBeMissing(ConfigFile(l, "jetstream.php")),
      MustExist(l.database),
      MustExist(l.public),
      MustExist(l.resources) ]
  }

  /** A bootstrap file in the fluent form, with no trace of `install:api`
      or of a starter kit. */
  predicate PristineBootstrap(s: string) {
    && Contains(s, ConfigureMarker)
    && !Contains(s, ApiRoutesMarker)
    && !Contains(s, StatefulMarker)
    && !Contains(s, InertiaMarker)
  }

  /** The project is a fresh Laravel 11 skeleton, as the API conversion
      understands it. */
  predicate Eligible(l: Layout, t: Tree) {
    && Exists(t, ProvidersFile(l))
    && IsFile(t, AppFile(l))
    && PristineBootstrap(t[AppFile(l)].content)
    && Missing(t, AuthServiceProviderFile(l))
    && Exists(t, WebRoutes)
    && Missing(t, ApiRoutes)
    && Missing(t, ChannelRoutes)
    && Missing(t, ConfigFile(l, "jetstream.php"))
    && Exists(t, l.database)
    && Exists(t, l.public)
    && Exists(t, l.resources)
  }

  /** `WithCheck::check`: `Some(true)` exactly for an eligible project; it
      raises only when the providers file exists but `bootstrap/app.php` is
      not a file, because the bootstrap file is read only after the providers
      file was found. */
  function Check(l: Layout, t: Tree): (r: Option<bool>)
    ensures r == Some(true) <==> Eligible(l, t)
    ensures r.None? <==> Exists(t, ProvidersFile(l)) && !IsFile(t, AppFile(l))
    ensures Missing(t, ProvidersFile(l)) ==> r == Some(false)
  {
    var rules := ApiRules(l);
    var bootstrap := Get(t, AppFile(l));
    if bootstrap.Some? then
      EvaluateIsConjunction(rules, t, bootstrap.value);
      ApiRulesMeanEligible(l, t);
      Evaluate(rules, t, bootstrap)
    else
      var tail := rules[1..];
      assert |tail| > 0 && tail[0] == MustMention(ConfigureMarker);
      assert Evaluate(tail, t, bootstrap) == None;
      Evaluate(rules, t, bootstrap)
  }

  /** With the bootstrap file readable, fail-fast evaluation answers whether
      every rule holds. */
  lemma {:induction false} EvaluateIsConjunction(rules: seq<Rule>, t: Tree, bootstrap: string)
    ensures Evaluate(rules, t, Some(bootstrap)) == Some(AllHold(rules, t, bootstrap))
    decreases |rules|
  {
    if |rules| > 0 {
      EvaluateIsConjunction(rules[1..], t, bootstrap);
      assert forall i :: 1 <= i < |rules| ==> rules[i] == rules[1..][i - 1];
    }
  }

  /** The order of the rules decides only when the bootstrap file is read,
      never the verdict: any rearrangement of the rules gives the same answer
      when the file is readable. */
  lemma RuleOrderIrrelevant(rules: seq<Rule>, reordered: seq<Rule>, t: Tree, bootstrap: string)
    requires multiset(rules) == multiset(reordered)
    ensures Evaluate(rules, t, Some(bootstrap)) == Evaluate(reordered, t, Some(bootstrap))
  {
    EvaluateIsConjunction(rules, t, bootstrap);
    EvaluateIsConjunction(reordered, t, bootstrap);
    forall r | r in rules ensures r in reordered {
      assert r in multiset(rules);
    }
    forall r | r in reordered ensures r in rules {
      assert r in multiset(reordered);
    }
    HoldsForMembers(rules, reordered, t, bootstrap);
    HoldsForMembers(reordered, rules, t, bootstrap);
  }

  /** Rules drawn from a list that holds throughout hold as well. */
  lemma HoldsForMembers(rules: seq<Rule>, drawn: seq<Rule>, t: Tree, bootstrap: string)
    requires forall r :: r in drawn ==> r in rules
    ensures AllHold(rules, t, bootstrap) ==> AllHold(drawn, t, bootstrap)
  {
    if AllHold(rules, t, bootstrap) {
      forall j | 0 <= j < |drawn| ensures Holds(drawn[j], t, bootstrap) {
        assert drawn[j] in rules;
        var i :| 0 <= i < |rules| && rules[i] == drawn[j];
      }
    }
  }

  /** The thirteen rules say, one by one, what `Eligible` says. */
  lemma ApiRulesMeanEligible(l: Layout, t: Tree)
    requires IsFile(t, AppFile(l))
    ensures AllHold(ApiRules(l), t, t[AppFile(l)].content) <==> Eligible(l, t)
  {
    var rs := ApiRules(l);
    var s := t[AppFile(l)].content;
    if Eligible(l, t) {
      forall i | 0 <= i < |rs| ensures Holds(rs[i], t, s) {
        assert i in {0, 1, 2, 3, 4, 5, 6, 7, 8, 9, 10, 11, 12};
      }
    }
    if AllHold(rs, t, s) {
      assert Holds(rs[0], t, s) && Holds(rs[1], t, s) && Holds(rs[2], t, s);
      assert Holds(rs[3], t, s) && Holds(rs[4], t, s) && Holds(rs[5], t, s);
      assert Holds(rs[6], t, s) && Holds(rs[7], t, s) && Holds(rs[8], t, s);
      assert Holds(rs[9], t, s) && Holds(rs[10], t, s) && Holds(rs[11], t, s);
      assert Holds(rs[12], t, s);
    }
  }
}
