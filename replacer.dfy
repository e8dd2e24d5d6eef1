/** `strings.NewReplacer(old1, new1, old2, new2, ...).Replace(s)`: one
    left-to-right pass over `s`; at each position the first pair, in argument
    order, whose `old` begins the rest of `s` is replaced by its `new` and the
    scan resumes after that `old`; replacement text is never rescanned. */
module Replacer {
  import opened Wrappers
  import opened Strings

  /** One `old, new` argument pair. */
  datatype Rule = Rule(pattern: string, replacement: string)

  /** Every pattern is non-empty (all replacers in the registry use literals). */
  predicate WellFormed(rules: seq<Rule>) {
    forall k :: 0 <= k < |rules| ==> |rules[k].pattern| > 0
  }

  /** The first pair, in argument order, whose `old` begins `s`. */
  function FirstRule(s: string, rules: seq<Rule>): (r: Option<nat>)
    ensures r.Some? ==> r.value < |rules| && HasPrefix(s, rules[r.value].pattern)
    ensures r.Some? ==> forall k :: 0 <= k < r.value ==> !HasPrefix(s, rules[k].pattern)
    ensures r.None? ==> forall k :: 0 <= k < |rules| ==> !HasPrefix(s, rules[k].pattern)
  {
    if rules == [] then None
    else if HasPrefix(s, rules[0].pattern) then Some(0)
    else match FirstRule(s, rules[1..])
      case None => None
      case Some(k) => Some(k + 1)
  }

  /** The converse of `FirstRule`'s contract: the first matching pair is found. */
  lemma {:induction false} FirstRuleIs(s: string, rules: seq<Rule>, k: nat)
    requires k < |rules| && HasPrefix(s, rules[k].pattern)
    requires forall j :: 0 <= j < k ==> !HasPrefix(s, rules[j].pattern)
    ensures FirstRule(s, rules) == Some(k)
    decreases k
  {
    if k > 0 {
      FirstRuleIs(s, rules[1..], k - 1);
    }
  }

  lemma {:induction false} FirstRuleNone(s: string, rules: seq<Rule>)
    requires forall j :: 0 <= j < |rules| ==> !HasPrefix(s, rules[j].pattern)
    ensures FirstRule(s, rules).None?
    decreases |rules|
  {
    if rules != [] {
      FirstRuleNone(s, rules[1..]);
    }
  }

  function Replace(s: string, rules: seq<Rule>): string
    requires WellFormed(rules)
    decreases |s|
  {
    if s == [] then ""
    else match FirstRule(s, rules)
      case Some(k) => rules[k].replacement + Replace(s[|rules[k].pattern|..], rules)
      case None => [s[0]] + Replace(s[1..], rules)
  }

  /** No pattern begins at any position of `s`. */
  predicate NoMatch(s: string, rules: seq<Rule>) {
    forall i :: 0 <= i < |s| ==> FirstRule(s[i..], rules).None?
  }

  /** Text in which no pattern occurs passes through unchanged. */
  lemma {:induction false} ReplaceNoMatch(s: string, rules: seq<Rule>)
    requires WellFormed(rules) && NoMatch(s, rules)
    ensures Replace(s, rules) == s
    decreases |s|
  {
    if s != [] {
      assert s[0..] == s;
      forall i | 0 <= i < |s[1..]| ensures FirstRule(s[1..][i..], rules).None? {
        assert s[1..][i..] == s[i + 1..];
      }
      ReplaceNoMatch(s[1..], rules);
      assert s == [s[0]] + s[1..];
    }
  }
}
