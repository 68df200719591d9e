/** Rule selection of pkg/server/acl.go. */
module Acl {
  import opened Common
  import Wildcard

  datatype Action = Deny | Allow

  datatype Rule = Rule(peerPattern: string, methodPattern: string, action: Action, priority: int)

  predicate Applies(r: Rule, peerID: string, methodName: string) {
    Wildcard.Matches(peerID, r.peerPattern) && Wildcard.Matches(methodName, r.methodPattern)
  }

  /** A matching rule that can win: the search starts below priority 0. */
  predicate Eligible(r: Rule, peerID: string, methodName: string) {
    Applies(r, peerID, methodName) && r.priority >= 0
  }

  predicate IsTop(rules: seq<Rule>, peerID: string, methodName: string, k: nat) {
    && k < |rules| && Eligible(rules[k], peerID, methodName)
    && forall i | 0 <= i < |rules| && Eligible(rules[i], peerID, methodName) :: rules[i].priority <= rules[k].priority
  }

  /** The first rule of maximum priority among the eligible ones. */
  predicate IsBest(rules: seq<Rule>, peerID: string, methodName: string, k: nat) {
    IsBestOf(rules, |rules|, peerID, methodName, k)
  }

  /** The same among the first n rules. */
  predicate IsBestOf(rules: seq<Rule>, n: nat, peerID: string, methodName: string, k: nat)
    requires n <= |rules|
  {
    && k < n && Eligible(rules[k], peerID, methodName)
    && (forall i | 0 <= i < n && Eligible(rules[i], peerID, methodName) :: rules[i].priority <= rules[k].priority)
    && (forall i | 0 <= i < k && Eligible(rules[i], peerID, methodName) :: rules[i].priority < rules[k].priority)
  }

  ghost predicate Allowed(rules: seq<Rule>, peerID: string, methodName: string) {
    exists k: nat :: IsBest(rules, peerID, methodName, k) && rules[k].action == Allow
  }

  class StaticACL {
    var rules: seq<Rule>

    constructor (rules: seq<Rule>)
      ensures this.rules == rules
    {
      this.rules := rules;
    }

    method UpdateRules(rules: seq<Rule>)
      modifies this
      ensures this.rules == rules
    {
      this.rules := rules;
    }

    /** The index stands for the pointer into the rule slice. */
    method Match(peerID: string, methodName: string) returns (best: Option<nat>)
      ensures best.Some? ==>
                && IsBest(rules, peerID, methodName, best.value)
                && Wildcard.Matches(peerID, rules[best.value].peerPattern)
                && Wildcard.Matches(methodName, rules[best.value].methodPattern) && 0 <= rules[best.value].priority
      ensures forall i | 0 <= i < |rules| && Wildcard.Matches(peerID, rules[i].peerPattern)
                         && Wildcard.Matches(methodName, rules[i].methodPattern) && 0 <= rules[i].priority ::
                && best.Some?
                && rules[i].priority <= rules[best.value].priority
                && (rules[i].priority == rules[best.value].priority ==> best.value <= i)
      ensures best.None? <==> forall i | 0 <= i < |rules| :: !Eligible(rules[i], peerID, methodName)
    {
      best := None;
      var bestPriority := -1;
      for i := 0 to |rules|
        invariant best.None? ==> bestPriority == -1 && forall j | 0 <= j < i :: !Eligible(rules[j], peerID, methodName)
        invariant best.Some? ==> best.value < i && bestPriority == rules[best.value].priority
                                 && IsBestOf(rules, i, peerID, methodName, best.value)
      {
        var rule := rules[i];
        if Wildcard.Matches(peerID, rule.peerPattern) && Wildcard.Matches(methodName, rule.methodPattern) {
          if rule.priority > bestPriority {
            best := Some(i);
            bestPriority := rule.priority;
          }
        }
      }
    }

    method Check(peerID: string, methodName: string) returns (allowed: bool)
      ensures allowed <==> Allowed(rules, peerID, methodName)
    {
      var best := Match(peerID, methodName);
      if best.None? {
        return false; // default deny
      }
      allowed := rules[best.value].action == Allow;
      forall k: nat | IsBest(rules, peerID, methodName, k) ensures k == best.value {
        BestUnique(rules, peerID, methodName, k, best.value);
      }
    }
  }

  /** A request is allowed if and only if an allowing rule matches both names with a priority of at least 0, and no
      rule that also matches both has a higher one, or the same one further up. */
  lemma AllowedMeans(rules: seq<Rule>, peerID: string, methodName: string)
    ensures Allowed(rules, peerID, methodName) <==>
              exists k | 0 <= k < |rules| ::
                && rules[k].action == Allow && 0 <= rules[k].priority
                && Wildcard.Matches(peerID, rules[k].peerPattern) && Wildcard.Matches(methodName, rules[k].methodPattern)
                && forall i | 0 <= i < |rules| && Wildcard.Matches(peerID, rules[i].peerPattern)
                              && Wildcard.Matches(methodName, rules[i].methodPattern) ::
                     rules[i].priority < rules[k].priority || (rules[i].priority == rules[k].priority && k <= i)
  {
    if Allowed(rules, peerID, methodName) {
      var k: nat :| IsBest(rules, peerID, methodName, k) && rules[k].action == Allow;
      assert forall i | 0 <= i < |rules| && Wildcard.Matches(peerID, rules[i].peerPattern)
                        && Wildcard.Matches(methodName, rules[i].methodPattern) ::
          rules[i].priority < 0 || Eligible(rules[i], peerID, methodName);
    }
    if k :| 0 <= k < |rules| && rules[k].action == Allow && 0 <= rules[k].priority
            && Wildcard.Matches(peerID, rules[k].peerPattern) && Wildcard.Matches(methodName, rules[k].methodPattern)
            && forall i | 0 <= i < |rules| && Wildcard.Matches(peerID, rules[i].peerPattern)
                          && Wildcard.Matches(methodName, rules[i].methodPattern) ::
                 rules[i].priority < rules[k].priority || (rules[i].priority == rules[k].priority && k <= i)
    {
      assert IsBest(rules, peerID, methodName, k);
    }
  }

  lemma BestUnique(rules: seq<Rule>, peerID: string, methodName: string, j: nat, k: nat)
    requires IsBest(rules, peerID, methodName, j) && IsBest(rules, peerID, methodName, k)
    ensures j == k
  {
  }

  lemma BestExists(rules: seq<Rule>, peerID: string, methodName: string, i: nat) returns (k: nat)
    requires i < |rules| && Eligible(rules[i], peerID, methodName)
    ensures IsBest(rules, peerID, methodName, k)
  {
    var best := BestOf(rules, |rules|, peerID, methodName);
    k := best.value;
  }

  lemma {:induction false} BestOf(rules: seq<Rule>, n: nat, peerID: string, methodName: string) returns (best: Option<nat>)
    requires n <= |rules|
    ensures best.Some? ==> IsBestOf(rules, n, peerID, methodName, best.value)
    ensures best.None? ==> forall i | 0 <= i < n :: !Eligible(rules[i], peerID, methodName)
  {
    best := None;
    if n > 0 {
      best := BestOf(rules, n - 1, peerID, methodName);
      if Eligible(rules[n - 1], peerID, methodName) && (best.None? || rules[n - 1].priority > rules[best.value].priority) {
        best := Some(n - 1);
      }
    }
  }

  // ---- Negative priorities ----

  function DropNegative(rules: seq<Rule>): seq<Rule> {
    if rules == [] then []
    else DropNegative(rules[..|rules| - 1]) + (if rules[|rules| - 1].priority < 0 then [] else [rules[|rules| - 1]])
  }

  /** The position in the shortened list of a rule that stays. */
  function NewIndex(rules: seq<Rule>, k: nat): nat
    requires k < |rules|
  {
    |DropNegative(rules[..k])|
  }

  lemma {:induction false} DropNegativeAt(rules: seq<Rule>, k: nat)
    requires k < |rules| && rules[k].priority >= 0
    ensures NewIndex(rules, k) < |DropNegative(rules)| && DropNegative(rules)[NewIndex(rules, k)] == rules[k]
  {
    var n := |rules| - 1;
    if k < n {
      DropNegativeAt(rules[..n], k);
      assert rules[..n][..k] == rules[..k];
    }
  }

  lemma {:induction false} DropNegativeFrom(rules: seq<Rule>, j: nat) returns (k: nat)
    requires j < |DropNegative(rules)|
    ensures k < |rules| && rules[k].priority >= 0 && NewIndex(rules, k) == j && DropNegative(rules)[j] == rules[k]
  {
    var n := |rules| - 1;
    if j < |DropNegative(rules[..n])| {
      k := DropNegativeFrom(rules[..n], j);
      assert rules[..n][..k] == rules[..k];
    } else {
      k := n;
    }
  }

  lemma {:induction false} NewIndexMonotone(rules: seq<Rule>, i: nat, k: nat)
    requires i < k < |rules| && rules[i].priority >= 0
    ensures NewIndex(rules, i) < NewIndex(rules, k)
  {
    assert rules[..k][..k - 1] == rules[..k - 1];
    if i < k - 1 { NewIndexMonotone(rules, i, k - 1); }
  }

  /** Deleting the negative-priority rules changes neither the selected rule nor the decision. */
  lemma NegativeRulesNeverMatter(rules: seq<Rule>, peerID: string, methodName: string)
    ensures forall k: nat | k < |rules| ::
              IsBest(rules, peerID, methodName, k) <==>
              rules[k].priority >= 0 && IsBest(DropNegative(rules), peerID, methodName, NewIndex(rules, k))
    ensures Allowed(DropNegative(rules), peerID, methodName) <==> Allowed(rules, peerID, methodName)
  {
    var kept := DropNegative(rules);
    forall k: nat | k < |rules|
      ensures IsBest(rules, peerID, methodName, k) <==>
              rules[k].priority >= 0 && IsBest(kept, peerID, methodName, NewIndex(rules, k))
    {
      if rules[k].priority >= 0 {
        DropNegativeAt(rules, k);
        if IsBest(rules, peerID, methodName, k) { BestKept(rules, peerID, methodName, k); }
        if IsBest(kept, peerID, methodName, NewIndex(rules, k)) { BestWasThere(rules, peerID, methodName, k); }
      }
    }
    if Allowed(rules, peerID, methodName) {
      var k: nat :| IsBest(rules, peerID, methodName, k) && rules[k].action == Allow;
      DropNegativeAt(rules, k);
      assert IsBest(kept, peerID, methodName, NewIndex(rules, k));
    }
    if Allowed(kept, peerID, methodName) {
      var j: nat :| IsBest(kept, peerID, methodName, j) && kept[j].action == Allow;
      var k := DropNegativeFrom(rules, j);
      assert IsBest(rules, peerID, methodName, k);
    }
  }

  lemma BestKept(rules: seq<Rule>, peerID: string, methodName: string, k: nat)
    requires k < |rules| && IsBest(rules, peerID, methodName, k)
    ensures IsBest(DropNegative(rules), peerID, methodName, NewIndex(rules, k))
  {
    var kept := DropNegative(rules);
    DropNegativeAt(rules, k);
    forall j | 0 <= j < |kept| && Eligible(kept[j], peerID, methodName)
      ensures kept[j].priority <= rules[k].priority
      ensures j < NewIndex(rules, k) ==> kept[j].priority < rules[k].priority
    {
      var i := DropNegativeFrom(rules, j);
      if k < i { NewIndexMonotone(rules, k, i); }
    }
  }

  lemma BestWasThere(rules: seq<Rule>, peerID: string, methodName: string, k: nat)
    requires k < |rules| && rules[k].priority >= 0 && IsBest(DropNegative(rules), peerID, methodName, NewIndex(rules, k))
    ensures IsBest(rules, peerID, methodName, k)
  {
    var kept := DropNegative(rules);
    DropNegativeAt(rules, k);
    forall i | 0 <= i < |rules| && Eligible(rules[i], peerID, methodName)
      ensures rules[i].priority <= rules[k].priority
      ensures i < k ==> rules[i].priority < rules[k].priority
    {
      DropNegativeAt(rules, i);
      assert kept[NewIndex(rules, i)] == rules[i];
      if i < k { NewIndexMonotone(rules, i, k); }
    }
  }

  // ---- Order of the rules ----

  ghost predicate OrderIndependent(rules: seq<Rule>, peerID: string, methodName: string) {
    forall shuffled: seq<Rule> | multiset(shuffled) == multiset(rules) ::
      Allowed(shuffled, peerID, methodName) <==> Allowed(rules, peerID, methodName)
  }

  /** All eligible rules of the maximum priority carry the same action. */
  ghost predicate TopAgree(rules: seq<Rule>, peerID: string, methodName: string) {
    forall i: nat, j: nat | IsTop(rules, peerID, methodName, i) && IsTop(rules, peerID, methodName, j) ::
      rules[i].action == rules[j].action
  }

  lemma SameRules(xs: seq<Rule>, ys: seq<Rule>, i: nat) returns (j: nat)
    requires multiset(xs) == multiset(ys) && i < |xs|
    ensures j < |ys| && ys[j] == xs[i]
  {
    assert xs[i] in multiset(xs);
    assert xs[i] in ys;
    j :| 0 <= j < |ys| && ys[j] == xs[i];
  }

  lemma TopMoves(xs: seq<Rule>, ys: seq<Rule>, peerID: string, methodName: string, i: nat) returns (j: nat)
    requires multiset(xs) == multiset(ys) && IsTop(xs, peerID, methodName, i)
    ensures IsTop(ys, peerID, methodName, j) && ys[j] == xs[i]
  {
    j := SameRules(xs, ys, i);
    forall k | 0 <= k < |ys| && Eligible(ys[k], peerID, methodName) ensures ys[k].priority <= ys[j].priority {
      var l := SameRules(ys, xs, k);
      assert Eligible(xs[l], peerID, methodName);
    }
  }

  lemma TopAgreeMoves(rules: seq<Rule>, shuffled: seq<Rule>, peerID: string, methodName: string)
    requires multiset(shuffled) == multiset(rules) && TopAgree(rules, peerID, methodName)
    ensures TopAgree(shuffled, peerID, methodName)
  {
    forall i: nat, j: nat | IsTop(shuffled, peerID, methodName, i) && IsTop(shuffled, peerID, methodName, j)
      ensures shuffled[i].action == shuffled[j].action
    {
      var i' := TopMoves(shuffled, rules, peerID, methodName, i);
      var j' := TopMoves(shuffled, rules, peerID, methodName, j);
    }
  }

  lemma TopAgreeKeepsAllowed(rules: seq<Rule>, shuffled: seq<Rule>, peerID: string, methodName: string)
    requires multiset(shuffled) == multiset(rules) && TopAgree(rules, peerID, methodName)
    requires Allowed(rules, peerID, methodName)
    ensures Allowed(shuffled, peerID, methodName)
  {
    var i: nat :| IsBest(rules, peerID, methodName, i) && rules[i].action == Allow;
    var i' := TopMoves(rules, shuffled, peerID, methodName, i);
    var j := BestExists(shuffled, peerID, methodName, i');
    var j' := TopMoves(shuffled, rules, peerID, methodName, j);
    assert IsTop(rules, peerID, methodName, i) && IsTop(rules, peerID, methodName, j');
    assert IsBest(shuffled, peerID, methodName, j);
  }

  function MovedFirst(rules: seq<Rule>, k: nat): seq<Rule>
    requires k < |rules|
  {
    [rules[k]] + rules[..k] + rules[k + 1..]
  }

  lemma TopFirstDecides(rules: seq<Rule>, peerID: string, methodName: string, k: nat)
    requires IsTop(rules, peerID, methodName, k)
    ensures multiset(MovedFirst(rules, k)) == multiset(rules)
    ensures Allowed(MovedFirst(rules, k), peerID, methodName) <==> rules[k].action == Allow
  {
    var moved := MovedFirst(rules, k);
    assert rules == rules[..k] + [rules[k]] + rules[k + 1..];
    var j := TopMoves(rules, moved, peerID, methodName, k);
    assert moved[0] == rules[k];
    assert IsBest(moved, peerID, methodName, 0);
    forall i: nat | IsBest(moved, peerID, methodName, i) ensures i == 0 {
      BestUnique(moved, peerID, methodName, i, 0);
    }
  }

  /** The decision on a request survives every reordering of the rules if and only if the matching rules
      of top priority agree on the action. */
  lemma OrderIndependentExactly(rules: seq<Rule>, peerID: string, methodName: string)
    ensures OrderIndependent(rules, peerID, methodName) <==> TopAgree(rules, peerID, methodName)
  {
    if TopAgree(rules, peerID, methodName) {
      forall shuffled: seq<Rule> | multiset(shuffled) == multiset(rules)
        ensures Allowed(shuffled, peerID, methodName) <==> Allowed(rules, peerID, methodName)
      {
        if Allowed(rules, peerID, methodName) {
          TopAgreeKeepsAllowed(rules, shuffled, peerID, methodName);
        } else if Allowed(shuffled, peerID, methodName) {
          TopAgreeMoves(rules, shuffled, peerID, methodName);
          TopAgreeKeepsAllowed(shuffled, rules, peerID, methodName);
        }
      }
    } else {
      var i: nat, j: nat :| IsTop(rules, peerID, methodName, i) && IsTop(rules, peerID, methodName, j)
                            && rules[i].action != rules[j].action;
      TopFirstDecides(rules, peerID, methodName, i);
      TopFirstDecides(rules, peerID, methodName, j);
    }
  }

  /** In particular when the priorities that can win are pairwise distinct. */
  lemma DistinctPrioritiesSuffice(rules: seq<Rule>, shuffled: seq<Rule>, peerID: string, methodName: string)
    requires forall i, j | 0 <= i < j < |rules| && rules[i].priority >= 0 && rules[j].priority >= 0 ::
               rules[i].priority != rules[j].priority
    requires multiset(shuffled) == multiset(rules)
    ensures Allowed(shuffled, peerID, methodName) <==> Allowed(rules, peerID, methodName)
  {
    assert TopAgree(rules, peerID, methodName);
    OrderIndependentExactly(rules, peerID, methodName);
  }
}
