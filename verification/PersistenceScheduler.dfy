/** When key-value changes are persisted: lazy rules, the next deadline and the decision to commit. */
module PersistenceScheduler {
  import opened ByteStrings
  import Sorting

  // Durations in nanoseconds, up to the largest one representable: 2^64 seconds less one nanosecond.
  const MAX_DURATION: nat := 0x1_0000_0000_0000_0000 * 1_000_000_000 - 1

  type Duration = d: nat | d <= MAX_DURATION

  datatype Threshold = Threshold(changes: nat, duration: Duration)

  datatype Persistence = Immediate | Lazy(rules: seq<Threshold>)

  predicate Sorted(rules: seq<Threshold>) {
    forall i, j :: 0 <= i < j < |rules| ==> rules[i].changes <= rules[j].changes
  }

  // `saturating_sub`
  function Remaining(rule: Threshold, elapsed: Duration): Duration {
    if rule.duration < elapsed then 0 else rule.duration - elapsed
  }

  predicate Applies(rule: Threshold, changes: nat) {
    rule.changes <= changes
  }

  // `d` is the least remaining time among the rules that apply, or the maximal duration if none is less.
  ghost predicate IsShortest(rules: multiset<Threshold>, changes: nat, elapsed: Duration, d: Duration) {
    && (forall rule :: rule in rules && Applies(rule, changes) ==> d <= Remaining(rule, elapsed))
    && (d == MAX_DURATION || exists rule :: rule in rules && Applies(rule, changes) && d == Remaining(rule, elapsed))
  }

  // What the deadline is, independent of any order of the rules.
  ghost predicate IsDeadline(p: Persistence, rules: multiset<Threshold>, changes: nat, elapsed: Duration,
                             r: Option<Duration>)
  {
    if changes == 0 then r == None
    else if p.Immediate? then r == Some(0)
    else exists d: Duration :: IsShortest(rules, changes, elapsed, d) && r == if d < MAX_DURATION then Some(d) else None
  }

  lemma ShortestUnique(rules: multiset<Threshold>, changes: nat, elapsed: Duration, a: Duration, b: Duration)
    requires IsShortest(rules, changes, elapsed, a) && IsShortest(rules, changes, elapsed, b)
    ensures a == b
  {
  }

  // The deadline does not depend on the order the rules were given in.
  lemma DeadlineOrderFree(p: Persistence, q: Persistence, changes: nat, elapsed: Duration, a: Option<Duration>,
                          b: Option<Duration>)
    requires p.Lazy? && q.Lazy? && multiset(p.rules) == multiset(q.rules)
    requires IsDeadline(p, multiset(p.rules), changes, elapsed, a)
    requires IsDeadline(q, multiset(q.rules), changes, elapsed, b)
    ensures a == b
  {
    if changes > 0 {
      var rules := multiset(p.rules);
      var d: Duration :| IsShortest(rules, changes, elapsed, d) && a == if d < MAX_DURATION then Some(d) else None;
      var e: Duration :| IsShortest(rules, changes, elapsed, e) && b == if e < MAX_DURATION then Some(e) else None;
      ShortestUnique(rules, changes, elapsed, d, e);
    }
  }

  function ByChanges(a: Threshold, b: Threshold): bool {
    a.changes <= b.changes
  }

  // `lazy`: sorts the rules by their number of changes, rules with the same number staying in order.
  method MakeLazy(rules: seq<Threshold>) returns (p: Persistence)
    ensures p.Lazy? && Sorted(p.rules) && multiset(p.rules) == multiset(rules)
    ensures forall rule :: Sorting.Alike(p.rules, rule, ByChanges) == Sorting.Alike(rules, rule, ByChanges)
  {
    var sorted := Sorting.SortBy(rules, ByChanges);
    p := Lazy(sorted);
  }

  // `duration_until_next_commit`: scans the rules that apply, which come first, and stops early at zero.
  method DurationUntilNextCommit(p: Persistence, changes: nat, elapsed: Duration) returns (r: Option<Duration>)
    requires p.Lazy? ==> Sorted(p.rules)
    ensures IsDeadline(p, if p.Lazy? then multiset(p.rules) else multiset{}, changes, elapsed, r)
  {
    if changes == 0 {
      return None;
    }
    if p.Immediate? {
      return Some(0);
    }
    var rules := p.rules;
    var shortest: Duration := MAX_DURATION;
    var i := 0;
    while i < |rules| && rules[i].changes <= changes
      invariant 0 <= i <= |rules|
      invariant forall j :: 0 <= j < i ==> Applies(rules[j], changes) && shortest <= Remaining(rules[j], elapsed)
      invariant shortest == MAX_DURATION || Attained(rules, changes, elapsed, shortest)
    {
      var remaining := Remaining(rules[i], elapsed);
      if remaining < shortest {
        shortest := remaining;
        assert rules[i] in multiset(rules);
      }
      if shortest == 0 {
        break;
      }
      i := i + 1;
    }
    forall rule | rule in multiset(rules) && Applies(rule, changes) ensures shortest <= Remaining(rule, elapsed) {
      assert rule in rules;
    }
    assert IsShortest(multiset(rules), changes, elapsed, shortest);
    r := if shortest < MAX_DURATION then Some(shortest) else None;
  }

  // Rule `i` applies and lets the changes wait for `d` more, or for no longer.
  predicate Waits(rules: seq<Threshold>, changes: nat, elapsed: Duration, d: nat, i: nat)
    requires i < |rules|
  {
    rules[i].changes <= changes && if d == 0 then rules[i].duration <= elapsed else elapsed + d == rules[i].duration
  }

  // The deadline, rule by rule: there is none without changes and it is now without rules to wait for; otherwise it is
  // as far away as some rule that applies asks for, and no further than any of them does.
  lemma DeadlineMeans(p: Persistence, changes: nat, elapsed: Duration, r: Option<Duration>)
    requires IsDeadline(p, if p.Lazy? then multiset(p.rules) else multiset{}, changes, elapsed, r)
    ensures changes == 0 ==> r == None
    ensures changes > 0 && p.Immediate? ==> r == Some(0)
    ensures changes > 0 && p.Lazy? && r.Some? ==>
      && (exists i: nat :: i < |p.rules| && Waits(p.rules, changes, elapsed, r.value, i))
      && (forall i :: 0 <= i < |p.rules| && p.rules[i].changes <= changes ==>
            r.value == 0 || elapsed + r.value <= p.rules[i].duration)
    ensures changes > 0 && p.Lazy? && r.None? ==>
      forall i :: 0 <= i < |p.rules| && p.rules[i].changes <= changes ==>
        elapsed == 0 && p.rules[i].duration == 18_446_744_073_709_551_615_999_999_999
  {
    if changes > 0 && p.Lazy? {
      var rules := p.rules;
      var d: Duration :| IsShortest(multiset(rules), changes, elapsed, d) &&
        r == if d < MAX_DURATION then Some(d) else None;
      forall i | 0 <= i < |rules| && rules[i].changes <= changes ensures d == 0 || elapsed + d <= rules[i].duration {
        assert rules[i] in multiset(rules);
      }
      if d < MAX_DURATION {
        var rule :| rule in multiset(rules) && Applies(rule, changes) && d == Remaining(rule, elapsed);
        assert rule in rules;
        var i: nat :| i < |rules| && rules[i] == rule;
        assert Waits(rules, changes, elapsed, d, i);
      }
    }
  }

  ghost predicate Attained(rules: seq<Threshold>, changes: nat, elapsed: Duration, d: Duration) {
    exists rule :: rule in multiset(rules) && Applies(rule, changes) && d == Remaining(rule, elapsed)
  }

  // Some rule that applies has waited long enough.
  ghost predicate Due(rules: multiset<Threshold>, changes: nat, elapsed: Duration) {
    changes > 0 && exists rule :: rule in rules && Applies(rule, changes) && rule.duration <= elapsed
  }

  // `should_commit`: a commit is due.
  method ShouldCommit(p: Persistence, changes: nat, elapsed: Duration) returns (r: bool)
    requires p.Lazy? ==> Sorted(p.rules)
    ensures p.Immediate? ==> (r <==> changes > 0)
    ensures p.Lazy? ==> (r <==> Due(multiset(p.rules), changes, elapsed))
    ensures p.Lazy? ==> (r <==> changes > 0 && exists i :: 0 <= i < |p.rules| && p.rules[i].changes <= changes &&
                                                           p.rules[i].duration <= elapsed)
  {
    var next := DurationUntilNextCommit(p, changes, elapsed);
    if p.Lazy? {
      DeadlineZero(p, changes, elapsed, next);
    }
    r := next == Some(0);
  }

  lemma DeadlineZero(p: Persistence, changes: nat, elapsed: Duration, r: Option<Duration>)
    requires p.Lazy? && IsDeadline(p, multiset(p.rules), changes, elapsed, r)
    ensures r == Some(0) <==> Due(multiset(p.rules), changes, elapsed)
  {
    if changes > 0 {
      var d: Duration :| IsShortest(multiset(p.rules), changes, elapsed, d) &&
        r == if d < MAX_DURATION then Some(d) else None;
      if rule :| rule in multiset(p.rules) && Applies(rule, changes) && rule.duration <= elapsed {
        assert d <= Remaining(rule, elapsed);
      }
    }
  }

  // The deadline is exact: a commit is due when it has passed, and not at any time before; without a deadline
  // no commit becomes due before the longest duration has passed.
  lemma DeadlineExact(p: Persistence, changes: nat, elapsed: Duration, r: Option<Duration>, later: Duration)
    requires p.Lazy? && IsDeadline(p, multiset(p.rules), changes, elapsed, r)
    requires elapsed <= later
    ensures r.Some? ==> elapsed + r.value <= MAX_DURATION
    ensures r.Some? ==> (Due(multiset(p.rules), changes, later) <==> elapsed + r.value <= later)
    ensures r.None? && later < MAX_DURATION ==> !Due(multiset(p.rules), changes, later)
  {
    var rules := multiset(p.rules);
    if changes > 0 {
      var d: Duration :| IsShortest(rules, changes, elapsed, d) && r == if d < MAX_DURATION then Some(d) else None;
      if rule :| rule in rules && Applies(rule, changes) && d == Remaining(rule, elapsed) {
        assert elapsed + d <= later ==> rule.duration <= later;
      }
      if Due(rules, changes, later) {
        var rule :| rule in rules && Applies(rule, changes) && rule.duration <= later;
        assert d <= Remaining(rule, elapsed);
      }
    }
  }

  // More changes and more time never make a commit less due.
  lemma DueMonotone(rules: multiset<Threshold>, changes: nat, elapsed: Duration, changes': nat, elapsed': Duration)
    requires changes <= changes' && elapsed <= elapsed'
    requires Due(rules, changes, elapsed)
    ensures Due(rules, changes', elapsed')
  {
    var rule :| rule in rules && Applies(rule, changes) && rule.duration <= elapsed;
    assert rule in rules && Applies(rule, changes') && rule.duration <= elapsed';
  }
}
