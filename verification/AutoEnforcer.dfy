/**
 How a suggestion edits a rule list and how a logged edit is taken back.

 The lists are edited in place by the class at the end; the functions say what the list
 becomes, and the lemmas compare lists through the map from rule id to rule.
 */
module AutoEnforcer {
  import opened Wrappers
  import opened Text

  datatype Protocol = Tcp | Udp | Icmp | AnyProtocol

  datatype Action = Accept | Drop | Reject

  datatype Rule = Rule(id: string, description: Option<string>, priority: int,
                       source: Option<string>, destination: Option<string>,
                       protocol: Option<Protocol>, sourcePort: Option<nat>, destinationPort: Option<nat>,
                       action: Action, iface: Option<string>, log: bool, enabled: bool)

  datatype DecisionAction = Allow | Deny | SuggestAllow | SuggestDeny | EditRule | RemoveRule

  datatype Event = Event(srcIp: string, destIp: string, bothIpv4: bool, protocol: string,
                         srcPort: Option<nat>, destPort: Option<nat>, iface: string)

  /** `timestamp` is in nanoseconds, `None` when the logged text does not parse. */
  datatype Decision = Decision(action: DecisionAction, confidence: real, autoApplied: bool, timestamp: Option<int>)

  /** `ruleId` stands for the hash of the suggestion from which a new rule takes its id. */
  datatype Suggestion = Suggestion(id: string, ruleId: string, event: Event, decision: Decision,
                                   target: Option<string>, applied: bool, rejected: bool)

  datatype AppliedChange =
    | AddedRule(rule: Rule)
    | RemovedRule(rule: Rule)
    | UpdatedRule(before: Rule, after: Rule)

  // ---------------------------------------------------------------------------
  // Lists
  // ---------------------------------------------------------------------------

  /** The first position of a rule id. */
  function Position(rules: seq<Rule>, id: string): (p: Option<nat>)
    ensures p.None? <==> forall i :: 0 <= i < |rules| ==> rules[i].id != id
    ensures p.Some? ==> p.value < |rules| && rules[p.value].id == id
    ensures p.Some? ==> forall i :: 0 <= i < p.value ==> rules[i].id != id
  {
    if rules == [] then None
    else if rules[0].id == id then Some(0)
    else
      var rest := Position(rules[1..], id);
      if rest.Some? then
        assert forall i :: 0 < i < rest.value + 1 ==> rules[i] == rules[1..][i - 1];
        Some(rest.value + 1)
      else
        assert forall i :: 0 < i < |rules| ==> rules[i] == rules[1..][i - 1];
        None
  }

  function Cut(rules: seq<Rule>, p: nat): seq<Rule>
    requires p < |rules|
  {
    rules[..p] + rules[p + 1..]
  }

  function Without(rules: seq<Rule>, id: string): seq<Rule> {
    if rules == [] then []
    else (if rules[0].id == id then [] else [rules[0]]) + Without(rules[1..], id)
  }

  function ProtocolFromEvent(proto: string): Option<Protocol> {
    if EqIgnoreCase(proto, "tcp") then Some(Tcp)
    else if EqIgnoreCase(proto, "udp") then Some(Udp)
    else if EqIgnoreCase(proto, "icmp") then Some(Icmp)
    else Some(AnyProtocol)
  }

  function BuildRule(s: Suggestion, action: Action): Rule {
    Rule(s.ruleId, Some("AI policy suggestion " + s.id), 100,
         Some(s.event.srcIp + "/32"), Some(s.event.destIp + "/32"),
         ProtocolFromEvent(s.event.protocol), s.event.srcPort, s.event.destPort,
         action, Some(s.event.iface), true, true)
  }

  function Edited(r: Rule, s: Suggestion): Rule {
    r.(source := Some(s.event.srcIp + "/32"), destinationPort := s.event.destPort)
  }

  /** The list after a suggestion and the change to log, `None` when nothing matches. */
  function ApplyTo(rules: seq<Rule>, s: Suggestion): (seq<Rule>, Option<AppliedChange>) {
    match s.decision.action
    case Allow | SuggestAllow =>
      var rule := BuildRule(s, Accept);
      (rules + [rule], Some(AddedRule(rule)))
    case Deny | SuggestDeny =>
      var rule := BuildRule(s, Drop);
      (rules + [rule], Some(AddedRule(rule)))
    case EditRule =>
      var p := if s.target.Some? then Position(rules, s.target.value) else None;
      if p.None? then (rules, None)
      else
        var after := Edited(rules[p.value], s);
        (rules[p.value := after], Some(UpdatedRule(rules[p.value], after)))
    case RemoveRule =>
      var p := if s.target.Some? then Position(rules, s.target.value) else None;
      if p.None? then (rules, None)
      else (Cut(rules, p.value), Some(RemovedRule(rules[p.value])))
  }

  function UndoOn(rules: seq<Rule>, c: AppliedChange): seq<Rule> {
    match c
    case AddedRule(rule) => Without(rules, rule.id)
    case RemovedRule(rule) => rules + [rule]
    case UpdatedRule(before, after) =>
      var p := Position(rules, after.id);
      if p.Some? then rules[p.value := before] else rules + [before]
  }

  // ---------------------------------------------------------------------------
  // What a suggestion does to the traffic
  // ---------------------------------------------------------------------------

  predicate AddsRule(s: Suggestion) {
    s.decision.action != EditRule && s.decision.action != RemoveRule
  }

  /** An addition puts one rule behind the others and logs it. The rule drops what was to be
      denied and accepts what was to be allowed, and it is for just the event's traffic. */
  lemma AddedRuleIsForTheEvent(rules: seq<Rule>, s: Suggestion)
    requires AddsRule(s)
    ensures var (rules', c) := ApplyTo(rules, s);
            && |rules'| == |rules| + 1 && rules'[..|rules|] == rules
            && var r, e := rules'[|rules|], s.event;
               && c == Some(AddedRule(r)) && r.id == s.ruleId
               && (r.action == Drop <==> s.decision.action in {Deny, SuggestDeny})
               && (r.action == Accept <==> s.decision.action in {Allow, SuggestAllow})
               && r.enabled && r.log && r.priority == 100 && r.iface == Some(e.iface)
               && r.description == Some("AI policy suggestion " + s.id)
               && r.source == Some(e.srcIp + "/32") && r.destination == Some(e.destIp + "/32")
               && r.sourcePort == e.srcPort && r.destinationPort == e.destPort
               && (r.protocol == Some(Tcp) <==> EqIgnoreCase("tcp", e.protocol))
               && (r.protocol == Some(Udp) <==> EqIgnoreCase("udp", e.protocol))
               && (r.protocol == Some(Icmp) <==> EqIgnoreCase("icmp", e.protocol))
               && r.protocol.Some?
  {
    assert |Lower("tcp")| == 3 && |Lower("udp")| == 3 && |Lower("icmp")| == 4;
    assert Lower("tcp")[0] == 't' && Lower("udp")[0] == 'u';
  }

  predicate HasTarget(rules: seq<Rule>, s: Suggestion) {
    s.target.Some? && exists r :: r in rules && r.id == s.target.value
  }

  /** Without its target in the list an edit or a removal does nothing. */
  lemma NoTargetNoChange(rules: seq<Rule>, s: Suggestion)
    requires !AddsRule(s) && !HasTarget(rules, s)
    ensures ApplyTo(rules, s) == (rules, None)
  {
    TargetPosition(rules, s);
  }

  /** An edit changes source and destination port of the first rule with the target id, nothing
      else, and logs the rule before and after. */
  lemma EditChangesTwoFields(rules: seq<Rule>, s: Suggestion) returns (p: nat)
    requires s.decision.action == EditRule && HasTarget(rules, s)
    ensures p < |rules| && rules[p].id == s.target.value && forall i :: 0 <= i < p ==> rules[i].id != s.target.value
    ensures var (rules', c) := ApplyTo(rules, s);
            && |rules'| == |rules| && (forall i :: 0 <= i < |rules| && i != p ==> rules'[i] == rules[i])
            && rules'[p].source == Some(s.event.srcIp + "/32") && rules'[p].destinationPort == s.event.destPort
            && rules'[p].(source := rules[p].source, destinationPort := rules[p].destinationPort) == rules[p]
            && c == Some(UpdatedRule(rules[p], rules'[p]))
  {
    TargetPosition(rules, s);
    p := Position(rules, s.target.value).value;
  }

  lemma CutTakesOneOut(rules: seq<Rule>, p: nat)
    requires p < |rules|
    ensures |Cut(rules, p)| == |rules| - 1
    ensures rules == Cut(rules, p)[..p] + [rules[p]] + Cut(rules, p)[p..]
  {
    assert Cut(rules, p)[..p] == rules[..p] && Cut(rules, p)[p..] == rules[p + 1..];
  }

  /** A removal takes out the first rule with the target id, leaves the others in order and logs it. */
  lemma RemovalTakesOneOut(rules: seq<Rule>, s: Suggestion) returns (p: nat)
    requires s.decision.action == RemoveRule && HasTarget(rules, s)
    ensures p < |rules| && rules[p].id == s.target.value && forall i :: 0 <= i < p ==> rules[i].id != s.target.value
    ensures var (rules', c) := ApplyTo(rules, s);
            && |rules'| == |rules| - 1 && rules == rules'[..p] + [rules[p]] + rules'[p..]
            && c == Some(RemovedRule(rules[p]))
  {
    TargetPosition(rules, s);
    p := Position(rules, s.target.value).value;
    CutTakesOneOut(rules, p);
  }

  lemma TargetPosition(rules: seq<Rule>, s: Suggestion)
    ensures HasTarget(rules, s) <==> s.target.Some? && Position(rules, s.target.value).Some?
  {
    if s.target.Some? {
      var p := Position(rules, s.target.value);
      if p.Some? {
        assert rules[p.value] in rules;
      }
    }
  }

  // ---------------------------------------------------------------------------
  // Lists as maps
  // ---------------------------------------------------------------------------

  predicate Distinct(rules: seq<Rule>) {
    forall i, j :: 0 <= i < j < |rules| ==> rules[i].id != rules[j].id
  }

  function ById(rules: seq<Rule>): map<string, Rule> {
    if rules == [] then map[]
    else
      var n := |rules| - 1;
      ById(rules[..n])[rules[n].id := rules[n]]
  }

  lemma {:induction false} InById(rules: seq<Rule>, id: string)
    ensures id in ById(rules) <==> exists i :: 0 <= i < |rules| && rules[i].id == id
  {
    if rules != [] {
      var n := |rules| - 1;
      InById(rules[..n], id);
      if id in ById(rules[..n]) {
        var i :| 0 <= i < n && rules[..n][i].id == id;
        assert rules[i].id == id;
      } else if i :| 0 <= i < |rules| && rules[i].id == id {
        assert i < n ==> rules[..n][i].id == id;
      }
    }
  }

  lemma {:induction false} AtById(rules: seq<Rule>, i: nat)
    requires Distinct(rules) && i < |rules|
    ensures rules[i].id in ById(rules) && ById(rules)[rules[i].id] == rules[i]
  {
    var n := |rules| - 1;
    if i < n {
      AtById(rules[..n], i);
    }
  }

  lemma ByIdAppend(rules: seq<Rule>, r: Rule)
    ensures ById(rules + [r]) == ById(rules)[r.id := r]
  {
    assert (rules + [r])[..|rules|] == rules;
  }

  lemma {:induction false} ByIdReplace(rules: seq<Rule>, p: nat, r: Rule)
    requires Distinct(rules) && p < |rules| && r.id == rules[p].id
    ensures ById(rules[p := r]) == ById(rules)[r.id := r]
  {
    var n := |rules| - 1;
    if p < n {
      ByIdReplace(rules[..n], p, r);
      assert rules[p := r][..n] == rules[..n][p := r];
    } else {
      assert rules[p := r][..n] == rules[..n];
    }
  }

  lemma UpdateThenDrop(m: map<string, Rule>, r: Rule, id: string)
    ensures m[r.id := r] - {id} == if r.id == id then m - {id} else (m - {id})[r.id := r]
  {
  }

  lemma DropAbsent(m: map<string, Rule>, id: string)
    requires id !in m
    ensures m - {id} == m
  {
  }

  lemma CutBeforeLast(rules: seq<Rule>, p: nat)
    requires p < |rules|
    ensures var n := |rules| - 1;
            Cut(rules, p) == if p == n then rules[..n] else Cut(rules[..n], p) + [rules[n]]
  {
  }

  lemma {:induction false} ByIdRemove(rules: seq<Rule>, p: nat)
    requires Distinct(rules) && p < |rules|
    ensures ById(Cut(rules, p)) == ById(rules) - {rules[p].id}
  {
    var n := |rules| - 1;
    var init, last := rules[..n], rules[n];
    CutBeforeLast(rules, p);
    UpdateThenDrop(ById(init), last, rules[p].id);
    if p < n {
      ByIdRemove(init, p);
      ByIdAppend(Cut(init, p), last);
    } else {
      InById(init, last.id);
      DropAbsent(ById(init), last.id);
    }
  }

  lemma WithoutSnoc(rules: seq<Rule>, r: Rule, id: string)
    ensures Without(rules + [r], id) == if r.id == id then Without(rules, id) else Without(rules, id) + [r]
  {
    WithoutSplits(rules, [r], id);
    assert Without([r], id) == if r.id == id then [] else [r];
  }

  lemma {:induction false} ByIdWithout(rules: seq<Rule>, id: string)
    ensures ById(Without(rules, id)) == ById(rules) - {id}
  {
    if rules != [] {
      var n := |rules| - 1;
      var init, last := rules[..n], rules[n];
      ByIdWithout(init, id);
      WithoutSnoc(init, last, id);
      UpdateThenDrop(ById(init), last, id);
      assert ById(rules) == ById(init)[last.id := last];
      assert rules == init + [last];
      if last.id != id {
        ByIdAppend(Without(init, id), last);
      }
    }
  }

  /** What taking a change back means for the map. */
  function ChangeUndone(m: map<string, Rule>, c: AppliedChange): map<string, Rule> {
    match c
    case AddedRule(rule) => m - {rule.id}
    case RemovedRule(rule) => m[rule.id := rule]
    case UpdatedRule(before, after) => m[before.id := before]
  }

  predicate Undoable(m: map<string, Rule>, c: AppliedChange) {
    match c
    case AddedRule(rule) => rule.id in m
    case RemovedRule(rule) => rule.id !in m
    case UpdatedRule(before, after) => before.id == after.id && after.id in m
  }

  lemma {:induction false} WithoutIsFilter(rules: seq<Rule>, id: string)
    requires Distinct(rules)
    ensures Distinct(Without(rules, id))
    ensures forall r :: r in Without(rules, id) <==> r in rules && r.id != id
  {
    if rules != [] {
      assert rules == [rules[0]] + rules[1..];
      WithoutIsFilter(rules[1..], id);
      var rest := Without(rules[1..], id);
      forall j | 0 <= j < |rest| ensures rest[j].id != rules[0].id {
        assert rest[j] in rules[1..];
      }
    }
  }

  /** Undoing on the list is undoing on the map, and keeps ids distinct. */
  lemma UndoIsChangeUndone(rules: seq<Rule>, c: AppliedChange)
    requires Distinct(rules) && Undoable(ById(rules), c)
    ensures Distinct(UndoOn(rules, c))
    ensures ById(UndoOn(rules, c)) == ChangeUndone(ById(rules), c)
  {
    match c
    case AddedRule(rule) =>
      WithoutIsFilter(rules, rule.id);
      ByIdWithout(rules, rule.id);
    case RemovedRule(rule) =>
      InById(rules, rule.id);
      ByIdAppend(rules, rule);
    case UpdatedRule(before, after) =>
      InById(rules, after.id);
      ByIdReplace(rules, Position(rules, after.id).value, before);
  }

  /** The new rule, if the suggestion adds one, has an id not yet in the list. */
  predicate AddsFresh(rules: seq<Rule>, s: Suggestion) {
    AddsRule(s) ==> Position(rules, s.ruleId).None?
  }

  predicate LeadsBack(rules: seq<Rule>, rules': seq<Rule>, c: AppliedChange) {
    && Distinct(rules')
    && Undoable(ById(rules'), c)
    && ChangeUndone(ById(rules'), c) == ById(rules)
  }

  lemma AddLeadsBack(rules: seq<Rule>, r: Rule)
    requires Distinct(rules) && Position(rules, r.id).None?
    ensures LeadsBack(rules, rules + [r], AddedRule(r))
  {
    InById(rules, r.id);
    ByIdAppend(rules, r);
  }

  lemma EditLeadsBack(rules: seq<Rule>, p: nat, r: Rule)
    requires Distinct(rules) && p < |rules| && r.id == rules[p].id
    ensures LeadsBack(rules, rules[p := r], UpdatedRule(rules[p], r))
  {
    AtById(rules, p);
    ByIdReplace(rules, p, r);
  }

  lemma RemovalLeadsBack(rules: seq<Rule>, p: nat)
    requires Distinct(rules) && p < |rules|
    ensures LeadsBack(rules, Cut(rules, p), RemovedRule(rules[p]))
  {
    AtById(rules, p);
    ByIdRemove(rules, p);
    var rest := Cut(rules, p);
    assert forall i :: 0 <= i < |rest| ==> rest[i] == rules[if i < p then i else i + 1];
  }

  /** A logged change leads back to the map it came from. */
  lemma ApplyIsUndoable(rules: seq<Rule>, s: Suggestion)
    requires Distinct(rules) && AddsFresh(rules, s)
    ensures var (rules', c) := ApplyTo(rules, s);
            if c.Some? then LeadsBack(rules, rules', c.value) else rules' == rules
  {
    match s.decision.action
    case Allow | SuggestAllow => AddLeadsBack(rules, BuildRule(s, Accept));
    case Deny | SuggestDeny => AddLeadsBack(rules, BuildRule(s, Drop));
    case EditRule =>
      if s.target.Some? && Position(rules, s.target.value).Some? {
        var p := Position(rules, s.target.value).value;
        EditLeadsBack(rules, p, Edited(rules[p], s));
      }
    case RemoveRule =>
      if s.target.Some? && Position(rules, s.target.value).Some? {
        RemovalLeadsBack(rules, Position(rules, s.target.value).value);
      }
  }

  // ---------------------------------------------------------------------------
  // Exactly when one undo restores the list itself
  // ---------------------------------------------------------------------------

  lemma {:induction false} WithoutShrinks(rules: seq<Rule>, id: string)
    ensures |Without(rules, id)| <= |rules|
    ensures |Without(rules, id)| == |rules| <==> forall i :: 0 <= i < |rules| ==> rules[i].id != id
    ensures |Without(rules, id)| == |rules| ==> Without(rules, id) == rules
  {
    if rules != [] {
      WithoutShrinks(rules[1..], id);
      assert forall i :: 0 < i < |rules| ==> rules[i] == rules[1..][i - 1];
      if rules[0].id != id && |Without(rules[1..], id)| == |rules[1..]| {
        assert Without(rules, id) == [rules[0]] + rules[1..] == rules;
      }
    }
  }

  lemma {:induction false} WithoutSplits(a: seq<Rule>, b: seq<Rule>, id: string)
    ensures Without(a + b, id) == Without(a, id) + Without(b, id)
  {
    if a == [] {
      assert a + b == b;
    } else {
      assert (a + b)[1..] == a[1..] + b;
      WithoutSplits(a[1..], b, id);
    }
  }

  /** An added rule is taken out without a trace exactly when its id was new; otherwise the
      undo also deletes the rule that had the id before. */
  lemma UndoAddRestoresIff(rules: seq<Rule>, s: Suggestion)
    requires AddsRule(s)
    ensures var (rules', c) := ApplyTo(rules, s);
            c.Some? && (UndoOn(rules', c.value) == rules <==> AddsFresh(rules, s))
  {
    var (rules', c) := ApplyTo(rules, s);
    var rule := c.value.rule;
    assert rule.id == s.ruleId;
    WithoutSplits(rules, [rule], rule.id);
    assert Without([rule], rule.id) == [];
    WithoutShrinks(rules, rule.id);
  }

  lemma MoveToEnd(rules: seq<Rule>, p: nat)
    requires Distinct(rules) && p < |rules|
    ensures Cut(rules, p) + [rules[p]] == rules <==> p == |rules| - 1
  {
    var back := Cut(rules, p) + [rules[p]];
    if p < |rules| - 1 {
      assert back[p] == rules[p + 1];
    }
  }

  /** A removed rule comes back at the end, so the order is restored exactly when it was last. */
  lemma UndoRemoveRestoresOrderIff(rules: seq<Rule>, s: Suggestion)
    requires Distinct(rules) && s.decision.action == RemoveRule
    requires s.target.Some? && Position(rules, s.target.value).Some?
    ensures var (rules', c) := ApplyTo(rules, s);
            c.Some? && (UndoOn(rules', c.value) == rules <==> Position(rules, s.target.value).value == |rules| - 1)
  {
    var p := Position(rules, s.target.value).value;
    MoveToEnd(rules, p);
  }

  // ---------------------------------------------------------------------------
  // A log of changes
  // ---------------------------------------------------------------------------

  /** Undoing `log` last-first leads from `m` back to `m0`, every undo finding what it needs. */
  predicate LogRestores(m: map<string, Rule>, log: seq<AppliedChange>, m0: map<string, Rule>)
    decreases |log|
  {
    if log == [] then m == m0
    else
      var last := log[|log| - 1];
      Undoable(m, last) && LogRestores(ChangeUndone(m, last), log[..|log| - 1], m0)
  }

  function UndoAll(rules: seq<Rule>, log: seq<AppliedChange>): seq<Rule>
    decreases |log|
  {
    if log == [] then rules else UndoAll(UndoOn(rules, log[|log| - 1]), log[..|log| - 1])
  }

  lemma {:induction false} UndoAllRestores(rules: seq<Rule>, log: seq<AppliedChange>, m0: map<string, Rule>)
    requires Distinct(rules) && LogRestores(ById(rules), log, m0)
    ensures Distinct(UndoAll(rules, log)) && ById(UndoAll(rules, log)) == m0
    decreases |log|
  {
    if log != [] {
      var last := log[|log| - 1];
      UndoIsChangeUndone(rules, last);
      UndoAllRestores(UndoOn(rules, last), log[..|log| - 1], m0);
    }
  }

  // ---------------------------------------------------------------------------
  // Undoing an entry that is not the last
  // ---------------------------------------------------------------------------

  function IdOf(c: AppliedChange): string {
    match c
    case AddedRule(rule) => rule.id
    case RemovedRule(rule) => rule.id
    case UpdatedRule(before, _) => before.id
  }

  function At(m: map<string, Rule>, id: string): Option<Rule> {
    if id in m then Some(m[id]) else None
  }

  /** What undoing the change leaves under its id. */
  function RestoredBy(c: AppliedChange): Option<Rule> {
    match c
    case AddedRule(_) => None
    case RemovedRule(rule) => Some(rule)
    case UpdatedRule(before, _) => Some(before)
  }

  predicate UndoableAt(v: Option<Rule>, c: AppliedChange) {
    match c
    case AddedRule(_) => v.Some?
    case RemovedRule(_) => v.None?
    case UpdatedRule(before, after) => before.id == after.id && v.Some?
  }

  predicate Touches(log: seq<AppliedChange>, id: string) {
    exists i :: 0 <= i < |log| && IdOf(log[i]) == id
  }

  /** What undoing `log` last-first leaves under an id that held `v`. */
  function Restored(v: Option<Rule>, log: seq<AppliedChange>, id: string): Option<Rule>
    decreases |log|
  {
    if log == [] then v
    else
      var last := log[|log| - 1];
      Restored(if IdOf(last) == id then RestoredBy(last) else v, log[..|log| - 1], id)
  }

  /** Every undo on the way finds under the id what it needs. */
  predicate GoesThrough(v: Option<Rule>, log: seq<AppliedChange>, id: string)
    decreases |log|
  {
    log != [] ==>
      var last := log[|log| - 1];
      if IdOf(last) == id then UndoableAt(v, last) && GoesThrough(RestoredBy(last), log[..|log| - 1], id)
      else GoesThrough(v, log[..|log| - 1], id)
  }

  ghost predicate RestoresAt(m: map<string, Rule>, log: seq<AppliedChange>, m0: map<string, Rule>, id: string) {
    GoesThrough(At(m, id), log, id) && Restored(At(m, id), log, id) == At(m0, id)
  }

  lemma SameAtEveryId(m: map<string, Rule>, m0: map<string, Rule>)
    requires forall id :: At(m, id) == At(m0, id)
    ensures m == m0
  {
    forall id ensures id in m <==> id in m0 {
      assert At(m, id) == At(m0, id);
    }
    forall id | id in m ensures m[id] == m0[id] {
      assert At(m, id) == At(m0, id);
    }
  }

  /** A log restores a map exactly when it does so for every id on its own. */
  lemma {:induction false} LogRestoresPerId(m: map<string, Rule>, log: seq<AppliedChange>, m0: map<string, Rule>)
    ensures LogRestores(m, log, m0) <==> forall id :: RestoresAt(m, log, m0, id)
    decreases |log|
  {
    if log == [] {
      if forall id :: RestoresAt(m, log, m0, id) {
        forall id ensures At(m, id) == At(m0, id) {
          assert RestoresAt(m, log, m0, id);
        }
        SameAtEveryId(m, m0);
      }
    } else {
      var last, init := log[|log| - 1], log[..|log| - 1];
      var m' := ChangeUndone(m, last);
      LogRestoresPerId(m', init, m0);
      if Undoable(m, last) {
        forall id ensures RestoresAt(m, log, m0, id) <==> RestoresAt(m', init, m0, id) {
          assert At(m', id) == if id == IdOf(last) then RestoredBy(last) else At(m, id);
        }
      } else {
        assert !RestoresAt(m, log, m0, IdOf(last));
      }
    }
  }

  lemma {:induction false} RestoredSplits(v: Option<Rule>, a: seq<AppliedChange>, b: seq<AppliedChange>, id: string)
    ensures Restored(v, a + b, id) == Restored(Restored(v, b, id), a, id)
    ensures GoesThrough(v, a + b, id) <==> GoesThrough(v, b, id) && GoesThrough(Restored(v, b, id), a, id)
    decreases |b|
  {
    if b == [] {
      assert a + b == a;
    } else {
      var last, init := b[|b| - 1], b[..|b| - 1];
      assert (a + b)[|a + b| - 1] == last && (a + b)[..|a + b| - 1] == a + init;
      RestoredSplits(if IdOf(last) == id then RestoredBy(last) else v, a, init, id);
    }
  }

  lemma TouchesSnoc(log: seq<AppliedChange>, id: string)
    requires log != []
    ensures Touches(log, id) <==> IdOf(log[|log| - 1]) == id || Touches(log[..|log| - 1], id)
  {
    if Touches(log[..|log| - 1], id) {
      var i :| 0 <= i < |log| - 1 && IdOf(log[..|log| - 1][i]) == id;
      assert IdOf(log[i]) == id;
    }
    if Touches(log, id) {
      var i :| 0 <= i < |log| && IdOf(log[i]) == id;
      assert i < |log| - 1 ==> IdOf(log[..|log| - 1][i]) == id;
    }
  }

  lemma {:induction false} Untouched(v: Option<Rule>, log: seq<AppliedChange>, id: string)
    requires !Touches(log, id)
    ensures Restored(v, log, id) == v && GoesThrough(v, log, id)
  {
    if log != [] {
      TouchesSnoc(log, id);
      Untouched(v, log[..|log| - 1], id);
    }
  }

  /** Of the value under a touched id only its presence matters. */
  lemma {:induction false} PresenceDecides(v: Option<Rule>, v': Option<Rule>, log: seq<AppliedChange>, id: string)
    requires Touches(log, id) && GoesThrough(v, log, id)
    ensures Restored(v', log, id) == Restored(v, log, id)
    ensures GoesThrough(v', log, id) <==> v'.Some? == v.Some?
  {
    TouchesSnoc(log, id);
    var last := log[|log| - 1];
    if IdOf(last) != id {
      PresenceDecides(v, v', log[..|log| - 1], id);
    }
  }

  /** Two changes of one kind to one rule, as one suggestion makes them. */
  predicate Alike(c: AppliedChange, d: AppliedChange) {
    IdOf(c) == IdOf(d) && (c.AddedRule? <==> d.AddedRule?) && (c.RemovedRule? <==> d.RemovedRule?)
  }

  /** Entry `p` can be undone while entry `q`, the same one or a later one like it, leaves the log:
      no entry behind `q` is about the same rule; or entry `p` is an edit, the rule is there now,
      and either an entry about it stays before `q` or the next one leads back to what the edit
      started from. */
  predicate UndoableOutOfTurn(m: map<string, Rule>, log: seq<AppliedChange>, p: nat, q: nat)
    requires p <= q < |log|
  {
    var c, behind := log[p], log[q + 1..];
    var id := IdOf(c);
    || !Touches(behind, id)
    || (c.UpdatedRule? && id in m && (Touches(log[..q], id) || Restored(None, behind, id) == Some(c.before)))
  }

  function Remaining(log: seq<AppliedChange>, q: nat): seq<AppliedChange>
    requires q < |log|
  {
    log[..q] + log[q + 1..]
  }

  /** For a single id: `a`, then `d`, then `b` restores it; is `a` and then `b` enough once a
      change like `d` has been undone? */
  lemma OutOfTurnAtItsId(v: Option<Rule>, v0: Option<Rule>, a: seq<AppliedChange>, d: AppliedChange,
                         b: seq<AppliedChange>, c: AppliedChange)
    requires var id := IdOf(d); GoesThrough(v, a + ([d] + b), id) && Restored(v, a + ([d] + b), id) == v0
    requires Alike(c, d) && (c == d || c in a)
    ensures var id := IdOf(d);
            (GoesThrough(RestoredBy(c), a + b, id) && Restored(RestoredBy(c), a + b, id) == v0) <==>
            (|| !Touches(b, id)
             || (c.UpdatedRule? && v.Some? && (Touches(a, id) || Restored(None, b, id) == Some(c.before))))
  {
    var id := IdOf(d);
    RestoredSplits(v, a, [d] + b, id);
    RestoredSplits(v, [d], b, id);
    RestoredSplits(RestoredBy(c), a, b, id);
    var w := Restored(v, b, id);
    assert [d][..0] == [];
    assert GoesThrough(w, [d], id) <==> UndoableAt(w, d);
    assert Restored(w, [d], id) == RestoredBy(d);
    if !Touches(b, id) {
      Untouched(v, b, id);
      Untouched(RestoredBy(c), b, id);
      FromEitherValue(RestoredBy(d), RestoredBy(c), a, id);
    } else {
      PresenceDecides(v, RestoredBy(c), b, id);
      RestoredIgnoresStart(v, None, b, id);
      FromEitherValue(RestoredBy(d), w, a, id);
    }
    if c in a {
      var i :| 0 <= i < |a| && a[i] == c;
      assert Touches(a, id);
    }
  }

  /** Where a log leads from two values. */
  lemma FromEitherValue(v: Option<Rule>, v': Option<Rule>, log: seq<AppliedChange>, id: string)
    requires GoesThrough(v, log, id)
    ensures if Touches(log, id)
            then Restored(v', log, id) == Restored(v, log, id) && (GoesThrough(v', log, id) <==> v'.Some? == v.Some?)
            else Restored(v, log, id) == v && Restored(v', log, id) == v' && GoesThrough(v', log, id)
  {
    if Touches(log, id) {
      PresenceDecides(v, v', log, id);
    } else {
      Untouched(v, log, id);
      Untouched(v', log, id);
    }
  }

  lemma {:induction false} RestoredIgnoresStart(v: Option<Rule>, v': Option<Rule>, log: seq<AppliedChange>, id: string)
    requires Touches(log, id)
    ensures Restored(v, log, id) == Restored(v', log, id)
  {
    TouchesSnoc(log, id);
    if IdOf(log[|log| - 1]) != id {
      RestoredIgnoresStart(v, v', log[..|log| - 1], id);
    }
  }

  /** Other ids do not notice that an entry is gone. */
  lemma OutOfTurnElsewhere(v: Option<Rule>, a: seq<AppliedChange>, d: AppliedChange, b: seq<AppliedChange>, id: string)
    requires id != IdOf(d)
    ensures GoesThrough(v, a + b, id) <==> GoesThrough(v, a + ([d] + b), id)
    ensures Restored(v, a + b, id) == Restored(v, a + ([d] + b), id)
  {
    RestoredSplits(v, a, [d] + b, id);
    RestoredSplits(v, [d], b, id);
    RestoredSplits(v, a, b, id);
    assert [d][..0] == [];
  }

  lemma UndoableAtItsId(m: map<string, Rule>, c: AppliedChange)
    ensures UndoableAt(At(m, IdOf(c)), c) <==> Undoable(m, c)
    ensures forall id :: At(ChangeUndone(m, c), id) == if id == IdOf(c) then RestoredBy(c) else At(m, id)
  {
  }

  lemma RestoresElsewhere(m: map<string, Rule>, a: seq<AppliedChange>, d: AppliedChange, b: seq<AppliedChange>,
                          c: AppliedChange, m0: map<string, Rule>)
    requires LogRestores(m, a + ([d] + b), m0) && IdOf(c) == IdOf(d)
    ensures LogRestores(ChangeUndone(m, c), a + b, m0) <==> RestoresAt(ChangeUndone(m, c), a + b, m0, IdOf(d))
  {
    var m' := ChangeUndone(m, c);
    LogRestoresPerId(m, a + ([d] + b), m0);
    LogRestoresPerId(m', a + b, m0);
    UndoableAtItsId(m, c);
    forall id | id != IdOf(d) ensures RestoresAt(m', a + b, m0, id) {
      assert RestoresAt(m, a + ([d] + b), m0, id);
      OutOfTurnElsewhere(At(m, id), a, d, b, id);
    }
  }

  lemma OutOfTurnSplit(m: map<string, Rule>, a: seq<AppliedChange>, d: AppliedChange, b: seq<AppliedChange>,
                       c: AppliedChange, m0: map<string, Rule>)
    requires LogRestores(m, a + ([d] + b), m0) && Alike(c, d) && (c == d || c in a)
    ensures var id := IdOf(d);
            LogRestores(ChangeUndone(m, c), a + b, m0) <==>
            (|| !Touches(b, id)
             || (c.UpdatedRule? && id in m && (Touches(a, id) || Restored(None, b, id) == Some(c.before))))
  {
    var id := IdOf(d);
    RestoresElsewhere(m, a, d, b, c, m0);
    UndoableAtItsId(m, c);
    assert RestoresAt(m, a + ([d] + b), m0, id) by {
      LogRestoresPerId(m, a + ([d] + b), m0);
    }
    OutOfTurnAtItsId(At(m, id), At(m0, id), a, d, b, c);
  }

  /** Undoing entry `p` first, and taking entry `q` off the log, leaves a log that still restores
      the map exactly under that condition. */
  lemma OutOfTurnUndoRestoresIff(m: map<string, Rule>, log: seq<AppliedChange>, p: nat, q: nat, m0: map<string, Rule>)
    requires p <= q < |log| && LogRestores(m, log, m0) && Alike(log[p], log[q])
    ensures LogRestores(ChangeUndone(m, log[p]), Remaining(log, q), m0) <==> UndoableOutOfTurn(m, log, p, q)
  {
    var a, d, b := log[..q], log[q], log[q + 1..];
    assert log == a + ([d] + b);
    assert p < q ==> a[p] == log[p];
    OutOfTurnSplit(m, a, d, b, log[p], m0);
  }

  /** Whatever stands behind it, an undo under that condition finds what it needs. */
  lemma OutOfTurnUndoFindsItsRule(m: map<string, Rule>, log: seq<AppliedChange>, p: nat, q: nat, m0: map<string, Rule>)
    requires p <= q < |log| && LogRestores(m, log, m0) && Alike(log[p], log[q])
    requires log[p].UpdatedRule? ==> log[p].before.id == log[p].after.id
    requires UndoableOutOfTurn(m, log, p, q)
    ensures Undoable(m, log[p])
  {
    var a, d, b := log[..q], log[q], log[q + 1..];
    var id := IdOf(d);
    assert log == a + ([d] + b);
    UndoableAtItsId(m, log[p]);
    UndoableAtItsId(m, d);
    if !Touches(b, id) {
      LogRestoresPerId(m, log, m0);
      assert RestoresAt(m, log, m0, id);
      RestoredSplits(At(m, id), a, [d] + b, id);
      RestoredSplits(At(m, id), [d], b, id);
      Untouched(At(m, id), b, id);
      assert [d][..0] == [];
      assert GoesThrough(At(m, id), [d], id) <==> UndoableAt(At(m, id), d);
    }
  }

  // ---------------------------------------------------------------------------
  // The list as the enforcer edits it
  // ---------------------------------------------------------------------------

  class RuleList {
    var rules: seq<Rule>

    constructor (rules: seq<Rule>)
      ensures this.rules == rules
    {
      this.rules := rules;
    }

    method ApplySuggestion(s: Suggestion) returns (change: Option<AppliedChange>)
      modifies this
      ensures (rules, change) == ApplyTo(old(rules), s)
    {
      match s.decision.action
      case Allow | SuggestAllow =>
        var rule := BuildRule(s, Accept);
        rules := rules + [rule];
        change := Some(AddedRule(rule));
      case Deny | SuggestDeny =>
        var rule := BuildRule(s, Drop);
        rules := rules + [rule];
        change := Some(AddedRule(rule));
      case EditRule =>
        if s.target.None? {
          return None;
        }
        var idx := FindRule(s.target.value);
        if idx.None? {
          return None;
        }
        var before := rules[idx.value];
        rules := rules[idx.value := before.(source := Some(s.event.srcIp + "/32"))];
        rules := rules[idx.value := rules[idx.value].(destinationPort := s.event.destPort)];
        assert rules == old(rules)[idx.value := rules[idx.value]];
        change := Some(UpdatedRule(before, rules[idx.value]));
      case RemoveRule =>
        if s.target.None? {
          return None;
        }
        var idx := FindRule(s.target.value);
        if idx.None? {
          return None;
        }
        var removed := rules[idx.value];
        rules := rules[..idx.value] + rules[idx.value + 1..];
        change := Some(RemovedRule(removed));
    }

    method Undo(c: AppliedChange)
      modifies this
      ensures rules == UndoOn(old(rules), c)
    {
      match c
      case AddedRule(rule) => Retain(rule.id);
      case RemovedRule(rule) => rules := rules + [rule];
      case UpdatedRule(before, after) =>
        var idx := FindRule(after.id);
        if idx.Some? {
          rules := rules[idx.value := before];
        } else {
          rules := rules + [before];
        }
    }

    method FindRule(id: string) returns (p: Option<nat>)
      ensures p == Position(rules, id)
    {
      var i := 0;
      while i < |rules|
        invariant i <= |rules|
        invariant forall j :: 0 <= j < i ==> rules[j].id != id
      {
        if rules[i].id == id {
          return Some(i);
        }
        i := i + 1;
      }
      return None;
    }

    /** Drops every rule with the given id and keeps the order of the others. */
    method Retain(id: string)
      modifies this
      ensures rules == Without(old(rules), id)
    {
      var kept := [];
      for i := 0 to |rules|
        invariant rules == old(rules)
        invariant kept == Without(rules[..i], id)
      {
        assert rules[..i + 1] == rules[..i] + [rules[i]];
        WithoutSnoc(rules[..i], rules[i], id);
        if rules[i].id != id {
          kept := kept + [rules[i]];
        }
      }
      assert rules[..|rules|] == rules;
      rules := kept;
    }
  }
}
