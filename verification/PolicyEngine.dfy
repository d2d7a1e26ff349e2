/**
 The AI policy engine: suggestions, the log of applied actions, and the three copies of the
 rule list (persisted, cached, in the kernel) that every edit has to keep equal.

 The class performs the calls; `AfterApply`, `AfterUndo` and `AfterEvent` say what each
 leaves behind, and the lemmas are about every run of them.
 */
module PolicyEngine {
  import opened Wrappers
  import opened Text
  import opened AutoEnforcer

  const HOUR: int := 3_600_000_000_000 // nanoseconds

  datatype LoggedAction = LoggedAction(iface: Option<string>, suggestionId: string,
                                       decision: Decision, change: AppliedChange)

  datatype RuleStores = RuleStores(persisted: seq<Rule>, cache: seq<Rule>, kernel: seq<Rule>)

  datatype EngineState = EngineState(stores: RuleStores, actions: seq<LoggedAction>, suggestions: seq<Suggestion>)

  /** Which of a call's steps succeed: loading the config, saving it, loading nftables,
      saving the old rules back, appending to the log file, writing the suggestion file. */
  datatype Io = Io(load: bool, save: bool, apply: bool, restore: bool, append: bool, persist: bool)

  const ALL_WELL := Io(true, true, true, true, true, true)

  // ---------------------------------------------------------------------------
  // One edit of the rules
  // ---------------------------------------------------------------------------

  predicate InSync(st: RuleStores) {
    st.persisted == st.cache == st.kernel
  }

  /** Saves `rules`, updates the cache, loads the kernel, and goes back if that fails. */
  function Install(st: RuleStores, rules: seq<Rule>, io: Io): (RuleStores, bool) {
    if !io.load || !io.save then (st, false)
    else if !io.apply then
      (RuleStores(if io.restore then st.persisted else rules, st.persisted, st.kernel), false)
    else (RuleStores(rules, rules, rules), true)
  }

  /** The three copies stay equal, on success and on failure alike, exactly unless loading the
      kernel and then the restoring save both fail (or there was nothing to change). */
  lemma InstallKeepsSyncIff(st: RuleStores, rules: seq<Rule>, io: Io)
    requires InSync(st)
    ensures InSync(Install(st, rules, io).0) <==>
            !(io.load && io.save && !io.apply && !io.restore) || rules == st.persisted
    ensures Install(st, rules, io).1 ==> Install(st, rules, io).0.kernel == rules
    ensures !Install(st, rules, io).1 && io.restore ==> Install(st, rules, io).0 == st
    ensures !Install(st, rules, io).1 ==>
              Install(st, rules, io).0.cache == st.cache && Install(st, rules, io).0.kernel == st.kernel
    ensures Install(st, rules, io).1 <==> io.load && io.save && io.apply
  {
  }

  // ---------------------------------------------------------------------------
  // Interfaces and the log
  // ---------------------------------------------------------------------------

  function NormalizeIface(iface: Option<string>): Option<string> {
    if iface.Some? && Trim(iface.value) != "" then Some(Trim(iface.value)) else None
  }

  predicate RuleMatchesIface(r: Rule, iface: string) {
    r.iface.Some? && EqIgnoreCase(r.iface.value, iface)
  }

  predicate ChangeMatchesIface(c: AppliedChange, iface: string) {
    match c
    case AddedRule(r) => RuleMatchesIface(r, iface)
    case RemovedRule(r) => RuleMatchesIface(r, iface)
    case UpdatedRule(before, after) => RuleMatchesIface(before, iface) || RuleMatchesIface(after, iface)
  }

  predicate ActionMatches(a: LoggedAction, iface: Option<string>) {
    iface.Some? ==>
      || (a.iface.Some? && EqIgnoreCase(a.iface.value, iface.value))
      || ChangeMatchesIface(a.change, iface.value)
  }

  function LastMatch(actions: seq<LoggedAction>, iface: Option<string>): (p: Option<nat>)
    ensures p.Some? ==> p.value < |actions| && ActionMatches(actions[p.value], iface)
    ensures p.Some? ==> forall i :: p.value < i < |actions| ==> !ActionMatches(actions[i], iface)
    ensures p.None? ==> forall i :: 0 <= i < |actions| ==> !ActionMatches(actions[i], iface)
  {
    var n := |actions|;
    if n == 0 then None
    else if ActionMatches(actions[n - 1], iface) then Some(n - 1)
    else LastMatch(actions[..n - 1], iface)
  }

  function LastWithId(actions: seq<LoggedAction>, id: string): (p: Option<nat>)
    ensures p.Some? ==> p.value < |actions| && actions[p.value].suggestionId == id
    ensures p.Some? ==> forall i :: p.value < i < |actions| ==> actions[i].suggestionId != id
    ensures p.None? ==> forall i :: 0 <= i < |actions| ==> actions[i].suggestionId != id
  {
    var n := |actions|;
    if n == 0 then None
    else if actions[n - 1].suggestionId == id then Some(n - 1)
    else LastWithId(actions[..n - 1], id)
  }

  function RemoveAt<T>(s: seq<T>, p: Option<nat>): seq<T>
    requires p.Some? ==> p.value < |s|
  {
    if p.Some? then s[..p.value] + s[p.value + 1..] else s
  }

  function FindSuggestion(ss: seq<Suggestion>, id: string): (p: Option<nat>)
    ensures p.Some? ==> p.value < |ss| && ss[p.value].id == id
    ensures p.Some? ==> forall i :: 0 <= i < p.value ==> ss[i].id != id
    ensures p.None? ==> forall i :: 0 <= i < |ss| ==> ss[i].id != id
  {
    if ss == [] then None
    else if ss[0].id == id then Some(0)
    else
      var rest := FindSuggestion(ss[1..], id);
      assert forall i :: 0 < i < |ss| ==> ss[i] == ss[1..][i - 1];
      if rest.Some? then Some(rest.value + 1) else None
  }

  function MaterializeAction(a: DecisionAction): DecisionAction {
    match a
    case SuggestAllow => Allow
    case SuggestDeny => Deny
    case other => other
  }

  function RejectedPlaceholder(id: string, now: int): Suggestion {
    Suggestion(id, id, Event("0.0.0.0", "0.0.0.0", true, "any", None, None, "n/a"),
               Decision(EditRule, 0.0, false, Some(now)), None, false, true)
  }

  // ---------------------------------------------------------------------------
  // The calls
  // ---------------------------------------------------------------------------

  function Rejected(ss: seq<Suggestion>, id: string, now: int): seq<Suggestion> {
    var p := FindSuggestion(ss, id);
    if p.Some? then ss[p.value := ss[p.value].(rejected := true)] else ss + [RejectedPlaceholder(id, now)]
  }

  /** The suggestion as it is handed to the enforcer. */
  function Decided(s: Suggestion, auto: bool, now: int): Suggestion {
    s.(decision := s.decision.(autoApplied := auto, timestamp := Some(now),
                               action := MaterializeAction(s.decision.action)))
  }

  function LogEntry(s: Suggestion, change: AppliedChange): LoggedAction {
    LoggedAction(NormalizeIface(Some(s.event.iface)), s.id, s.decision, change)
  }

  function AfterApply(st: EngineState, id: string, approve: bool, auto: bool, now: int, io: Io): EngineState {
    var p := FindSuggestion(st.suggestions, id);
    if !approve then st.(suggestions := Rejected(st.suggestions, id, now))
    else if p.None? then st
    else
      var s := Decided(st.suggestions[p.value], auto, now);
      var (rules, change) := ApplyTo(st.stores.persisted, s);
      if !io.load || change.None? then st
      else
        var (stores, ok) := Install(st.stores, rules, io);
        if !ok then st.(stores := stores)
        else
          var st' := st.(stores := stores, actions := st.actions + [LogEntry(s, change.value)]);
          if !io.append then st'
          else
            var marked := st.suggestions[p.value].(applied := true, decision := s.decision);
            st'.(suggestions := st.suggestions[p.value := marked])
  }

  function AfterUndo(st: EngineState, iface: Option<string>, io: Io): EngineState {
    var p := LastMatch(st.actions, NormalizeIface(iface));
    if p.None? then st
    else
      var last := st.actions[p.value];
      var (stores, ok) := Install(st.stores, UndoOn(st.stores.persisted, last.change), io);
      if !ok then st.(stores := stores)
      else EngineState(stores, RemoveAt(st.actions, LastWithId(st.actions, last.suggestionId)), st.suggestions)
  }

  datatype Mode = MonitorOnly | SuggestEdits | FullAiControl

  datatype Settings = Settings(threshold: nat, requireIntentMatch: bool, requireProtocol: bool,
                               requireDestPort: bool, requireIpFamily: bool, maxPerHour: nat,
                               allowEdit: bool, allowRemove: bool, protectManagement: bool)

  datatype Config = Config(defaultMode: Mode, modes: map<string, Mode>,
                           defaultSettings: Settings, settings: map<string, Settings>,
                           managementIface: Option<string>, managementPorts: set<nat>)

  function ModeFor(cfg: Config, iface: string): Mode {
    var key := NormalizeIface(Some(iface));
    if key.Some? && key.value in cfg.modes then cfg.modes[key.value] else cfg.defaultMode
  }

  function SettingsFor(cfg: Config, iface: string): Settings {
    var key := NormalizeIface(Some(iface));
    if key.Some? && key.value in cfg.settings then cfg.settings[key.value] else cfg.defaultSettings
  }

  /** How many auto-applied actions of the last hour match the interface. */
  function RecentAutoApplyCount(actions: seq<LoggedAction>, iface: Option<string>, now: int): nat {
    if actions == [] then 0
    else
      var a := actions[|actions| - 1];
      RecentAutoApplyCount(actions[..|actions| - 1], iface, now)
      + (if ActionMatches(a, iface) && a.decision.autoApplied
            && a.decision.timestamp.Some? && a.decision.timestamp.value >= now - HOUR
         then 1 else 0)
  }

  predicate CanAutoApply(actions: seq<LoggedAction>, cfg: Config, s: Suggestion, matchedIntent: bool, now: int) {
    var limits := SettingsFor(cfg, s.event.iface);
    var proto := Trim(s.event.protocol);
    && !(s.decision.confidence < (if limits.threshold < 100 then limits.threshold else 100) as real / 100.0)
    && (limits.requireIntentMatch ==> matchedIntent)
    && (limits.requireProtocol ==> proto != "" && !EqIgnoreCase(proto, "any"))
    && (limits.requireDestPort && Lower(s.event.protocol) in {"tcp", "udp"} ==> s.event.destPort.Some?)
    && (limits.requireIpFamily ==> s.event.bothIpv4)
    && (s.decision.action == EditRule ==> limits.allowEdit)
    && (s.decision.action == RemoveRule ==> limits.allowRemove)
    && (limits.protectManagement ==>
          && cfg.managementIface != Some(s.event.iface)
          && (s.event.destPort.Some? ==> s.event.destPort.value !in cfg.managementPorts))
    && (limits.maxPerHour > 0 ==>
          RecentAutoApplyCount(actions, NormalizeIface(Some(s.event.iface)), now) < limits.maxPerHour)
  }

  /** A classified event: the suggestion built for it if it deserves one, whether an intent
      matched, when the gate reads the clock and when the applied decision is stamped. */
  datatype Observed = Observed(suggestion: Option<Suggestion>, matchedIntent: bool, checkedAt: int, stampedAt: int)

  /** The event's suggestion is handed on to be applied. */
  predicate LetThrough(st: EngineState, cfg: Config, ev: Observed, io: Io) {
    && ev.suggestion.Some? && io.persist
    && ModeFor(cfg, ev.suggestion.value.event.iface) == FullAiControl
    && CanAutoApply(st.actions, cfg, ev.suggestion.value, ev.matchedIntent, ev.checkedAt)
  }

  function WithSuggestion(st: EngineState, s: Suggestion): EngineState {
    st.(suggestions := st.suggestions + [s])
  }

  function AfterEvent(st: EngineState, cfg: Config, ev: Observed, io: Io): EngineState {
    if ev.suggestion.None? then st
    else
      var s := ev.suggestion.value;
      var st' := WithSuggestion(st, s);
      if LetThrough(st, cfg, ev, io) then AfterApply(st', s.id, true, true, ev.stampedAt, io) else st'
  }

  datatype Call =
    | ApplyCall(id: string, approve: bool, now: int, io: Io)
    | UndoCall(iface: Option<string>, io: Io)
    | EventCall(ev: Observed, io: Io)

  function After(st: EngineState, cfg: Config, c: Call): EngineState {
    match c
    case ApplyCall(id, approve, now, io) => AfterApply(st, id, approve, false, now, io)
    case UndoCall(iface, io) => AfterUndo(st, iface, io)
    case EventCall(ev, io) => AfterEvent(st, cfg, ev, io)
  }

  function Exec(st: EngineState, cfg: Config, cs: seq<Call>): EngineState
    decreases |cs|
  {
    if cs == [] then st else Exec(After(st, cfg, cs[0]), cfg, cs[1..])
  }

  // ---------------------------------------------------------------------------
  // What an approval, a rejection and an undo do
  // ---------------------------------------------------------------------------

  /** Every interface named by an entry: the one it is logged under and those of its rules. */
  function InterfaceNames(a: LoggedAction): set<string> {
    Name(a.iface) + match a.change
                    case AddedRule(r) => Name(r.iface)
                    case RemovedRule(r) => Name(r.iface)
                    case UpdatedRule(before, after) => Name(before.iface) + Name(after.iface)
  }

  function Name(iface: Option<string>): set<string> {
    if iface.Some? then {iface.value} else {}
  }

  /** An entry is on an interface exactly if it names it, in whatever case. */
  lemma ActionMatchesIff(a: LoggedAction, iface: Option<string>)
    ensures ActionMatches(a, iface) <==>
            iface.None? || exists n :: n in InterfaceNames(a) && EqIgnoreCase(n, iface.value)
  {
    match a.change
    case AddedRule(r) => assert r.iface.Some? ==> r.iface.value in InterfaceNames(a);
    case RemovedRule(r) => assert r.iface.Some? ==> r.iface.value in InterfaceNames(a);
    case UpdatedRule(before, after) =>
      assert before.iface.Some? ==> before.iface.value in InterfaceNames(a);
      assert after.iface.Some? ==> after.iface.value in InterfaceNames(a);
  }

  /** Approving a stored suggestion that adds a rule: the rule goes behind the others, everywhere;
      the entry says for which suggestion, interface and action, when, and whether by hand; and
      the suggestion, if the log could be written, is marked applied with that decision. */
  lemma ApprovedAdditionIsApplied(st: EngineState, p: nat, auto: bool, now: int, io: Io)
    requires p < |st.suggestions| && AddsRule(st.suggestions[p]) && Installs(io)
    requires forall i :: 0 <= i < p ==> st.suggestions[i].id != st.suggestions[p].id
    ensures var s := st.suggestions[p];
            var st' := AfterApply(st, s.id, true, auto, now, io);
            && |st'.actions| == |st.actions| + 1 && st'.actions[..|st.actions|] == st.actions
            && var a, rules := st'.actions[|st.actions|], st'.stores.persisted;
               && |rules| == |st.stores.persisted| + 1 && rules[..|rules| - 1] == st.stores.persisted
               && st'.stores.cache == rules && st'.stores.kernel == rules
               && a.change == AddedRule(rules[|rules| - 1]) && a.suggestionId == s.id
               && a.iface == (if Trim(s.event.iface) == "" then None else Some(Trim(s.event.iface)))
               && a.decision.action == (if s.decision.action in {Deny, SuggestDeny} then Deny else Allow)
               && a.decision.autoApplied == auto && a.decision.timestamp == Some(now)
               && a.decision.confidence == s.decision.confidence
               && st'.suggestions == if io.append then st.suggestions[p := s.(applied := true, decision := a.decision)]
                                     else st.suggestions
    ensures var s := st.suggestions[p];
            var r := AfterApply(st, s.id, true, auto, now, io).stores.persisted[|st.stores.persisted|];
            && r.id == s.ruleId && r.action == (if s.decision.action in {Deny, SuggestDeny} then Drop else Accept)
            && r.enabled && r.iface == Some(s.event.iface) && r.destinationPort == s.event.destPort
            && r.source == Some(s.event.srcIp + "/32") && r.destination == Some(s.event.destIp + "/32")
  {
    FirstIsFound(st.suggestions, p);
    AddedRuleIsForTheEvent(st.stores.persisted, Decided(st.suggestions[p], auto, now));
  }

  /** A rejection marks the first suggestion with the id, or one made up for it that can never be
      applied, and touches neither rules nor log. */
  lemma RejectionChangesNoRules(st: EngineState, id: string, auto: bool, now: int, io: Io)
    ensures var st' := AfterApply(st, id, false, auto, now, io);
            && st'.stores == st.stores && st'.actions == st.actions
            && var found := FindSuggestion(st.suggestions, id);
               if found.Some? then
                 var marked := st.suggestions[found.value].(rejected := true);
                 st'.suggestions == st.suggestions[found.value := marked]
               else
                 && |st'.suggestions| == |st.suggestions| + 1 && st'.suggestions[..|st.suggestions|] == st.suggestions
                 && var s := st'.suggestions[|st.suggestions|];
                    s.id == id && s.rejected && !s.applied && !AddsRule(s) && s.target == None
  {
  }

  predicate OnInterface(a: LoggedAction, name: string) {
    exists n :: n in InterfaceNames(a) && EqIgnoreCase(n, name)
  }

  /** An undo for an interface takes back the last entry that names it, and that entry leaves the
      log if it is the last of its suggestion. */
  lemma UndoTakesTheLastOnTheInterface(st: EngineState, name: string, p: nat, io: Io)
    requires Trim(name) != "" && p < |st.actions| && Installs(io)
    requires OnInterface(st.actions[p], Trim(name))
    requires forall i :: p < i < |st.actions| ==>
               !OnInterface(st.actions[i], Trim(name)) && st.actions[i].suggestionId != st.actions[p].suggestionId
    ensures var st' := AfterUndo(st, Some(name), io);
            && st'.stores.persisted == UndoOn(st.stores.persisted, st.actions[p].change)
            && st'.stores.cache == st'.stores.persisted && st'.stores.kernel == st'.stores.persisted
            && st'.actions == st.actions[..p] + st.actions[p + 1..] && st'.suggestions == st.suggestions
  {
    forall i | p <= i < |st.actions|
      ensures ActionMatches(st.actions[i], Some(Trim(name))) <==> OnInterface(st.actions[i], Trim(name))
    {
      ActionMatchesIff(st.actions[i], Some(Trim(name)));
    }
    assert LastMatch(st.actions, Some(Trim(name))) == Some(p);
    assert LastWithId(st.actions, st.actions[p].suggestionId) == Some(p);
  }

  /** With no entry on the interface an undo does nothing. */
  lemma NothingToUndoOnTheInterface(st: EngineState, name: string, io: Io)
    requires Trim(name) != "" && forall a :: a in st.actions ==> !OnInterface(a, Trim(name))
    ensures AfterUndo(st, Some(name), io) == st
  {
    forall i | 0 <= i < |st.actions| ensures !ActionMatches(st.actions[i], Some(Trim(name))) {
      assert st.actions[i] in st.actions;
      assert !OnInterface(st.actions[i], Trim(name));
      ActionMatchesIff(st.actions[i], Some(Trim(name)));
    }
  }

  // ---------------------------------------------------------------------------
  // Every entry of the log goes back to its suggestion
  // ---------------------------------------------------------------------------

  /** The kind of change and the rule it is about follow from the suggestion alone. */
  predicate Explains(s: Suggestion, c: AppliedChange) {
    match c
    case AddedRule(rule) => AddsRule(s) && rule.id == s.ruleId
    case RemovedRule(rule) => s.decision.action == RemoveRule && s.target == Some(rule.id)
    case UpdatedRule(before, after) =>
      s.decision.action == EditRule && before.id == after.id && s.target == Some(before.id)
  }

  predicate ExplainedBy(ss: seq<Suggestion>, a: LoggedAction) {
    var p := FindSuggestion(ss, a.suggestionId);
    p.Some? && Explains(ss[p.value], a.change)
  }

  predicate Explained(st: EngineState) {
    forall a :: a in st.actions ==> ExplainedBy(st.suggestions, a)
  }

  lemma FirstIsFound(ss: seq<Suggestion>, p: nat)
    requires p < |ss| && forall i :: 0 <= i < p ==> ss[i].id != ss[p].id
    ensures FindSuggestion(ss, ss[p].id) == Some(p)
  {
  }

  lemma NewSuggestionKeepsFound(ss: seq<Suggestion>, s: Suggestion, id: string)
    requires FindSuggestion(ss, id).Some?
    ensures FindSuggestion(ss + [s], id) == FindSuggestion(ss, id)
  {
    FirstIsFound(ss + [s], FindSuggestion(ss, id).value);
  }

  lemma MarkingKeepsFound(ss: seq<Suggestion>, p: nat, s: Suggestion, id: string)
    requires p < |ss| && s.id == ss[p].id
    ensures FindSuggestion(ss[p := s], id) == FindSuggestion(ss, id)
  {
    var ss' := ss[p := s];
    assert forall i :: 0 <= i < |ss| ==> ss'[i].id == ss[i].id;
    var found := FindSuggestion(ss, id);
    if found.Some? {
      FirstIsFound(ss', found.value);
    }
  }

  lemma AppendKeepsExplained(ss: seq<Suggestion>, s: Suggestion, actions: seq<LoggedAction>)
    requires forall a :: a in actions ==> ExplainedBy(ss, a)
    ensures forall a :: a in actions ==> ExplainedBy(ss + [s], a)
  {
    forall a | a in actions ensures ExplainedBy(ss + [s], a) {
      NewSuggestionKeepsFound(ss, s, a.suggestionId);
    }
  }

  lemma MarkingKeepsExplained(ss: seq<Suggestion>, p: nat, s: Suggestion, actions: seq<LoggedAction>)
    requires p < |ss| && s.id == ss[p].id && forall c :: Explains(ss[p], c) ==> Explains(s, c)
    requires forall a :: a in actions ==> ExplainedBy(ss, a)
    ensures forall a :: a in actions ==> ExplainedBy(ss[p := s], a)
  {
    forall a | a in actions ensures ExplainedBy(ss[p := s], a) {
      MarkingKeepsFound(ss, p, s, a.suggestionId);
    }
  }

  lemma ChangeIsExplained(rules: seq<Rule>, s: Suggestion, auto: bool, now: int)
    ensures var c := ApplyTo(rules, Decided(s, auto, now)).1; c.Some? ==> Explains(s, c.value)
    ensures forall c :: Explains(s, c) ==> Explains(Decided(s, auto, now), c)
  {
  }

  lemma ApplyKeepsExplained(st: EngineState, id: string, approve: bool, auto: bool, now: int, io: Io)
    requires Explained(st)
    ensures Explained(AfterApply(st, id, approve, auto, now, io))
  {
    var p := FindSuggestion(st.suggestions, id);
    var st' := AfterApply(st, id, approve, auto, now, io);
    if !approve && p.None? {
      AppendKeepsExplained(st.suggestions, RejectedPlaceholder(id, now), st.actions);
    } else if !approve {
      MarkingKeepsExplained(st.suggestions, p.value, st.suggestions[p.value].(rejected := true), st.actions);
    } else if st'.actions != st.actions {
      var s := st.suggestions[p.value];
      var decided := Decided(s, auto, now);
      ChangeIsExplained(st.stores.persisted, s, auto, now);
      assert st'.actions[|st.actions|] == LogEntry(decided, ApplyTo(st.stores.persisted, decided).1.value);
      assert forall a :: a in st'.actions ==> ExplainedBy(st.suggestions, a);
      if io.append {
        MarkingKeepsExplained(st.suggestions, p.value, s.(applied := true, decision := decided.decision), st'.actions);
      }
    }
  }

  /** Every call keeps the log explained, so any two entries of one suggestion are alike. */
  lemma CallKeepsExplained(st: EngineState, cfg: Config, c: Call)
    requires Explained(st)
    ensures Explained(After(st, cfg, c))
  {
    match c
    case ApplyCall(id, approve, now, io) => ApplyKeepsExplained(st, id, approve, false, now, io);
    case UndoCall(iface, io) =>
    case EventCall(ev, io) =>
      if ev.suggestion.Some? {
        var s := ev.suggestion.value;
        AppendKeepsExplained(st.suggestions, s, st.actions);
        ApplyKeepsExplained(WithSuggestion(st, s), s.id, true, true, ev.stampedAt, io);
      }
  }

  // ---------------------------------------------------------------------------
  // The edits can be unwound
  // ---------------------------------------------------------------------------

  function Changes(actions: seq<LoggedAction>): seq<AppliedChange> {
    seq(|actions|, i requires 0 <= i < |actions| => actions[i].change)
  }

  predicate Unwindable(st: EngineState, m0: map<string, Rule>) {
    && InSync(st.stores)
    && Distinct(st.stores.persisted)
    && LogRestores(ById(st.stores.persisted), Changes(st.actions), m0)
  }

  /** The suggestion that an apply of `id` would use adds a rule with a fresh id, if any. */
  predicate FreshFor(st: EngineState, id: string) {
    var p := FindSuggestion(st.suggestions, id);
    p.Some? ==> AddsFresh(st.stores.persisted, st.suggestions[p.value])
  }

  /** Should the kernel refuse the new rules, the old ones are saved back. */
  predicate RestoreWorks(io: Io) {
    io.load && io.save && !io.apply ==> io.restore
  }

  predicate Installs(io: Io) {
    io.load && io.save && io.apply
  }

  lemma LastOfItsSuggestion(actions: seq<LoggedAction>, p: nat)
    requires p < |actions|
    ensures var q := LastWithId(actions, actions[p].suggestionId); q.Some? && p <= q.value < |actions|
  {
  }

  /** The entry an undo picks can be undone while the last one of its suggestion leaves the log. */
  predicate InTurn(st: EngineState, iface: Option<string>) {
    var p := LastMatch(st.actions, NormalizeIface(iface));
    p.Some? ==>
      var q := LastWithId(st.actions, st.actions[p.value].suggestionId);
      LastOfItsSuggestion(st.actions, p.value);
      UndoableOutOfTurn(ById(st.stores.persisted), Changes(st.actions), p.value, q.value)
  }

  /** What the unwinding theorem asks of a call: the restoring save works when it is needed, a
      rule that is added has a new id, and an undo by interface takes an entry it may take. */
  predicate Orderly(st: EngineState, cfg: Config, c: Call) {
    match c
    case ApplyCall(id, approve, _, io) => RestoreWorks(io) && (approve && Installs(io) ==> FreshFor(st, id))
    case UndoCall(iface, io) => RestoreWorks(io) && (NormalizeIface(iface).Some? && Installs(io) ==> InTurn(st, iface))
    case EventCall(ev, io) =>
      LetThrough(st, cfg, ev, io) ==>
        RestoreWorks(io) && (Installs(io) ==> FreshFor(WithSuggestion(st, ev.suggestion.value), ev.suggestion.value.id))
  }

  predicate OrderlyRun(st: EngineState, cfg: Config, cs: seq<Call>)
    decreases |cs|
  {
    cs == [] || (Orderly(st, cfg, cs[0]) && OrderlyRun(After(st, cfg, cs[0]), cfg, cs[1..]))
  }

  lemma AppendedLogRestores(rules: seq<Rule>, rules': seq<Rule>, actions: seq<LoggedAction>, a: LoggedAction,
                            m0: map<string, Rule>)
    requires LogRestores(ById(rules), Changes(actions), m0) && LeadsBack(rules, rules', a.change)
    ensures LogRestores(ById(rules'), Changes(actions + [a]), m0)
  {
    var cs := Changes(actions + [a]);
    assert cs[|cs| - 1] == a.change;
    assert cs[..|cs| - 1] == Changes(actions);
  }

  lemma DecidingKeepsFresh(rules: seq<Rule>, s: Suggestion, auto: bool, now: int)
    requires AddsFresh(rules, s)
    ensures AddsFresh(rules, Decided(s, auto, now))
  {
  }

  lemma ApplyKeepsUnwindable(st: EngineState, id: string, approve: bool, auto: bool, now: int, io: Io,
                             m0: map<string, Rule>)
    requires Unwindable(st, m0) && RestoreWorks(io) && (approve && Installs(io) ==> FreshFor(st, id))
    ensures Unwindable(AfterApply(st, id, approve, auto, now, io), m0)
  {
    var p := FindSuggestion(st.suggestions, id);
    if approve && p.Some? && Installs(io) {
      var s := Decided(st.suggestions[p.value], auto, now);
      var rules := st.stores.persisted;
      var (rules', change) := ApplyTo(rules, s);
      DecidingKeepsFresh(rules, st.suggestions[p.value], auto, now);
      ApplyIsUndoable(rules, s);
      if change.Some? {
        AppendedLogRestores(rules, rules', st.actions, LogEntry(s, change.value), m0);
      }
    }
  }

  lemma KnownIdSpoilsDistinct(rules: seq<Rule>, s: Suggestion)
    requires !AddsFresh(rules, s)
    ensures ApplyTo(rules, s).1.Some? && !Distinct(ApplyTo(rules, s).0)
  {
    var p := Position(rules, s.ruleId).value;
    var rules' := ApplyTo(rules, s).0;
    assert rules'[p].id == rules'[|rules|].id;
  }

  /** An apply leaves a state that can be unwound exactly unless it goes through and adds a rule
      with an id already in the list. */
  lemma ApplyKeepsUnwindableIff(st: EngineState, id: string, approve: bool, auto: bool, now: int, io: Io,
                                m0: map<string, Rule>)
    requires Unwindable(st, m0) && RestoreWorks(io)
    ensures Unwindable(AfterApply(st, id, approve, auto, now, io), m0) <==>
            (approve && Installs(io) ==> FreshFor(st, id))
  {
    if approve && Installs(io) && !FreshFor(st, id) {
      var p := FindSuggestion(st.suggestions, id);
      KnownIdSpoilsDistinct(st.stores.persisted, Decided(st.suggestions[p.value], auto, now));
    } else {
      ApplyKeepsUnwindable(st, id, approve, auto, now, io, m0);
    }
  }

  lemma UndoKeepsUnwindable(st: EngineState, iface: Option<string>, io: Io, m0: map<string, Rule>)
    requires Unwindable(st, m0) && RestoreWorks(io) && NormalizeIface(iface).None?
    ensures Unwindable(AfterUndo(st, iface, io), m0)
    ensures st.actions != [] && Installs(io) ==> AfterUndo(st, iface, io).actions == st.actions[..|st.actions| - 1]
  {
    var n := |st.actions|;
    if n > 0 {
      assert ActionMatches(st.actions[n - 1], NormalizeIface(iface));
      assert LastMatch(st.actions, NormalizeIface(iface)) == Some(n - 1);
      assert LastWithId(st.actions, st.actions[n - 1].suggestionId) == Some(n - 1);
      assert RemoveAt(st.actions, Some(n - 1)) == st.actions[..n - 1];
      assert Changes(st.actions)[n - 1] == st.actions[n - 1].change;
      assert Changes(st.actions[..n - 1]) == Changes(st.actions)[..n - 1];
      UndoIsChangeUndone(st.stores.persisted, st.actions[n - 1].change);
    }
  }

  /** The map after an undo, whether or not it found what it needs. */
  lemma UndoOnTheMap(rules: seq<Rule>, c: AppliedChange)
    requires Distinct(rules) && (c.UpdatedRule? ==> c.before.id == c.after.id)
    ensures ById(UndoOn(rules, c)) == ChangeUndone(ById(rules), c)
  {
    if Undoable(ById(rules), c) {
      UndoIsChangeUndone(rules, c);
    } else {
      match c
      case AddedRule(rule) => ByIdWithout(rules, rule.id);
      case RemovedRule(rule) => ByIdAppend(rules, rule);
      case UpdatedRule(before, after) =>
        InById(rules, after.id);
        ByIdAppend(rules, before);
    }
  }

  lemma EntriesOfOneSuggestionAreAlike(st: EngineState, p: nat, q: nat)
    requires Explained(st) && p < |st.actions| && q < |st.actions|
    requires st.actions[p].suggestionId == st.actions[q].suggestionId
    ensures var log := Changes(st.actions);
            Alike(log[p], log[q]) && (log[p].UpdatedRule? ==> log[p].before.id == log[p].after.id)
  {
    assert ExplainedBy(st.suggestions, st.actions[p]) && ExplainedBy(st.suggestions, st.actions[q]);
  }

  /** The list and the log left by undoing entry `p` while entry `q` leaves the log. */
  lemma UndoneOutOfTurnIff(rules: seq<Rule>, log: seq<AppliedChange>, p: nat, q: nat, m0: map<string, Rule>)
    requires Distinct(rules) && p <= q < |log| && LogRestores(ById(rules), log, m0) && Alike(log[p], log[q])
    requires log[p].UpdatedRule? ==> log[p].before.id == log[p].after.id
    ensures Distinct(UndoOn(rules, log[p])) && LogRestores(ById(UndoOn(rules, log[p])), Remaining(log, q), m0)
            <==> UndoableOutOfTurn(ById(rules), log, p, q)
  {
    UndoOnTheMap(rules, log[p]);
    OutOfTurnUndoRestoresIff(ById(rules), log, p, q, m0);
    if UndoableOutOfTurn(ById(rules), log, p, q) {
      OutOfTurnUndoFindsItsRule(ById(rules), log, p, q, m0);
      UndoIsChangeUndone(rules, log[p]);
    }
  }

  lemma WithRulesUnwindableIff(rules: seq<Rule>, st: EngineState, q: nat, m0: map<string, Rule>)
    requires q < |st.actions|
    ensures Unwindable(EngineState(RuleStores(rules, rules, rules), RemoveAt(st.actions, Some(q)), st.suggestions), m0)
            <==> Distinct(rules) && LogRestores(ById(rules), Remaining(Changes(st.actions), q), m0)
  {
    assert Changes(RemoveAt(st.actions, Some(q))) == Remaining(Changes(st.actions), q);
  }

  /** An undo by interface that goes through leaves a state that can be unwound exactly if the
      entry it picks may be undone out of turn. */
  lemma UndoByInterfaceIff(st: EngineState, iface: Option<string>, io: Io, m0: map<string, Rule>)
    requires Unwindable(st, m0) && Explained(st) && Installs(io)
    ensures Unwindable(AfterUndo(st, iface, io), m0) <==> InTurn(st, iface)
  {
    var picked := LastMatch(st.actions, NormalizeIface(iface));
    if picked.Some? {
      var p := picked.value;
      LastOfItsSuggestion(st.actions, p);
      var q := LastWithId(st.actions, st.actions[p].suggestionId).value;
      EntriesOfOneSuggestionAreAlike(st, p, q);
      UndoneOutOfTurnIff(st.stores.persisted, Changes(st.actions), p, q, m0);
      WithRulesUnwindableIff(UndoOn(st.stores.persisted, st.actions[p].change), st, q, m0);
    }
  }

  lemma OrderlyCallKeepsUnwindable(st: EngineState, cfg: Config, c: Call, m0: map<string, Rule>)
    requires Unwindable(st, m0) && Explained(st) && Orderly(st, cfg, c)
    ensures Unwindable(After(st, cfg, c), m0)
  {
    match c
    case ApplyCall(id, approve, now, io) => ApplyKeepsUnwindable(st, id, approve, false, now, io, m0);
    case UndoCall(iface, io) =>
      if NormalizeIface(iface).None? {
        UndoKeepsUnwindable(st, iface, io, m0);
      } else if Installs(io) {
        UndoByInterfaceIff(st, iface, io, m0);
      }
    case EventCall(ev, io) =>
      if LetThrough(st, cfg, ev, io) {
        var s := ev.suggestion.value;
        ApplyKeepsUnwindable(WithSuggestion(st, s), s.id, true, true, ev.stampedAt, io, m0);
      }
  }

  lemma {:induction false} OrderlyRunsStayUnwindable(st: EngineState, cfg: Config, cs: seq<Call>,
                                                     m0: map<string, Rule>)
    requires Unwindable(st, m0) && Explained(st) && OrderlyRun(st, cfg, cs)
    ensures Unwindable(Exec(st, cfg, cs), m0)
    decreases |cs|
  {
    if cs != [] {
      CallKeepsExplained(st, cfg, cs[0]);
      OrderlyCallKeepsUnwindable(st, cfg, cs[0], m0);
      OrderlyRunsStayUnwindable(After(st, cfg, cs[0]), cfg, cs[1..], m0);
    }
  }

  /** `n` undo calls in a row, every one of which succeeds. */
  function UndoTimes(st: EngineState, n: nat): EngineState
    decreases n
  {
    if n == 0 then st else UndoTimes(AfterUndo(st, None, ALL_WELL), n - 1)
  }

  lemma {:induction false} UnwindingEmptiesTheLog(st: EngineState, m0: map<string, Rule>)
    requires Unwindable(st, m0)
    ensures var e := UndoTimes(st, |st.actions|);
            e.actions == [] && InSync(e.stores) && ById(e.stores.kernel) == m0
    decreases |st.actions|
  {
    if st.actions != [] {
      UndoKeepsUnwindable(st, None, ALL_WELL, m0);
      UnwindingEmptiesTheLog(AfterUndo(st, None, ALL_WELL), m0);
    } else {
      assert Changes(st.actions) == [];
    }
  }

  /** Whatever was applied, undone or refused in between, and whichever calls failed: the three
      copies of the rules agree at the end, and undoing what is left in the log brings back
      every rule the run started from, in the kernel as well. */
  lemma EveryRunCanBeUnwound(st: EngineState, cfg: Config, cs: seq<Call>)
    requires InSync(st.stores) && Distinct(st.stores.persisted) && st.actions == []
    requires OrderlyRun(st, cfg, cs)
    ensures var t := Exec(st, cfg, cs);
            && InSync(t.stores)
            && var e := UndoTimes(t, |t.actions|);
            && e.actions == [] && InSync(e.stores)
            && ById(e.stores.kernel) == ById(st.stores.kernel)
  {
    var m0 := ById(st.stores.persisted);
    OrderlyRunsStayUnwindable(st, cfg, cs, m0);
    UnwindingEmptiesTheLog(Exec(st, cfg, cs), m0);
  }

  // ---------------------------------------------------------------------------
  // The suggestions the engine makes itself
  // ---------------------------------------------------------------------------

  /** They name no target, and rules made of them have ids of their own, as hashes have. */
  predicate Own(s: Suggestion, ids: set<string>) {
    s.target.None? && (AddsRule(s) ==> s.ruleId in ids)
  }

  predicate OwnCall(c: Call, ids: set<string>) {
    RestoreWorks(c.io) && (c.EventCall? && c.ev.suggestion.Some? ==> Own(c.ev.suggestion.value, ids))
  }

  /** The rules the engine did not make. */
  function Foreign(rules: seq<Rule>, ids: set<string>): seq<Rule> {
    if rules == [] then []
    else
      var n := |rules| - 1;
      Foreign(rules[..n], ids) + (if rules[n].id in ids then [] else [rules[n]])
  }

  predicate LoggedAsAdded(actions: seq<LoggedAction>, id: string) {
    exists a :: a in actions && a.change.AddedRule? && a.change.rule.id == id
  }

  /** Foreign rules are those of `rules0` in their order, and any other has an entry in the log. */
  predicate OwnState(st: EngineState, rules0: seq<Rule>, ids: set<string>) {
    && InSync(st.stores) && Explained(st)
    && (forall s :: s in st.suggestions ==> Own(s, ids))
    && Foreign(st.stores.persisted, ids) == rules0
    && (forall r :: r in st.stores.persisted && r.id in ids ==> LoggedAsAdded(st.actions, r.id))
  }

  lemma {:induction false} NothingOwn(rules: seq<Rule>, ids: set<string>)
    requires forall i :: 0 <= i < |rules| ==> rules[i].id !in ids
    ensures Foreign(rules, ids) == rules
  {
    if rules != [] {
      var n := |rules| - 1;
      var init, last := rules[..n], rules[n];
      NothingOwn(init, ids);
      assert rules == init + [last];
      ForeignSnoc(init, last, ids);
    }
  }

  lemma ForeignSnoc(rules: seq<Rule>, r: Rule, ids: set<string>)
    ensures Foreign(rules + [r], ids) == Foreign(rules, ids) + (if r.id in ids then [] else [r])
  {
    assert (rules + [r])[..|rules|] == rules;
  }

  lemma {:induction false} ForeignWithout(rules: seq<Rule>, id: string, ids: set<string>)
    requires id in ids
    ensures Foreign(Without(rules, id), ids) == Foreign(rules, ids)
  {
    if rules != [] {
      var n := |rules| - 1;
      ForeignWithout(rules[..n], id, ids);
      assert rules == rules[..n] + [rules[n]];
      WithoutSnoc(rules[..n], rules[n], id);
      ForeignSnoc(Without(rules[..n], id), rules[n], ids);
      ForeignSnoc(rules[..n], rules[n], ids);
    }
  }

  lemma {:induction false} WithoutHas(rules: seq<Rule>, id: string, r: Rule)
    ensures r in Without(rules, id) <==> r in rules && r.id != id
  {
    if rules != [] {
      WithoutHas(rules[1..], id, r);
      assert rules == [rules[0]] + rules[1..];
    }
  }

  /** The log of such a state holds additions only, two of one suggestion being of one rule id. */
  lemma OwnEntries(st: EngineState, rules0: seq<Rule>, ids: set<string>, a: LoggedAction, b: LoggedAction)
    requires OwnState(st, rules0, ids) && a in st.actions && b in st.actions
    ensures a.change.AddedRule? && a.change.rule.id in ids
    ensures a.suggestionId == b.suggestionId ==> b.change.AddedRule? && b.change.rule.id == a.change.rule.id
  {
    assert ExplainedBy(st.suggestions, a) && ExplainedBy(st.suggestions, b);
    assert st.suggestions[FindSuggestion(st.suggestions, a.suggestionId).value] in st.suggestions;
  }

  lemma OwnSuggestionAdds(rules: seq<Rule>, s: Suggestion, auto: bool, now: int, ids: set<string>)
    requires Own(s, ids)
    ensures var (rules', c) := ApplyTo(rules, Decided(s, auto, now));
            c.Some? ==> c.value.AddedRule? && c.value.rule.id == s.ruleId && s.ruleId in ids
                        && rules' == rules + [c.value.rule]
  {
  }

  lemma ApplyKeepsSuggestionsOwn(st: EngineState, id: string, approve: bool, auto: bool, now: int, io: Io,
                                 ids: set<string>)
    requires forall s :: s in st.suggestions ==> Own(s, ids)
    ensures forall s :: s in AfterApply(st, id, approve, auto, now, io).suggestions ==> Own(s, ids)
  {
    var p := FindSuggestion(st.suggestions, id);
    if p.Some? {
      assert st.suggestions[p.value] in st.suggestions;
    }
  }

  lemma ApplyKeepsOwnState(st: EngineState, id: string, approve: bool, auto: bool, now: int, io: Io,
                           rules0: seq<Rule>, ids: set<string>)
    requires OwnState(st, rules0, ids) && RestoreWorks(io)
    ensures OwnState(AfterApply(st, id, approve, auto, now, io), rules0, ids)
  {
    var st' := AfterApply(st, id, approve, auto, now, io);
    ApplyKeepsExplained(st, id, approve, auto, now, io);
    ApplyKeepsSuggestionsOwn(st, id, approve, auto, now, io, ids);
    if st'.actions != st.actions {
      var s := st.suggestions[FindSuggestion(st.suggestions, id).value];
      assert s in st.suggestions;
      OwnSuggestionAdds(st.stores.persisted, s, auto, now, ids);
      var added := st'.actions[|st.actions|];
      assert st'.actions == st.actions + [added];
      ForeignSnoc(st.stores.persisted, added.change.rule, ids);
      forall r | r in st'.stores.persisted && r.id in ids ensures LoggedAsAdded(st'.actions, r.id) {
        if r in st.stores.persisted {
          var a :| a in st.actions && a.change.AddedRule? && a.change.rule.id == r.id;
          assert a in st'.actions;
        } else {
          assert added in st'.actions;
        }
      }
    } else {
      assert st'.stores == st.stores;
    }
  }

  lemma OthersStayLogged(actions: seq<LoggedAction>, q: nat, id: string)
    requires q < |actions| && LoggedAsAdded(actions, id)
    requires actions[q].change.AddedRule? && actions[q].change.rule.id != id
    ensures LoggedAsAdded(RemoveAt(actions, Some(q)), id)
  {
    var a :| a in actions && a.change.AddedRule? && a.change.rule.id == id;
    var i :| 0 <= i < |actions| && actions[i] == a;
    var rest := actions[..q] + actions[q + 1..];
    if i < q {
      assert rest[i] == a;
    } else {
      assert rest[i - 1] == actions[q + 1..][i - q - 1] == a;
    }
    assert a in rest;
  }

  lemma OwnWithout(st: EngineState, q: nat, rules0: seq<Rule>, ids: set<string>)
    requires OwnState(st, rules0, ids) && q < |st.actions|
    requires st.actions[q].change.AddedRule? && st.actions[q].change.rule.id in ids
    ensures var rules := Without(st.stores.persisted, st.actions[q].change.rule.id);
            OwnState(EngineState(RuleStores(rules, rules, rules), RemoveAt(st.actions, Some(q)), st.suggestions),
                     rules0, ids)
  {
    var id := st.actions[q].change.rule.id;
    ForeignWithout(st.stores.persisted, id, ids);
    forall r | r in Without(st.stores.persisted, id) && r.id in ids
      ensures LoggedAsAdded(RemoveAt(st.actions, Some(q)), r.id)
    {
      WithoutHas(st.stores.persisted, id, r);
      OthersStayLogged(st.actions, q, r.id);
    }
  }

  /** Undoing any entry, whichever the interface picks, takes out all that was added for it. */
  lemma UndoKeepsOwnState(st: EngineState, iface: Option<string>, io: Io, rules0: seq<Rule>, ids: set<string>)
    requires OwnState(st, rules0, ids) && RestoreWorks(io)
    ensures OwnState(AfterUndo(st, iface, io), rules0, ids)
  {
    var picked := LastMatch(st.actions, NormalizeIface(iface));
    if picked.Some? && Installs(io) {
      var p := picked.value;
      LastOfItsSuggestion(st.actions, p);
      var q := LastWithId(st.actions, st.actions[p].suggestionId).value;
      OwnEntries(st, rules0, ids, st.actions[p], st.actions[q]);
      OwnWithout(st, q, rules0, ids);
    }
  }

  lemma CallKeepsOwnState(st: EngineState, cfg: Config, c: Call, rules0: seq<Rule>, ids: set<string>)
    requires OwnState(st, rules0, ids) && OwnCall(c, ids)
    ensures OwnState(After(st, cfg, c), rules0, ids)
  {
    match c
    case ApplyCall(id, approve, now, io) => ApplyKeepsOwnState(st, id, approve, false, now, io, rules0, ids);
    case UndoCall(iface, io) => UndoKeepsOwnState(st, iface, io, rules0, ids);
    case EventCall(ev, io) =>
      if ev.suggestion.Some? {
        var s := ev.suggestion.value;
        AppendKeepsExplained(st.suggestions, s, st.actions);
        ApplyKeepsOwnState(WithSuggestion(st, s), s.id, true, true, ev.stampedAt, io, rules0, ids);
      }
  }

  lemma {:induction false} RunKeepsOwnState(st: EngineState, cfg: Config, cs: seq<Call>, rules0: seq<Rule>,
                                            ids: set<string>)
    requires OwnState(st, rules0, ids) && forall c :: c in cs ==> OwnCall(c, ids)
    ensures OwnState(Exec(st, cfg, cs), rules0, ids)
    decreases |cs|
  {
    if cs != [] {
      assert cs[0] in cs;
      CallKeepsOwnState(st, cfg, cs[0], rules0, ids);
      RunKeepsOwnState(After(st, cfg, cs[0]), cfg, cs[1..], rules0, ids);
    }
  }

  lemma {:induction false} UndoingEmptiesTheLog(st: EngineState, rules0: seq<Rule>, ids: set<string>)
    requires OwnState(st, rules0, ids)
    ensures UndoTimes(st, |st.actions|).actions == [] && OwnState(UndoTimes(st, |st.actions|), rules0, ids)
    decreases |st.actions|
  {
    var n := |st.actions|;
    if n > 0 {
      assert ActionMatches(st.actions[n - 1], None);
      assert LastMatch(st.actions, None) == Some(n - 1);
      assert LastWithId(st.actions, st.actions[n - 1].suggestionId) == Some(n - 1);
      assert RemoveAt(st.actions, Some(n - 1)) == st.actions[..n - 1];
      UndoKeepsOwnState(st, None, ALL_WELL, rules0, ids);
      UndoingEmptiesTheLog(AfterUndo(st, None, ALL_WELL), rules0, ids);
    }
  }

  lemma EmptyLogMeansOriginalRules(st: EngineState, rules0: seq<Rule>, ids: set<string>)
    requires OwnState(st, rules0, ids) && st.actions == []
    ensures st.stores == RuleStores(rules0, rules0, rules0)
  {
    assert forall r :: r in st.stores.persisted && r.id in ids ==> LoggedAsAdded(st.actions, r.id);
    NothingOwn(st.stores.persisted, ids);
  }

  /** Runs on the engine's own suggestions: with undos by any interface in any order, suggestions
      applied more than once and any call failing, the three copies agree, and whenever the log
      is empty, however it was emptied, they are the original list, order included. */
  lemma OwnRunsRestoreTheRules(st: EngineState, cfg: Config, cs: seq<Call>, ids: set<string>)
    requires InSync(st.stores) && st.actions == []
    requires forall s :: s in st.suggestions ==> Own(s, ids)
    requires forall r :: r in st.stores.persisted ==> r.id !in ids
    requires forall c :: c in cs ==> OwnCall(c, ids)
    ensures var t := Exec(st, cfg, cs);
            && InSync(t.stores)
            && (t.actions == [] ==> t.stores == st.stores)
            && var e := UndoTimes(t, |t.actions|);
               e.actions == [] && e.stores == st.stores
  {
    var rules0 := st.stores.persisted;
    NothingOwn(rules0, ids);
    RunKeepsOwnState(st, cfg, cs, rules0, ids);
    var t := Exec(st, cfg, cs);
    UndoingEmptiesTheLog(t, rules0, ids);
    EmptyLogMeansOriginalRules(UndoTimes(t, |t.actions|), rules0, ids);
    if t.actions == [] {
      EmptyLogMeansOriginalRules(t, rules0, ids);
    }
  }

  /** What applying an addition by hand does; `r` is its rule and `a` its entry. */
  lemma ApplyOnce(st: EngineState, id: string, now: int) returns (r: Rule, a: LoggedAction)
    requires FindSuggestion(st.suggestions, id).Some?
    requires AddsRule(st.suggestions[FindSuggestion(st.suggestions, id).value])
    ensures var s := st.suggestions[FindSuggestion(st.suggestions, id).value];
            var st' := AfterApply(st, id, true, false, now, ALL_WELL);
            var rules := st.stores.persisted + [r];
            && r.id == s.ruleId && a.change == AddedRule(r) && a.suggestionId == id
            && st'.stores == RuleStores(rules, rules, rules) && st'.actions == st.actions + [a]
    ensures var s := st.suggestions[FindSuggestion(st.suggestions, id).value];
            var ss := AfterApply(st, id, true, false, now, ALL_WELL).suggestions;
            && FindSuggestion(ss, id) == FindSuggestion(st.suggestions, id)
            && AddsRule(ss[FindSuggestion(ss, id).value]) && ss[FindSuggestion(ss, id).value].ruleId == s.ruleId
  {
    var p := FindSuggestion(st.suggestions, id).value;
    var s := st.suggestions[p];
    var decided := Decided(s, false, now);
    MarkingKeepsFound(st.suggestions, p, s.(applied := true, decision := decided.decision), id);
    r := ApplyTo(st.stores.persisted, decided).1.value.rule;
    a := LogEntry(decided, AddedRule(r));
  }

  lemma BothCopiesGo(rules: seq<Rule>, r1: Rule, r2: Rule)
    requires r1.id == r2.id && Position(rules, r1.id).None?
    ensures Without(rules + [r1] + [r2], r1.id) == rules
  {
    WithoutSnoc(rules + [r1], r2, r1.id);
    WithoutSnoc(rules, r1, r1.id);
    WithoutShrinks(rules, r1.id);
  }

  lemma UndoTakesTheLast(st: EngineState, a: LoggedAction)
    requires st.actions != [] && st.actions[|st.actions| - 1] == a && a.change.AddedRule?
    ensures var u := AfterUndo(st, None, ALL_WELL);
            var rules := Without(st.stores.persisted, a.change.rule.id);
            u.actions == st.actions[..|st.actions| - 1] && u.stores == RuleStores(rules, rules, rules)
  {
    var n := |st.actions| - 1;
    assert ActionMatches(a, None) && LastMatch(st.actions, None) == Some(n);
    assert LastWithId(st.actions, a.suggestionId) == Some(n);
    assert RemoveAt(st.actions, Some(n)) == st.actions[..n];
  }

  /** Nothing stops a stored suggestion from being applied twice by hand. Its rule is then in the
      list twice, and one undo takes out both while the log still has an entry for it. */
  lemma AppliedTwiceUndoneOnce(st: EngineState, cfg: Config, id: string, now: int, later: int)
    requires InSync(st.stores) && FindSuggestion(st.suggestions, id).Some?
    requires var s := st.suggestions[FindSuggestion(st.suggestions, id).value];
             AddsRule(s) && Position(st.stores.persisted, s.ruleId).None?
    ensures var s := st.suggestions[FindSuggestion(st.suggestions, id).value];
            var t := Exec(st, cfg, [ApplyCall(id, true, now, ALL_WELL), ApplyCall(id, true, later, ALL_WELL)]);
            var u := After(t, cfg, UndoCall(None, ALL_WELL));
            var n := |st.stores.kernel|;
            && |t.stores.kernel| == n + 2 && t.stores.kernel[n].id == t.stores.kernel[n + 1].id == s.ruleId
            && u.stores == st.stores
            && |u.actions| == |st.actions| + 1 && u.actions[|st.actions|].suggestionId == id
  {
    var first, second := ApplyCall(id, true, now, ALL_WELL), ApplyCall(id, true, later, ALL_WELL);
    var r1, a1 := ApplyOnce(st, id, now);
    var st1 := After(st, cfg, first);
    var r2, a2 := ApplyOnce(st1, id, later);
    var t := After(st1, cfg, second);
    assert [first, second][1..] == [second] && [second][1..] == [];
    assert Exec(st1, cfg, [second]) == t;
    UndoTakesTheLast(t, a2);
    BothCopiesGo(st.stores.persisted, r1, r2);
  }

  // ---------------------------------------------------------------------------
  // The hourly limit
  // ---------------------------------------------------------------------------

  /** Logged under the interface key, names compared ignoring case. */
  predicate LoggedUnder(a: LoggedAction, key: Option<string>) {
    match key
    case None => a.iface.None?
    case Some(k) => a.iface.Some? && EqIgnoreCase(a.iface.value, k)
  }

  /** The auto-applied actions logged under `key` in the hour that starts at `lo`. */
  function Window(actions: seq<LoggedAction>, key: Option<string>, lo: int): nat {
    if actions == [] then 0
    else
      var a := actions[|actions| - 1];
      Window(actions[..|actions| - 1], key, lo) + (if InWindow(a, key, lo) then 1 else 0)
  }

  predicate InWindow(a: LoggedAction, key: Option<string>, lo: int) {
    LoggedUnder(a, key) && a.decision.autoApplied
    && a.decision.timestamp.Some? && lo <= a.decision.timestamp.value <= lo + HOUR
  }

  ghost predicate Bounded(actions: seq<LoggedAction>, key: Option<string>, limit: nat) {
    forall lo :: Window(actions, key, lo) <= limit
  }

  predicate SameKey(k: Option<string>, k': Option<string>) {
    match (k, k')
    case (None, None) => true
    case (Some(a), Some(b)) => EqIgnoreCase(a, b)
    case _ => false
  }

  lemma {:induction false} WindowWithinRecent(actions: seq<LoggedAction>, key: Option<string>, key': Option<string>,
                                              lo: int, now: int)
    requires SameKey(key, key') && lo >= now - HOUR
    ensures Window(actions, key, lo) <= RecentAutoApplyCount(actions, key', now)
  {
    if actions != [] {
      WindowWithinRecent(actions[..|actions| - 1], key, key', lo, now);
    }
  }

  lemma WindowSnoc(actions: seq<LoggedAction>, a: LoggedAction, key: Option<string>, lo: int)
    ensures Window(actions + [a], key, lo) == Window(actions, key, lo) + (if InWindow(a, key, lo) then 1 else 0)
  {
    assert (actions + [a])[..|actions|] == actions;
  }

  lemma RemoveBeforeLast(actions: seq<LoggedAction>, p: nat)
    requires p < |actions|
    ensures var n := |actions| - 1;
            RemoveAt(actions, Some(p)) ==
            if p == n then actions[..n] else RemoveAt(actions[..n], Some(p)) + [actions[n]]
  {
  }

  lemma {:induction false} WindowRemoveAt(actions: seq<LoggedAction>, p: nat, key: Option<string>, lo: int)
    requires p < |actions|
    ensures Window(RemoveAt(actions, Some(p)), key, lo) <= Window(actions, key, lo)
  {
    var n := |actions| - 1;
    RemoveBeforeLast(actions, p);
    if p < n {
      WindowRemoveAt(actions[..n], p, key, lo);
      WindowSnoc(RemoveAt(actions[..n], Some(p)), actions[n], key, lo);
    }
  }

  /** An entry not auto-applied or not logged under the key never breaks the bound, and one that
      counts does not if every hour it falls into has room. */
  lemma AppendKeepsBound(actions: seq<LoggedAction>, a: LoggedAction, key: Option<string>, limit: nat)
    requires Bounded(actions, key, limit)
    requires !LoggedUnder(a, key) || !a.decision.autoApplied ||
             (a.decision.timestamp.Some? &&
              forall lo :: lo >= a.decision.timestamp.value - HOUR ==> Window(actions, key, lo) < limit)
    ensures Bounded(actions + [a], key, limit)
  {
    forall lo ensures Window(actions + [a], key, lo) <= limit {
      WindowSnoc(actions, a, key, lo);
    }
  }

  /** When is one more auto-applied entry harmless? With no later stamps in the log: exactly
      when the hour that ends with it held fewer than the limit. */
  lemma AppendKeepsBoundIff(actions: seq<LoggedAction>, a: LoggedAction, key: Option<string>, limit: nat)
    requires Bounded(actions, key, limit)
    requires LoggedUnder(a, key) && a.decision.autoApplied && a.decision.timestamp.Some?
    requires forall b :: b in actions && b.decision.timestamp.Some? ==>
               b.decision.timestamp.value <= a.decision.timestamp.value
    ensures Bounded(actions + [a], key, limit) <==> Window(actions, key, a.decision.timestamp.value - HOUR) < limit
  {
    var now := a.decision.timestamp.value;
    WindowSnoc(actions, a, key, now - HOUR);
    if Window(actions, key, now - HOUR) < limit {
      forall lo | lo >= now - HOUR ensures Window(actions, key, lo) < limit {
        WindowShrinks(actions, key, now - HOUR, lo, now);
      }
      AppendKeepsBound(actions, a, key, limit);
    }
  }

  lemma EntryKeepsBoundIff(actions: seq<LoggedAction>, a: LoggedAction, key: Option<string>, limit: nat)
    requires Bounded(actions, key, limit) && a.decision.autoApplied && a.decision.timestamp.Some?
    requires forall b :: b in actions && b.decision.timestamp.Some? ==>
               b.decision.timestamp.value <= a.decision.timestamp.value
    ensures Bounded(actions + [a], key, limit) <==>
            !SameKey(a.iface, key) || Window(actions, key, a.decision.timestamp.value - HOUR) < limit
  {
    if LoggedUnder(a, key) {
      AppendKeepsBoundIff(actions, a, key, limit);
    } else {
      AppendKeepsBound(actions, a, key, limit);
    }
  }

  lemma {:induction false} WindowShrinks(actions: seq<LoggedAction>, key: Option<string>, lo: int, lo': int, now: int)
    requires lo == now - HOUR <= lo'
    requires forall b :: b in actions && b.decision.timestamp.Some? ==> b.decision.timestamp.value <= now
    ensures Window(actions, key, lo') <= Window(actions, key, lo)
  {
    if actions != [] {
      var n := |actions| - 1;
      assert actions[n] in actions;
      assert forall b :: b in actions[..n] ==> b in actions;
      WindowShrinks(actions[..n], key, lo, lo', now);
    }
  }

  /** Every spelling of the interface has a limit, none above `limit`. */
  ghost predicate Limited(cfg: Config, key: Option<string>, limit: nat) {
    forall name: string :: SameKey(NormalizeIface(Some(name)), key) ==> 0 < SettingsFor(cfg, name).maxPerHour <= limit
  }

  /** The interface key an event's action is logged under if it is applied: that of the first
      suggestion with the id. */
  function KeyLogged(st: EngineState, s: Suggestion): Option<string> {
    var found := FindSuggestion(st.suggestions + [s], s.id);
    if found.Some? then NormalizeIface(Some((st.suggestions + [s])[found.value].event.iface)) else None
  }

  /** An event let through that is logged under the key is one for the interface of the key, and
      the clock does not run backwards between gate and stamp. */
  predicate Attributed(st: EngineState, cfg: Config, c: Call, key: Option<string>) {
    c.EventCall? && LetThrough(st, cfg, c.ev, c.io) && SameKey(KeyLogged(st, c.ev.suggestion.value), key) ==>
      && c.ev.checkedAt <= c.ev.stampedAt
      && SameKey(NormalizeIface(Some(c.ev.suggestion.value.event.iface)), key)
  }

  predicate AttributedRun(st: EngineState, cfg: Config, cs: seq<Call>, key: Option<string>)
    decreases |cs|
  {
    cs == [] || (Attributed(st, cfg, cs[0], key) && AttributedRun(After(st, cfg, cs[0]), cfg, cs[1..], key))
  }

  /** The log after an apply is the old one, possibly with one entry for the suggestion found. */
  lemma ApplyLogsAtMostOne(st: EngineState, id: string, approve: bool, auto: bool, now: int, io: Io)
    ensures var acts := AfterApply(st, id, approve, auto, now, io).actions;
            var p := FindSuggestion(st.suggestions, id);
            || acts == st.actions
            || (exists a :: acts == st.actions + [a] && a.decision.autoApplied == auto
                  && a.decision.timestamp == Some(now)
                  && p.Some? && a.iface == NormalizeIface(Some(st.suggestions[p.value].event.iface)))
  {
    var acts := AfterApply(st, id, approve, auto, now, io).actions;
    if acts != st.actions {
      var a := acts[|st.actions|];
      assert acts == st.actions + [a];
    }
  }

  /** The log after an event is the old one, possibly with one automatic entry under `KeyLogged`. */
  lemma EventLogsAtMostOne(st: EngineState, cfg: Config, ev: Observed, io: Io)
    ensures var acts := AfterEvent(st, cfg, ev, io).actions;
            || acts == st.actions
            || (LetThrough(st, cfg, ev, io)
                && exists a :: acts == st.actions + [a] && a.decision.autoApplied
                     && a.decision.timestamp == Some(ev.stampedAt) && a.iface == KeyLogged(st, ev.suggestion.value))
  {
    if LetThrough(st, cfg, ev, io) {
      var s := ev.suggestion.value;
      ApplyLogsAtMostOne(WithSuggestion(st, s), s.id, true, true, ev.stampedAt, io);
    }
  }

  /** The suggestion has something to do: it adds a rule or its target is in the list. */
  predicate MapsToChange(rules: seq<Rule>, s: Suggestion) {
    AddsRule(s) || (s.target.Some? && Position(rules, s.target.value).Some?)
  }

  /** The guards on the way from an event to an entry of the log. */
  predicate WillLog(st: EngineState, cfg: Config, ev: Observed, io: Io) {
    && LetThrough(st, cfg, ev, io) && Installs(io)
    && var ss := st.suggestions + [ev.suggestion.value];
       var found := FindSuggestion(ss, ev.suggestion.value.id);
       found.Some? && MapsToChange(st.stores.persisted, ss[found.value])
  }

  lemma EventLogsIff(st: EngineState, cfg: Config, ev: Observed, io: Io)
    ensures AfterEvent(st, cfg, ev, io).actions != st.actions <==> WillLog(st, cfg, ev, io)
  {
    if LetThrough(st, cfg, ev, io) {
      var ss := st.suggestions + [ev.suggestion.value];
      var found := FindSuggestion(ss, ev.suggestion.value.id);
      if found.Some? {
        MapsToChangeIff(st.stores.persisted, ss[found.value], true, ev.stampedAt);
      }
    }
  }

  lemma MapsToChangeIff(rules: seq<Rule>, s: Suggestion, auto: bool, now: int)
    ensures ApplyTo(rules, Decided(s, auto, now)).1.Some? <==> MapsToChange(rules, s)
  {
  }

  /** An event keeps the bound exactly if it will not log an action, or will log one under another
      interface, or the hour before held fewer than the limit, given no later stamps. */
  lemma EventKeepsBoundIff(st: EngineState, cfg: Config, ev: Observed, io: Io, key: Option<string>, limit: nat)
    requires Bounded(st.actions, key, limit) && StampInOrder(st, EventCall(ev, io))
    ensures Bounded(AfterEvent(st, cfg, ev, io).actions, key, limit) <==>
            HasRoom(st, cfg, EventCall(ev, io), key, limit)
  {
    EventLogsIff(st, cfg, ev, io);
    EventLogsAtMostOne(st, cfg, ev, io);
    var acts := AfterEvent(st, cfg, ev, io).actions;
    if acts != st.actions {
      var a :| acts == st.actions + [a] && a.decision.autoApplied && a.decision.timestamp == Some(ev.stampedAt)
               && a.iface == KeyLogged(st, ev.suggestion.value);
      EntryKeepsBoundIff(st.actions, a, key, limit);
    }
  }

  lemma EventKeepsBound(st: EngineState, cfg: Config, ev: Observed, io: Io, key: Option<string>, limit: nat)
    requires Bounded(st.actions, key, limit) && Limited(cfg, key, limit)
    requires Attributed(st, cfg, EventCall(ev, io), key)
    ensures Bounded(AfterEvent(st, cfg, ev, io).actions, key, limit)
  {
    EventLogsAtMostOne(st, cfg, ev, io);
    var acts := AfterEvent(st, cfg, ev, io).actions;
    if acts != st.actions {
      var a :| acts == st.actions + [a] && a.decision.timestamp == Some(ev.stampedAt)
               && a.iface == KeyLogged(st, ev.suggestion.value);
      if LoggedUnder(a, key) {
        var eventKey := NormalizeIface(Some(ev.suggestion.value.event.iface));
        forall lo | lo >= ev.stampedAt - HOUR ensures Window(st.actions, key, lo) < limit {
          WindowWithinRecent(st.actions, key, eventKey, lo, ev.checkedAt);
        }
      }
      AppendKeepsBound(st.actions, a, key, limit);
    }
  }

  /** Calls by hand never break the bound. */
  lemma ManualCallKeepsBound(st: EngineState, cfg: Config, c: Call, key: Option<string>, limit: nat)
    requires Bounded(st.actions, key, limit) && !c.EventCall?
    ensures Bounded(After(st, cfg, c).actions, key, limit)
  {
    var acts := After(st, cfg, c).actions;
    match c {
      case ApplyCall(id, approve, now, io) =>
        ApplyLogsAtMostOne(st, id, approve, false, now, io);
        if acts != st.actions {
          var a :| acts == st.actions + [a] && a.decision.autoApplied == false;
          AppendKeepsBound(st.actions, a, key, limit);
        }
      case UndoCall(iface, io) =>
        if acts != st.actions {
          var last := st.actions[LastMatch(st.actions, NormalizeIface(iface)).value];
          var p := LastWithId(st.actions, last.suggestionId);
          forall lo ensures Window(acts, key, lo) <= limit {
            WindowRemoveAt(st.actions, p.value, key, lo);
          }
        }
    }
  }

  lemma StepKeepsBound(st: EngineState, cfg: Config, c: Call, key: Option<string>, limit: nat)
    requires Bounded(st.actions, key, limit) && Limited(cfg, key, limit) && Attributed(st, cfg, c, key)
    ensures Bounded(After(st, cfg, c).actions, key, limit)
  {
    if c.EventCall? {
      EventKeepsBound(st, cfg, c.ev, c.io, key, limit);
    } else {
      ManualCallKeepsBound(st, cfg, c, key, limit);
    }
  }

  /** Over every run of events, applies by hand and undos, with any of them failing, every hour
      of the log holds at most `limit` auto-applied actions under the interface. */
  lemma {:induction false} HourlyLimitHolds(st: EngineState, cfg: Config, cs: seq<Call>, key: Option<string>,
                                            limit: nat)
    requires Bounded(st.actions, key, limit) && Limited(cfg, key, limit) && AttributedRun(st, cfg, cs, key)
    ensures Bounded(Exec(st, cfg, cs).actions, key, limit)
    decreases |cs|
  {
    if cs != [] {
      StepKeepsBound(st, cfg, cs[0], key, limit);
      HourlyLimitHolds(After(st, cfg, cs[0]), cfg, cs[1..], key, limit);
    }
  }

  /** The bound holds after every call of the run. */
  ghost predicate BoundedThroughout(st: EngineState, cfg: Config, cs: seq<Call>, key: Option<string>, limit: nat)
    decreases |cs|
  {
    Bounded(st.actions, key, limit) && (cs != [] ==> BoundedThroughout(After(st, cfg, cs[0]), cfg, cs[1..], key, limit))
  }

  /** No event is stamped before an entry that is already in the log. */
  predicate StampInOrder(st: EngineState, c: Call) {
    c.EventCall? ==>
      forall b :: b in st.actions && b.decision.timestamp.Some? ==> b.decision.timestamp.value <= c.ev.stampedAt
  }

  predicate StampsInOrder(st: EngineState, cfg: Config, cs: seq<Call>)
    decreases |cs|
  {
    cs != [] ==> StampInOrder(st, cs[0]) && StampsInOrder(After(st, cfg, cs[0]), cfg, cs[1..])
  }

  /** An event that will log an action under the key finds fewer than the limit in the hour before. */
  predicate HasRoom(st: EngineState, cfg: Config, c: Call, key: Option<string>, limit: nat) {
    match c
    case EventCall(ev, io) =>
      WillLog(st, cfg, ev, io) && SameKey(KeyLogged(st, ev.suggestion.value), key) ==>
        Window(st.actions, key, ev.stampedAt - HOUR) < limit
    case _ => true
  }

  predicate AlwaysRoom(st: EngineState, cfg: Config, cs: seq<Call>, key: Option<string>, limit: nat)
    decreases |cs|
  {
    cs != [] ==> HasRoom(st, cfg, cs[0], key, limit) && AlwaysRoom(After(st, cfg, cs[0]), cfg, cs[1..], key, limit)
  }

  lemma CallKeepsBoundIff(st: EngineState, cfg: Config, c: Call, key: Option<string>, limit: nat)
    requires Bounded(st.actions, key, limit) && StampInOrder(st, c)
    ensures Bounded(After(st, cfg, c).actions, key, limit) <==> HasRoom(st, cfg, c, key, limit)
  {
    if c.EventCall? {
      EventKeepsBoundIff(st, cfg, c.ev, c.io, key, limit);
    } else {
      ManualCallKeepsBound(st, cfg, c, key, limit);
    }
  }

  /** The exact condition for whole runs, whatever interfaces the ids lead to: the bound holds
      after every call exactly if every event that logs under the key finds room. */
  lemma {:induction false} LimitHoldsThroughoutIff(st: EngineState, cfg: Config, cs: seq<Call>, key: Option<string>,
                                                   limit: nat)
    requires Bounded(st.actions, key, limit) && StampsInOrder(st, cfg, cs)
    ensures BoundedThroughout(st, cfg, cs, key, limit) <==> AlwaysRoom(st, cfg, cs, key, limit)
    decreases |cs|
  {
    if cs != [] {
      CallKeepsBoundIff(st, cfg, cs[0], key, limit);
      if HasRoom(st, cfg, cs[0], key, limit) {
        LimitHoldsThroughoutIff(After(st, cfg, cs[0]), cfg, cs[1..], key, limit);
      }
    }
  }

  // ---------------------------------------------------------------------------
  // The gate
  // ---------------------------------------------------------------------------

  /** The log's automatic entries of the last hour that name the interface, or of any interface
      if none is given. */
  ghost function RecentAutoEntries(actions: seq<LoggedAction>, iface: Option<string>, now: int): set<nat> {
    set i: nat | i < |actions| && RecentAuto(actions[i], iface, now)
  }

  predicate RecentAuto(a: LoggedAction, iface: Option<string>, now: int) {
    && a.decision.autoApplied
    && a.decision.timestamp.Some? && now - 60 * 60 * 1_000_000_000 <= a.decision.timestamp.value
    && (iface.Some? ==> OnInterface(a, iface.value))
  }

  lemma RecentAutoSnoc(actions: seq<LoggedAction>, iface: Option<string>, now: int)
    requires actions != []
    ensures var n := |actions| - 1;
            var before := RecentAutoEntries(actions[..n], iface, now);
            && n !in before
            && RecentAutoEntries(actions, iface, now)
            == (if RecentAuto(actions[n], iface, now) then before + {n} else before)
  {
    var n := |actions| - 1;
    forall i: nat | i < n ensures actions[..n][i] == actions[i] {
    }
  }

  lemma {:induction false} RecentCountIsCardinality(actions: seq<LoggedAction>, iface: Option<string>, now: int)
    ensures RecentAutoApplyCount(actions, iface, now) == |RecentAutoEntries(actions, iface, now)|
  {
    if actions != [] {
      var n := |actions| - 1;
      RecentCountIsCardinality(actions[..n], iface, now);
      ActionMatchesIff(actions[n], iface);
      RecentAutoSnoc(actions, iface, now);
    }
  }

  /** What an interface's settings ask of an event before anything is done on its account. */
  ghost predicate Permitted(actions: seq<LoggedAction>, cfg: Config, ev: Observed)
    requires ev.suggestion.Some?
  {
    var s, e := ev.suggestion.value, ev.suggestion.value.event;
    var name := Trim(e.iface);
    var mode := if name != "" && name in cfg.modes then cfg.modes[name] else cfg.defaultMode;
    var limits := if name != "" && name in cfg.settings then cfg.settings[name] else cfg.defaultSettings;
    && mode == FullAiControl
    && (if limits.threshold < 100 then s.decision.confidence * 100.0 >= limits.threshold as real
        else s.decision.confidence >= 1.0)
    && (limits.requireIntentMatch ==> ev.matchedIntent)
    && (limits.requireProtocol ==> Trim(e.protocol) != "" && !EqIgnoreCase(Trim(e.protocol), "any"))
    && (limits.requireDestPort && (EqIgnoreCase(e.protocol, "tcp") || EqIgnoreCase(e.protocol, "udp")) ==>
          e.destPort.Some?)
    && (limits.requireIpFamily ==> e.bothIpv4)
    && (!limits.allowEdit ==> s.decision.action != EditRule)
    && (!limits.allowRemove ==> s.decision.action != RemoveRule)
    && (limits.protectManagement ==> Some(e.iface) != cfg.managementIface)
    && (limits.protectManagement && e.destPort.Some? ==> e.destPort.value !in cfg.managementPorts)
    && (limits.maxPerHour == 0
        || |RecentAutoEntries(actions, if name == "" then None else Some(name), ev.checkedAt)| < limits.maxPerHour)
  }

  lemma ProtocolNames(proto: string)
    ensures Lower(proto) in {"tcp", "udp"} <==> EqIgnoreCase(proto, "tcp") || EqIgnoreCase(proto, "udp")
  {
    assert Lower("tcp") == "tcp" && Lower("udp") == "udp";
  }

  lemma ConfidenceReaches(confidence: real, threshold: nat)
    ensures !(confidence < (if threshold < 100 then threshold else 100) as real / 100.0) <==>
            if threshold < 100 then confidence * 100.0 >= threshold as real else confidence >= 1.0
  {
  }

  /** The gate lets an event through exactly if its interface is under full control and its
      settings permit it. */
  lemma LetThroughIff(st: EngineState, cfg: Config, ev: Observed, io: Io)
    requires ev.suggestion.Some?
    ensures LetThrough(st, cfg, ev, io) <==> io.persist && Permitted(st.actions, cfg, ev)
  {
    var s := ev.suggestion.value;
    var name := Trim(s.event.iface);
    ProtocolNames(s.event.protocol);
    ConfidenceReaches(s.decision.confidence, SettingsFor(cfg, s.event.iface).threshold);
    RecentCountIsCardinality(st.actions, if name == "" then None else Some(name), ev.checkedAt);
  }

  /** An event that changes the rules or the log was permitted by the settings of its interface. */
  lemma EventActsOnlyIfPermitted(st: EngineState, cfg: Config, ev: Observed, io: Io)
    requires AfterEvent(st, cfg, ev, io).stores != st.stores || AfterEvent(st, cfg, ev, io).actions != st.actions
    ensures ev.suggestion.Some? && io.persist && Permitted(st.actions, cfg, ev)
  {
    LetThroughIff(st, cfg, ev, io);
  }

  /** And one that is permitted acts: its suggestion, if it adds a rule and its id is new, is
      applied automatically, in the kernel as well. */
  lemma EventActsIfPermitted(st: EngineState, cfg: Config, ev: Observed, io: Io)
    requires ev.suggestion.Some? && io.persist && Permitted(st.actions, cfg, ev)
    requires Installs(io) && AddsRule(ev.suggestion.value)
    requires forall s :: s in st.suggestions ==> s.id != ev.suggestion.value.id
    ensures var st', s := AfterEvent(st, cfg, ev, io), ev.suggestion.value;
            && |st'.actions| == |st.actions| + 1 && st'.actions[..|st.actions|] == st.actions
            && st'.actions[|st.actions|].suggestionId == s.id && st'.actions[|st.actions|].decision.autoApplied
            && |st'.stores.kernel| == |st.stores.persisted| + 1
            && st'.stores.kernel[..|st.stores.persisted|] == st.stores.persisted
            && var r := st'.stores.kernel[|st.stores.persisted|];
               && r.action == (if s.decision.action in {Deny, SuggestDeny} then Drop else Accept)
               && r.source == Some(s.event.srcIp + "/32") && r.iface == Some(s.event.iface)
  {
    LetThroughIff(st, cfg, ev, io);
    var st1 := WithSuggestion(st, ev.suggestion.value);
    ApprovedAdditionIsApplied(st1, |st.suggestions|, true, ev.stampedAt, io);
  }

  /** Every event with a suggestion leaves it in the list, behind the others. */
  lemma EventKeepsItsSuggestion(st: EngineState, cfg: Config, ev: Observed, io: Io)
    requires ev.suggestion.Some?
    ensures var ss := AfterEvent(st, cfg, ev, io).suggestions;
            && |ss| == |st.suggestions| + 1 && ss[|st.suggestions|].id == ev.suggestion.value.id
            && (!Permitted(st.actions, cfg, ev) ==> ss == st.suggestions + [ev.suggestion.value])
  {
    LetThroughIff(st, cfg, ev, io);
  }

  // ---------------------------------------------------------------------------
  // Where the limit fails: one id, two interfaces
  // ---------------------------------------------------------------------------

  function SampleSuggestion(iface: string): Suggestion {
    Suggestion("id", "rule", Event("10.0.0.2", "10.0.0.1", true, "tcp", None, Some(443), iface),
               Decision(SuggestAllow, 1.0, false, None), None, false, false)
  }

  function SampleEntry(now: int): LoggedAction {
    var s := Decided(SampleSuggestion("lan"), true, now);
    LogEntry(s, AddedRule(BuildRule(s, Accept)))
  }

  function SampleState(): EngineState {
    var rule := SampleEntry(0).change.rule;
    EngineState(RuleStores([rule], [rule], [rule]), [SampleEntry(0)], [SampleSuggestion("lan")])
  }

  const SAMPLE_CONFIG :=
    Config(FullAiControl, map[], Settings(0, false, false, false, false, 1, false, false, false), map[], None, {})

  function SampleEvent(): Observed {
    Observed(Some(SampleSuggestion("wan")), true, 1, 1)
  }

  lemma SampleNames()
    ensures NormalizeIface(Some("lan")) == Some("lan") && NormalizeIface(Some("wan")) == Some("wan")
    ensures !SameKey(Some("lan"), Some("wan")) && SameKey(Some("lan"), Some("lan"))
  {
    assert Lower("lan")[0] == 'l' && Lower("wan")[0] == 'w';
  }

  lemma SampleIsAppliedUnderTheOtherName()
    ensures AfterEvent(SampleState(), SAMPLE_CONFIG, SampleEvent(), ALL_WELL).actions
         == [SampleEntry(0), SampleEntry(1)]
  {
    SampleNames();
    var st := SampleState();
    var lan, wan := SampleSuggestion("lan"), SampleSuggestion("wan");
    assert st.actions[..0] == [];
    assert RecentAutoApplyCount([], Some("wan"), 1) == 0;
    assert !ActionMatches(SampleEntry(0), Some("wan"));
    assert CanAutoApply(st.actions, SAMPLE_CONFIG, wan, true, 1);
    assert FindSuggestion([lan] + [wan], "id") == Some(0);
    assert AfterEvent(st, SAMPLE_CONFIG, SampleEvent(), ALL_WELL)
        == AfterApply(st.(suggestions := [lan] + [wan]), "id", true, true, 1, ALL_WELL);
  }

  lemma SampleIsBounded()
    ensures Bounded(SampleState().actions, Some("lan"), 1)
    ensures Window(SampleState().actions, Some("lan"), 1 - HOUR) == 1
  {
    SampleNames();
    assert InWindow(SampleEntry(0), Some("lan"), 1 - HOUR);
    assert [SampleEntry(0)] == [] + [SampleEntry(0)];
    WindowSnoc([], SampleEntry(0), Some("lan"), 1 - HOUR);
    forall lo ensures Window(SampleState().actions, Some("lan"), lo) <= 1 {
      WindowSnoc([], SampleEntry(0), Some("lan"), lo);
    }
  }

  lemma SampleIsLoggedUnderTheOtherName()
    ensures KeyLogged(SampleState(), SampleSuggestion("wan")) == Some("lan")
  {
    SampleNames();
    assert FindSuggestion([SampleSuggestion("lan")] + [SampleSuggestion("wan")], "id") == Some(0);
  }

  /** Suggestion ids are derived from the event without its interface. If the same packet is
      seen on two interfaces, the gate looks at the second while the action is logged under
      the first, whose limit of one per hour is then passed. */
  lemma SharedIdsBreakTheLimit()
    ensures var (st, ev, lan) := (SampleState(), SampleEvent(), Some("lan"));
            && Bounded(st.actions, lan, 1) && Limited(SAMPLE_CONFIG, lan, 1)
            && ev.checkedAt == ev.stampedAt
            && !SameKey(NormalizeIface(Some(ev.suggestion.value.event.iface)), lan)
            && KeyLogged(st, ev.suggestion.value) == lan
            && !Bounded(AfterEvent(st, SAMPLE_CONFIG, ev, ALL_WELL).actions, lan, 1)
  {
    SampleNames();
    SampleIsBounded();
    SampleIsLoggedUnderTheOtherName();
    SampleIsAppliedUnderTheOtherName();
    var st, ev := SampleState(), SampleEvent();
    assert |AfterEvent(st, SAMPLE_CONFIG, ev, ALL_WELL).actions| == 2;
    EventLogsIff(st, SAMPLE_CONFIG, ev, ALL_WELL);
    EventKeepsBoundIff(st, SAMPLE_CONFIG, ev, ALL_WELL, Some("lan"), 1);
  }

  // ---------------------------------------------------------------------------
  // The engine
  // ---------------------------------------------------------------------------

  class Engine {
    var persisted: seq<Rule>
    var cache: seq<Rule>
    var kernel: seq<Rule>
    var actions: seq<LoggedAction>
    var suggestions: seq<Suggestion>

    constructor (st: EngineState)
      ensures State() == st
    {
      persisted, cache, kernel := st.stores.persisted, st.stores.cache, st.stores.kernel;
      actions, suggestions := st.actions, st.suggestions;
    }

    function State(): EngineState
      reads this
    {
      EngineState(RuleStores(persisted, cache, kernel), actions, suggestions)
    }

    /** The part of an edit shared by applying and undoing; `newRules` is the edited copy of
        the persisted list. */
    method InstallRules(newRules: seq<Rule>, io: Io) returns (ok: bool)
      modifies `persisted, `cache, `kernel
      ensures (State().stores, ok) == Install(old(State().stores), newRules, io)
      ensures actions == old(actions) && suggestions == old(suggestions)
    {
      if !io.load {
        return false;
      }
      var oldRules := persisted;
      if !io.save {
        return false;
      }
      persisted := newRules;
      cache := newRules;
      if !io.apply {
        if io.restore {
          persisted := oldRules;
        }
        cache := oldRules;
        return false;
      }
      kernel := persisted;
      return true;
    }

    method RejectSuggestion(id: string, now: int)
      modifies `suggestions
      ensures suggestions == Rejected(old(suggestions), id, now)
    {
      var p := FindSuggestion(suggestions, id);
      if p.Some? {
        suggestions := suggestions[p.value := suggestions[p.value].(rejected := true)];
      } else {
        suggestions := suggestions + [RejectedPlaceholder(id, now)];
      }
    }

    method ApplySuggestion(id: string, approve: bool, auto: bool, now: int, io: Io) returns (applied: bool)
      modifies this
      ensures State() == AfterApply(old(State()), id, approve, auto, now, io)
      ensures applied <==>
                && approve && Installs(io) && io.append && io.persist
                && var p := FindSuggestion(old(suggestions), id);
                   p.Some? && MapsToChange(old(persisted), old(suggestions)[p.value])
    {
      var p := FindSuggestion(suggestions, id);
      if !approve {
        RejectSuggestion(id, now);
        return false;
      }
      if p.None? {
        return false;
      }
      MapsToChangeIff(persisted, suggestions[p.value], auto, now);
      var s := suggestions[p.value];
      s := s.(decision := s.decision.(autoApplied := auto));
      s := s.(decision := s.decision.(timestamp := Some(now)));
      s := s.(decision := s.decision.(action := MaterializeAction(s.decision.action)));
      assert s == Decided(suggestions[p.value], auto, now);
      var change := ApplyToFirewallRules(s, io);
      if change.None? {
        return false;
      }
      actions := actions + [LogEntry(s, change.value)];
      if !io.append {
        return false;
      }
      suggestions := suggestions[p.value := suggestions[p.value].(applied := true, decision := s.decision)];
      return io.persist;
    }

    /** Edits a copy of the rules and installs it; returns the change if that went through. */
    method ApplyToFirewallRules(s: Suggestion, io: Io) returns (change: Option<AppliedChange>)
      modifies `persisted, `cache, `kernel
      ensures var (rules, c) := ApplyTo(old(persisted), s);
              && (State().stores, change) ==
                 (if !io.load || c.None? then (old(State().stores), None)
                  else (Install(old(State().stores), rules, io).0, if Installs(io) then c else None))
      ensures actions == old(actions) && suggestions == old(suggestions)
    {
      if !io.load {
        return None;
      }
      var list := new RuleList(persisted);
      change := list.ApplySuggestion(s);
      if change.None? {
        return None;
      }
      var ok := InstallRules(list.rules, io);
      if !ok {
        return None;
      }
    }

    method UndoLastAction(iface: Option<string>, io: Io) returns (undone: bool)
      modifies this
      ensures State() == AfterUndo(old(State()), iface, io)
      ensures undone <==> LastMatch(old(actions), NormalizeIface(iface)).Some? && Installs(io) && io.persist
    {
      var p := LastMatch(actions, NormalizeIface(iface));
      if p.None? {
        return false;
      }
      var last := actions[p.value];
      var list := new RuleList(persisted);
      list.Undo(last.change);
      var ok := InstallRules(list.rules, io);
      if !ok {
        return false;
      }
      actions := RemoveAt(actions, LastWithId(actions, last.suggestionId));
      return io.persist;
    }

    method ProcessEvent(cfg: Config, ev: Observed, io: Io)
      modifies this
      ensures State() == AfterEvent(old(State()), cfg, ev, io)
    {
      if ev.suggestion.None? {
        return;
      }
      var s := ev.suggestion.value;
      suggestions := suggestions + [s];
      if !io.persist {
        return;
      }
      if ModeFor(cfg, s.event.iface) == FullAiControl && CanAutoApply(actions, cfg, s, ev.matchedIntent, ev.checkedAt) {
        var _ := ApplySuggestion(s.id, true, true, ev.stampedAt, io);
      }
    }
  }
}
