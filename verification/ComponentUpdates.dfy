/**
 Updating the core binary and the web UI from the registry: what the state file records
 against what is deployed, over checks, applies and rollbacks that may fail anywhere.
 */
module ComponentUpdates {
  import opened Wrappers
  import opened Versions
  import opened AtomicInstall

  datatype Component = Core | Ui

  datatype ComponentState = ComponentState(current: Option<string>, lastApplied: Option<string>,
                                           rollback: Option<string>, remote: Option<string>, updateAvailable: bool)

  const NO_STATE := ComponentState(None, None, None, None, false)

  /** The state file's entries, the versions installed, the versions in the rollback snapshots,
      and the components rolled back since their last snapshot. */
  datatype World = World(entries: map<Component, ComponentState>, deployed: map<Component, string>,
                         snapshots: map<Component, string>, rolledBack: set<Component>)
  {
    function Entry(c: Component): ComponentState {
      if c in entries then entries[c] else NO_STATE
    }

    function Recorded(c: Component): Option<string> {
      Entry(c).current.Or(Entry(c).lastApplied)
    }

    function Set(c: Component, e: ComponentState): World {
      this.(entries := entries[c := e])
    }
  }

  datatype Artifact = Artifact(component: Component, version: string)

  type Manifest = seq<Artifact>

  function Find(m: Manifest, c: Component): Option<string> {
    if m == [] then None else if m[0].component == c then Some(m[0].version) else Find(m[1..], c)
  }

  /** The version to compare with: `built` is the running binary's own. */
  function Baseline(e: ComponentState, built: string): string {
    e.current.Or(e.lastApplied).GetOr(built)
  }

  // ---------------------------------------------------------------------------
  // Check
  // ---------------------------------------------------------------------------

  function CheckOne(w: World, a: Artifact, built: string): World {
    var c := a.component;
    var current := Baseline(w.Entry(c), built);
    w.Set(c, w.Entry(c).(current := Some(current), remote := Some(a.version),
                         updateAvailable := Newer(current, a.version)))
  }

  function CheckAll(w: World, m: Manifest, built: string): World {
    if m == [] then w else CheckOne(CheckAll(w, m[..|m| - 1], built), m[|m| - 1], built)
  }

  // ---------------------------------------------------------------------------
  // Apply
  // ---------------------------------------------------------------------------

  /** Where an apply fails, if it does. A snapshot that fails has either left the old one or
      removed it; a deploy that fails has left the old version or, moved aside and not moved back,
      none (`lost`). */
  datatype Faults = Faults(download: set<Component>, config: bool,
                           snapshotEarly: set<Component>, snapshotLate: set<Component>,
                           deploy: set<Component>, lost: set<Component>)

  predicate UpToDate(w: World, c: Component, version: string, built: string) {
    c in w.entries && !Newer(Baseline(w.entries[c], built), version)
  }

  /** The artifacts an apply fetches. */
  function Downloads(w: World, selected: seq<Component>, m: Manifest, built: string): seq<Artifact> {
    if selected == [] then []
    else
      var n := |selected| - 1;
      var v := Find(m, selected[n]);
      Downloads(w, selected[..n], m, built)
      + (if v.Some? && !UpToDate(w, selected[n], v.value, built) then [Artifact(selected[n], v.value)] else [])
  }

  function SnapshotOne(w: World, c: Component, f: Faults): (World, bool) {
    if c in f.snapshotEarly then (w, false)
    else if c in f.snapshotLate || c !in w.deployed then (w.(snapshots := w.snapshots - {c}), false)
    else
      var w' := w.(snapshots := w.snapshots[c := w.deployed[c]], rolledBack := w.rolledBack - {c});
      (w'.Set(c, w.Entry(c).(rollback := w.Recorded(c))), true)
  }

  function SnapshotAll(w: World, selected: seq<Component>, f: Faults): (World, bool) {
    if selected == [] then (w, true)
    else
      var n := |selected| - 1;
      var (w', ok) := SnapshotAll(w, selected[..n], f);
      if !ok then (w', false) else SnapshotOne(w', selected[n], f)
  }

  function DeployOne(w: World, a: Artifact, f: Faults): (World, bool) {
    if a.component in f.lost then (w.(deployed := w.deployed - {a.component}), false)
    else if a.component in f.deploy then (w, false)
    else
      var w' := w.(deployed := w.deployed[a.component := a.version]);
      (w'.Set(a.component, w.Entry(a.component).(current := Some(a.version), lastApplied := Some(a.version),
                                                 updateAvailable := false)), true)
  }

  function DeployAll(w: World, downloads: seq<Artifact>, f: Faults): (World, bool) {
    if downloads == [] then (w, true)
    else
      var n := |downloads| - 1;
      var (w', ok) := DeployAll(w, downloads[..n], f);
      if !ok then (w', false) else DeployOne(w', downloads[n], f)
  }

  predicate DownloadFails(downloads: seq<Artifact>, f: Faults) {
    exists a :: a in downloads && a.component in f.download
  }

  /** There is nothing to fetch, or everything works. */
  predicate ApplySucceeds(w: World, selected: seq<Component>, m: Manifest, built: string, f: Faults) {
    var downloads := Downloads(w, selected, m, built);
    downloads == [] ||
    (!DownloadFails(downloads, f) && !f.config && SnapshotAll(w, selected, f).1
     && forall a :: a in downloads ==> a.component !in f.deploy + f.lost)
  }

  function AfterApply(w: World, selected: seq<Component>, m: Manifest, built: string, f: Faults): World {
    var downloads := Downloads(w, selected, m, built);
    if DownloadFails(downloads, f) || downloads == [] || f.config then w
    else
      var (w', ok) := SnapshotAll(w, selected, f);
      if !ok then w' else DeployAll(w', downloads, f).0
  }

  // ---------------------------------------------------------------------------
  // Rollback
  // ---------------------------------------------------------------------------

  /** Restores that fail and leave the version in place, or none. */
  datatype RestoreFaults = RestoreFaults(kept: set<Component>, lost: set<Component>)

  const NO_FAULTS := RestoreFaults({}, {})

  function RollbackOne(w: World, c: Component, f: RestoreFaults): (World, bool) {
    var e := w.Entry(c);
    if e.rollback.None? then (w.Set(c, e), true)
    else if c !in w.snapshots then (w.Set(c, e), false)
    else if c in f.lost then (w.(deployed := w.deployed - {c}).Set(c, e), false)
    else if c in f.kept then (w.Set(c, e), false)
    else
      var w' := w.(deployed := w.deployed[c := w.snapshots[c]], rolledBack := w.rolledBack + {c});
      (w'.Set(c, e.(current := e.rollback, lastApplied := e.rollback, rollback := e.current)), true)
  }

  function RollbackAll(w: World, selected: seq<Component>, f: RestoreFaults): (World, bool) {
    if selected == [] then (w, true)
    else
      var n := |selected| - 1;
      var (w', ok) := RollbackAll(w, selected[..n], f);
      if !ok then (w', false) else RollbackOne(w', selected[n], f)
  }

  // ---------------------------------------------------------------------------
  // Deploys and restores are installs
  // ---------------------------------------------------------------------------

  /** What the install finds under the component's name. */
  function Target(w: World, c: Component): Item<string> {
    if c in w.deployed then Whole(w.deployed[c]) else Missing
  }

  /** The install of a component goes as the fault sets say. */
  predicate GoesAs(io: Io, target: Item<string>, fails: bool, loses: bool) {
    var d := Dir(target, Missing, Missing);
    && (Trace(d, "", io).1 <==> !fails && !loses)
    && (loses <==> io.copy && io.mode && !target.Missing? && io.moveAside && !io.moveIn && !io.moveBack)
  }

  /** A deploy leaves what the install of the new version leaves. */
  lemma DeployIsInstall(w: World, a: Artifact, f: Faults, io: Io)
    requires GoesAs(io, Target(w, a.component), a.component in f.deploy, a.component in f.lost)
    ensures var d := Dir(Target(w, a.component), Missing, Missing);
            && Target(DeployOne(w, a, f).0, a.component) == Installed(d, a.version, io).target
            && DeployOne(w, a, f).1 == Trace(d, a.version, io).1
  {
    InstallOutcome(Dir(Target(w, a.component), Missing, Missing), a.version, io);
  }

  /** A restore leaves what the install of the snapshot leaves. */
  lemma RestoreIsInstall(w: World, c: Component, f: RestoreFaults, io: Io)
    requires w.Entry(c).rollback.Some? && c in w.snapshots
    requires GoesAs(io, Target(w, c), c in f.kept, c in f.lost)
    ensures var d := Dir(Target(w, c), Missing, Missing);
            && Target(RollbackOne(w, c, f).0, c) == Installed(d, w.snapshots[c], io).target
            && RollbackOne(w, c, f).1 == Trace(d, w.snapshots[c], io).1
  {
    InstallOutcome(Dir(Target(w, c), Missing, Missing), w.snapshots[c], io);
  }

  // ---------------------------------------------------------------------------
  // The record matches what is deployed
  // ---------------------------------------------------------------------------

  predicate Consistent(w: World, c: Component) {
    && (w.Recorded(c).Some? ==> c in w.deployed && w.deployed[c] == w.Recorded(c).value)
    && (w.Entry(c).rollback.Some? && c in w.snapshots && c !in w.rolledBack ==>
          w.snapshots[c] == w.Entry(c).rollback.value)
  }

  datatype Op =
    | Check(manifest: Manifest, built: string)
    | Apply(selected: seq<Component>, manifest: Manifest, built: string, faults: Faults)
    | Rollback(selected: seq<Component>, restore: RestoreFaults)

  function After(w: World, op: Op): World {
    match op
    case Check(m, built) => CheckAll(w, m, built)
    case Apply(selected, m, built, f) => AfterApply(w, selected, m, built, f)
    case Rollback(selected, f) => RollbackAll(w, selected, f).0
  }

  predicate AllDeploy(downloads: seq<Artifact>, f: Faults) {
    forall j :: 0 <= j < |downloads| ==> downloads[j].component !in f.deploy + f.lost
  }

  /** A deploy of the component is reached: no download before it fails to deploy. */
  predicate Reaches(downloads: seq<Artifact>, f: Faults, c: Component) {
    downloads != [] &&
    var n := |downloads| - 1;
    Reaches(downloads[..n], f, c) || (downloads[n].component == c && AllDeploy(downloads[..n], f))
  }

  /** An apply loses what is deployed: it gets as far as the component's deploy, which moves the
      old version aside and then fails to move either in. */
  predicate ApplyLoses(w: World, selected: seq<Component>, m: Manifest, built: string, f: Faults, c: Component) {
    var downloads := Downloads(w, selected, m, built);
    && !DownloadFails(downloads, f) && !f.config && SnapshotAll(w, selected, f).1
    && c in f.lost && Reaches(downloads, f, c)
  }

  /** A component has nothing to roll back to, or its restore works. */
  predicate RestoreGoes(w: World, d: Component, f: RestoreFaults) {
    w.Entry(d).rollback.Some? ==> d in w.snapshots && d !in f.kept + f.lost
  }

  predicate RestoreLoses(w: World, c: Component, f: RestoreFaults) {
    w.Entry(c).rollback.Some? && c in w.snapshots && c in f.lost
  }

  /** A rollback loses what is deployed: it gets as far as the component's restore, which does so. */
  predicate RollbackLoses(w: World, selected: seq<Component>, f: RestoreFaults, c: Component) {
    selected != [] &&
    var n := |selected| - 1;
    || RollbackLoses(w, selected[..n], f, c)
    || (selected[n] == c && RestoreLoses(w, c, f) && forall d :: d in selected[..n] ==> RestoreGoes(w, d, f))
  }

  /** The hypotheses for one component: a check that records it for the first time runs in the
      release that is deployed, it is rolled back at most once per snapshot, and no install loses
      it while its version is on record. What happens to the other component does not matter. */
  predicate Orderly(w: World, op: Op, c: Component) {
    match op
    case Check(m, built) => Find(m, c).Some? && w.Recorded(c).None? ==> c in w.deployed && w.deployed[c] == built
    case Apply(selected, m, built, f) => w.Recorded(c).Some? ==> !ApplyLoses(w, selected, m, built, f, c)
    case Rollback(selected, f) =>
      && (c in selected ==> c !in w.rolledBack) && AtMostOnce(selected, c)
      && (w.Recorded(c).Some? ==> !RollbackLoses(w, selected, f, c))
  }

  predicate OrderlyRun(w: World, ops: seq<Op>, c: Component)
    decreases |ops|
  {
    ops == [] || (Orderly(w, ops[0], c) && OrderlyRun(After(w, ops[0]), ops[1..], c))
  }

  function Exec(w: World, ops: seq<Op>): World
    decreases |ops|
  {
    if ops == [] then w else Exec(After(w, ops[0]), ops[1..])
  }

  /** One check of one artifact keeps the record right exactly when a version was recorded
      before or the running binary's version is the one deployed. */
  lemma CheckOneKeepsConsistentIff(w: World, a: Artifact, built: string)
    requires Consistent(w, a.component)
    ensures Consistent(CheckOne(w, a, built), a.component) <==>
            w.Recorded(a.component).Some? || (a.component in w.deployed && w.deployed[a.component] == built)
    ensures CheckOne(w, a, built).Recorded(a.component).Some?
    ensures CheckOne(w, a, built).deployed == w.deployed
  {
  }

  lemma {:induction false} CheckKeepsConsistent(w: World, m: Manifest, built: string, c: Component)
    requires Consistent(w, c) && Orderly(w, Check(m, built), c)
    ensures Consistent(CheckAll(w, m, built), c)
    ensures CheckAll(w, m, built).deployed == w.deployed
    ensures Find(m, c).None? ==> CheckAll(w, m, built).Recorded(c) == w.Recorded(c)
  {
    if m != [] {
      var n := |m| - 1;
      FindPrefix(m, n, c);
      FindLast(m, c);
      CheckKeepsConsistent(w, m[..n], built, c);
      var w' := CheckAll(w, m[..n], built);
      if m[n].component == c {
        if w'.Recorded(c).None? {
          CheckRecordsOnlyListed(w, m[..n], built, c);
        }
        CheckOneKeepsConsistentIff(w', m[n], built);
      }
    }
  }

  lemma {:induction false} FindPrefix(m: Manifest, k: nat, c: Component)
    requires k <= |m|
    ensures Find(m[..k], c).Some? ==> Find(m, c) == Find(m[..k], c)
  {
    if k > 0 {
      assert m[..k][1..] == m[1..][..k - 1];
      FindPrefix(m[1..], k - 1, c);
    }
  }

  lemma {:induction false} FindLast(m: Manifest, c: Component)
    requires m != []
    ensures m[|m| - 1].component == c ==> Find(m, c).Some?
  {
    if |m| > 1 {
      FindLast(m[1..], c);
    }
  }

  lemma {:induction false} CheckRecordsOnlyListed(w: World, m: Manifest, built: string, c: Component)
    ensures w.Recorded(c).Some? ==> CheckAll(w, m, built).Recorded(c) == w.Recorded(c)
    ensures CheckAll(w, m, built).Recorded(c).None? ==> w.Recorded(c).None?
  {
    if m != [] {
      CheckRecordsOnlyListed(w, m[..|m| - 1], built, c);
    }
  }

  lemma SnapshotOneKeepsConsistent(w: World, d: Component, f: Faults, c: Component)
    requires Consistent(w, c)
    ensures var w' := SnapshotOne(w, d, f).0;
            Consistent(w', c) && w'.Recorded(c) == w.Recorded(c) && w'.Entry(c).current == w.Entry(c).current
  {
  }

  lemma {:induction false} SnapshotsKeepConsistent(w: World, selected: seq<Component>, f: Faults, c: Component)
    requires Consistent(w, c)
    ensures var w' := SnapshotAll(w, selected, f).0;
            Consistent(w', c) && w'.Recorded(c) == w.Recorded(c) && w'.Entry(c).current == w.Entry(c).current
  {
    if selected != [] {
      var n := |selected| - 1;
      SnapshotsKeepConsistent(w, selected[..n], f, c);
      SnapshotOneKeepsConsistent(SnapshotAll(w, selected[..n], f).0, selected[n], f, c);
    }
  }

  lemma DeployOneKeepsConsistentIff(w: World, a: Artifact, f: Faults, c: Component)
    requires Consistent(w, c)
    ensures Consistent(DeployOne(w, a, f).0, c) <==> !(a.component == c && c in f.lost && w.Recorded(c).Some?)
  {
  }

  lemma {:induction false} DeploysGoIff(w: World, downloads: seq<Artifact>, f: Faults)
    ensures DeployAll(w, downloads, f).1 <==> AllDeploy(downloads, f)
    ensures forall c :: c in f.lost ==> DeployAll(w, downloads, f).0.Entry(c) == w.Entry(c)
  {
    if downloads != [] {
      DeploysGoIff(w, downloads[..|downloads| - 1], f);
    }
  }

  lemma {:induction false} LosingStopsTheDeploys(downloads: seq<Artifact>, f: Faults, c: Component)
    requires Reaches(downloads, f, c) && c in f.lost
    ensures !AllDeploy(downloads, f)
  {
    var n := |downloads| - 1;
    if Reaches(downloads[..n], f, c) {
      LosingStopsTheDeploys(downloads[..n], f, c);
    }
  }

  lemma {:induction false} DeploysKeepConsistentIff(w: World, downloads: seq<Artifact>, f: Faults, c: Component)
    requires Consistent(w, c)
    ensures Consistent(DeployAll(w, downloads, f).0, c) <==>
            !(c in f.lost && Reaches(downloads, f, c) && w.Recorded(c).Some?)
  {
    if downloads != [] {
      var n := |downloads| - 1;
      var init := downloads[..n];
      DeploysKeepConsistentIff(w, init, f, c);
      DeploysGoIff(w, init, f);
      if c in f.lost && Reaches(init, f, c) {
        LosingStopsTheDeploys(init, f, c);
      }
      if AllDeploy(init, f) {
        DeployOneKeepsConsistentIff(DeployAll(w, init, f).0, downloads[n], f, c);
      }
    }
  }

  /** An apply, wherever it fails, keeps the record right exactly unless it loses a version that
      is on record. */
  lemma ApplyKeepsConsistentIff(w: World, selected: seq<Component>, m: Manifest, built: string, f: Faults, c: Component)
    requires Consistent(w, c)
    ensures Consistent(AfterApply(w, selected, m, built, f), c) <==>
            !(ApplyLoses(w, selected, m, built, f, c) && w.Recorded(c).Some?)
  {
    var downloads := Downloads(w, selected, m, built);
    SnapshotsKeepConsistent(w, selected, f, c);
    DeploysKeepConsistentIff(SnapshotAll(w, selected, f).0, downloads, f, c);
  }

  /** The first rollback after a snapshot keeps the record right exactly unless it loses a version
      that is on record; the other component's record is not touched. */
  lemma RollbackOneKeepsConsistentIff(w: World, d: Component, f: RestoreFaults, c: Component)
    requires Consistent(w, c) && (d == c ==> c !in w.rolledBack)
    ensures Consistent(RollbackOne(w, d, f).0, c) <==> !(d == c && RestoreLoses(w, c, f) && w.Recorded(c).Some?)
    ensures d != c ==> (c in RollbackOne(w, d, f).0.rolledBack <==> c in w.rolledBack)
  {
    if d == c {
      OwnRollbackKeepsConsistentIff(w, f, c);
    } else {
      OtherRollbackTouchesNothing(w, d, f, c);
    }
  }

  lemma OtherRollbackTouchesNothing(w: World, d: Component, f: RestoreFaults, c: Component)
    requires d != c
    ensures var w' := RollbackOne(w, d, f).0;
            && w'.Entry(c) == w.Entry(c) && w'.snapshots == w.snapshots
            && (c in w'.deployed <==> c in w.deployed) && (c in w.deployed ==> w'.deployed[c] == w.deployed[c])
            && (c in w'.rolledBack <==> c in w.rolledBack)
  {
  }

  lemma OwnRollbackKeepsConsistentIff(w: World, f: RestoreFaults, c: Component)
    requires Consistent(w, c) && c !in w.rolledBack
    ensures Consistent(RollbackOne(w, c, f).0, c) <==> !(RestoreLoses(w, c, f) && w.Recorded(c).Some?)
  {
  }

  lemma RollbackOneGoesIff(w: World, d: Component, f: RestoreFaults)
    ensures var (w', ok) := RollbackOne(w, d, f);
            && (ok <==> RestoreGoes(w, d, f))
            && w'.snapshots == w.snapshots
            && (forall e :: e != d ==> w'.Entry(e) == w.Entry(e))
            && (ok ==> forall e :: RestoreGoes(w', e, f) <==> RestoreGoes(w, e, f))
  {
  }

  /** How far a rollback gets is known from the start. */
  lemma {:induction false} RollbackGoesIff(w: World, selected: seq<Component>, f: RestoreFaults)
    ensures var (w', ok) := RollbackAll(w, selected, f);
            && (ok <==> forall d :: d in selected ==> RestoreGoes(w, d, f))
            && w'.snapshots == w.snapshots
            && (forall d :: d !in selected ==> w'.Entry(d) == w.Entry(d))
            && (ok ==> forall d :: RestoreGoes(w', d, f) <==> RestoreGoes(w, d, f))
  {
    if selected != [] {
      var n := |selected| - 1;
      var init, last := selected[..n], selected[n];
      RollbackGoesIff(w, init, f);
      RollbackOneGoesIff(RollbackAll(w, init, f).0, last, f);
      assert forall d :: d in selected <==> d in init || d == last;
    }
  }

  predicate AtMostOnce(selected: seq<Component>, c: Component) {
    forall i, j :: 0 <= i < j < |selected| ==> selected[i] != c || selected[j] != c
  }

  lemma {:induction false} LosingIsNotGoing(w: World, selected: seq<Component>, f: RestoreFaults, c: Component)
    requires RollbackLoses(w, selected, f, c)
    ensures c in selected && !RestoreGoes(w, c, f)
  {
    var n := |selected| - 1;
    if RollbackLoses(w, selected[..n], f, c) {
      LosingIsNotGoing(w, selected[..n], f, c);
    }
  }

  /** The same for a rollback of several components. */
  lemma {:induction false} RollbackKeepsConsistentIff(w: World, selected: seq<Component>, f: RestoreFaults,
                                                      c: Component)
    requires Consistent(w, c) && (c in selected ==> c !in w.rolledBack) && AtMostOnce(selected, c)
    ensures Consistent(RollbackAll(w, selected, f).0, c) <==> !(RollbackLoses(w, selected, f, c) && w.Recorded(c).Some?)
    ensures c !in selected ==> (c in RollbackAll(w, selected, f).0.rolledBack <==> c in w.rolledBack)
  {
    if selected != [] {
      var n := |selected| - 1;
      var init := selected[..n];
      assert selected == init + [selected[n]];
      RollbackKeepsConsistentIff(w, init, f, c);
      RollbackGoesIff(w, init, f);
      var (w', ok) := RollbackAll(w, init, f);
      assert selected[n] == c ==> c !in init;
      if RollbackLoses(w, init, f, c) {
        LosingIsNotGoing(w, init, f, c);
      }
      if ok {
        RollbackOneKeepsConsistentIff(w', selected[n], f, c);
      }
    }
  }

  /** A rollback that goes through keeps the record right exactly when the snapshot is of the
      version it takes the snapshot to be. */
  lemma RollbackRecordsIff(w: World, c: Component)
    requires w.Entry(c).rollback.Some? && c in w.snapshots
    ensures var w' := RollbackOne(w, c, NO_FAULTS).0;
            && w'.Recorded(c).Some? && c in w'.deployed
            && (w'.deployed[c] == w'.Recorded(c).value <==> w.snapshots[c] == w.Entry(c).rollback.value)
  {
  }

  /** Two rollbacks in a row install the same snapshot twice but swap the record, which is
      then wrong exactly when there were two different versions to swap. */
  lemma SecondRollbackMisrecordsIff(w: World, c: Component)
    requires Consistent(w, c) && c !in w.rolledBack
    requires w.Entry(c).rollback.Some? && w.Entry(c).current.Some? && c in w.snapshots
    ensures var w1 := RollbackOne(w, c, NO_FAULTS).0;
            var w2 := RollbackOne(w1, c, NO_FAULTS).0;
            && Consistent(w1, c)
            && w2.deployed[c] == w1.deployed[c] == w.snapshots[c]
            && (!Consistent(w2, c) <==> w.Entry(c).current != w.Entry(c).rollback)
  {
  }

  lemma StepKeepsConsistent(w: World, op: Op, c: Component)
    requires Consistent(w, c) && Orderly(w, op, c)
    ensures Consistent(After(w, op), c)
  {
    match op
    case Check(m, built) => CheckKeepsConsistent(w, m, built, c);
    case Apply(selected, m, built, f) => ApplyKeepsConsistentIff(w, selected, m, built, f, c);
    case Rollback(selected, f) => RollbackKeepsConsistentIff(w, selected, f, c);
  }

  /** Over every orderly run, whatever fails in it, a recorded version is the deployed one. */
  lemma {:induction false} RecordMatchesDeployment(w: World, ops: seq<Op>, c: Component)
    requires Consistent(w, c) && OrderlyRun(w, ops, c)
    ensures var t := Exec(w, ops);
            t.Recorded(c).Some? ==> c in t.deployed && t.deployed[c] == t.Recorded(c).value
    decreases |ops|
  {
    if ops != [] {
      StepKeepsConsistent(w, ops[0], c);
      RecordMatchesDeployment(After(w, ops[0]), ops[1..], c);
    }
  }

  /** Without the hypothesis on first checks the record can be wrong: on an appliance built
      as `v1` the core is updated to `v2` before the UI was ever recorded, restarts as `v2`, and
      the next check takes that for the UI's version, so that no update is offered for it. */
  lemma FirstCheckAfterACoreUpdateMisrecordsTheUi(v1: string, v2: string)
    requires v1 != v2
    ensures var w := World(map[], map[Core := v1, Ui := v1], map[], {});
            var apply := Apply([Core], [Artifact(Core, v2)], v1, Faults({}, false, {}, {}, {}, {}));
            var t := Exec(w, [apply, Check([Artifact(Ui, v2)], v2)]);
            && Consistent(w, Ui) && Ui in t.deployed && t.deployed[Ui] == v1
            && t.Recorded(Ui) == Some(v2) && !t.Entry(Ui).updateAvailable
  {
    var w := World(map[], map[Core := v1, Ui := v1], map[], {});
    var f := Faults({}, false, {}, {}, {}, {});
    var mc, mu := [Artifact(Core, v2)], [Artifact(Ui, v2)];
    var apply, check := Apply([Core], mc, v1, f), Check(mu, v2);
    assert [Core][..0] == [] && mc[..0] == [] && mu[..0] == [];
    assert Downloads(w, [Core], mc, v1) == Downloads(w, [], mc, v1) + mc == mc;
    assert !DownloadFails(mc, f);
    var w1 := SnapshotOne(w, Core, f).0;
    assert SnapshotAll(w, [Core], f) == (w1, true);
    var w2 := DeployOne(w1, mc[0], f).0;
    assert DeployAll(w1, mc, f).0 == w2;
    assert After(w, apply) == w2;
    assert CheckAll(w2, mu, v2) == CheckOne(w2, mu[0], v2);
    NotNewerThanItself(v2);
    assert [apply, check][1..] == [check] && [check][1..] == [];
    assert Exec(w2, [check]) == Exec(CheckOne(w2, mu[0], v2), []);
  }

  // ---------------------------------------------------------------------------
  // What a check offers, an apply installs and a rollback brings back
  // ---------------------------------------------------------------------------

  /** The manifest's first artifact for a component counts. */
  lemma {:induction false} FindIsFirst(m: Manifest, c: Component, k: nat)
    requires k < |m| && m[k].component == c && forall j :: 0 <= j < k ==> m[j].component != c
    ensures Find(m, c) == Some(m[k].version)
  {
    if k > 0 {
      assert m[0].component != c;
      FindIsFirst(m[1..], c, k - 1);
    }
  }

  lemma {:induction false} FindsNothing(m: Manifest, c: Component)
    requires forall a :: a in m ==> a.component != c
    ensures Find(m, c) == None
  {
    if m != [] {
      assert m[0] in m;
      FindsNothing(m[1..], c);
    }
  }

  /** The version a component is taken to have: the recorded one, else the last one applied, else
      that of the running binary. */
  predicate TakenFor(e: ComponentState, built: string, v: string) {
    if e.current.Some? then v == e.current.value
    else if e.lastApplied.Some? then v == e.lastApplied.value
    else v == built
  }

  /** After a check a component listed is recorded with the version it is taken for, with the
      version listed last for it, and with an update on offer exactly if that is newer. */
  lemma {:induction false} CheckOffersWhatIsNewer(w: World, m: Manifest, built: string, c: Component, k: nat)
    requires k < |m| && m[k].component == c && forall j :: k < j < |m| ==> m[j].component != c
    ensures var e := CheckAll(w, m, built).Entry(c);
            && e.current.Some? && TakenFor(w.Entry(c), built, e.current.value)
            && e.remote == Some(m[k].version) && (e.updateAvailable <==> Newer(e.current.value, m[k].version))
            && e.lastApplied == w.Entry(c).lastApplied && e.rollback == w.Entry(c).rollback
  {
    var n := |m| - 1;
    if k < n {
      assert m[n].component != c;
      CheckOffersWhatIsNewer(w, m[..n], built, c, k);
    } else {
      CheckKeepsTakenFor(w, m[..n], built, c);
    }
  }

  /** One not listed is left alone, and no check touches what is deployed. */
  lemma {:induction false} CheckLeavesTheRest(w: World, m: Manifest, built: string, c: Component)
    ensures CheckAll(w, m, built).deployed == w.deployed && CheckAll(w, m, built).snapshots == w.snapshots
    ensures (forall a :: a in m ==> a.component != c) ==> CheckAll(w, m, built).Entry(c) == w.Entry(c)
  {
    if m != [] {
      var n := |m| - 1;
      assert m[n] in m;
      CheckLeavesTheRest(w, m[..n], built, c);
    }
  }

  lemma {:induction false} CheckKeepsTakenFor(w: World, m: Manifest, built: string, c: Component)
    ensures var e := CheckAll(w, m, built).Entry(c);
            && Baseline(e, built) == Baseline(w.Entry(c), built)
            && e.lastApplied == w.Entry(c).lastApplied && e.rollback == w.Entry(c).rollback
  {
    if m != [] {
      CheckKeepsTakenFor(w, m[..|m| - 1], built, c);
    }
  }

  /** An update to a version with a greater number at the first difference is offered. */
  lemma NewerReleaseIsOffered(w: World, c: Component, built: string, cur: seq<nat>, remote: seq<nat>,
                              zc: seq<nat>, zr: seq<nat>, i: nat)
    requires |cur| == |zc| >= 2 && |remote| == |zr| >= 2 && FitsU64(cur) && FitsU64(remote)
    requires TakenFor(w.Entry(c), built, Printed(cur, zc))
    requires Segment(cur, i) != Segment(remote, i) && forall j :: 0 <= j < i ==> Segment(cur, j) == Segment(remote, j)
    ensures CheckOne(w, Artifact(c, Printed(remote, zr)), built).Entry(c).updateAvailable <==>
            Segment(cur, i) < Segment(remote, i)
  {
    NewerAtFirstDifference(cur, remote, zc, zr, i);
  }

  /** An apply fetches exactly the selected artifacts the manifest lists that are newer than the
      version taken, or of a component with no entry yet. */
  lemma {:induction false} FetchesExactly(w: World, selected: seq<Component>, m: Manifest, built: string, a: Artifact)
    ensures a in Downloads(w, selected, m, built) <==>
            && a.component in selected && Find(m, a.component) == Some(a.version)
            && (a.component in w.entries ==>
                  exists v :: TakenFor(w.entries[a.component], built, v) && Newer(v, a.version))
  {
    if selected != [] {
      var n := |selected| - 1;
      FetchesExactly(w, selected[..n], m, built, a);
      assert selected == selected[..n] + [selected[n]];
      if a.component in w.entries {
        assert TakenFor(w.entries[a.component], built, Baseline(w.entries[a.component], built));
      }
    }
  }

  /** A snapshot that fails early leaves the old one, one that fails late none; neither is put on
      record, and what is deployed is never touched. */
  lemma FailedSnapshot(w: World, c: Component, f: Faults)
    ensures var (w', ok) := SnapshotOne(w, c, f);
            && (ok <==> c in w.deployed && c !in f.snapshotEarly + f.snapshotLate)
            && w'.deployed == w.deployed
            && (!ok ==> w'.entries == w.entries && w'.rolledBack == w.rolledBack)
            && (c in f.snapshotEarly ==> w' == w)
            && (!ok && c !in f.snapshotEarly ==> c !in w'.snapshots)
            && forall d :: d != c ==>
                 (d in w'.snapshots <==> d in w.snapshots) && (d in w.snapshots ==> w'.snapshots[d] == w.snapshots[d])
  {
  }

  /** A download or a config snapshot that fails stops an apply before it touches anything. */
  lemma ApplyStopsEarly(w: World, selected: seq<Component>, m: Manifest, built: string, f: Faults)
    requires f.config || exists a :: a in Downloads(w, selected, m, built) && a.component in f.download
    ensures AfterApply(w, selected, m, built, f) == w
  {
  }

  /** A rollback of a component with nothing to go back to, or without its snapshot, changes neither
      record nor deployment; a failed restore leaves the record. */
  lemma RollbackWithoutEffect(w: World, c: Component, f: RestoreFaults)
    ensures var (w', ok) := RollbackOne(w, c, f);
            && (w.Entry(c).rollback.None? || !ok ==> w'.Entry(c) == w.Entry(c) && w'.rolledBack == w.rolledBack)
            && (w.Entry(c).rollback.None? || c !in w.snapshots ==> w'.deployed == w.deployed)
            && (ok && w.Entry(c).rollback.Some? ==>
                  && c in w.snapshots && w'.deployed == w.deployed[c := w.snapshots[c]]
                  && w'.Recorded(c) == w.Entry(c).rollback && w'.Entry(c).rollback == w.Entry(c).current)
  {
  }

  const NO_APPLY_FAULTS := Faults({}, false, {}, {}, {}, {})

  lemma {:induction false} FaultlessSnapshots(w: World, selected: seq<Component>, c: Component)
    requires forall d :: d in selected ==> d in w.deployed
    ensures var (w', ok) := SnapshotAll(w, selected, NO_APPLY_FAULTS);
            && ok && w'.deployed == w.deployed
            && w'.Entry(c).current == w.Entry(c).current && w'.Entry(c).lastApplied == w.Entry(c).lastApplied
            && w'.Entry(c).updateAvailable == w.Entry(c).updateAvailable
            && (c in selected ==>
                  && c in w'.snapshots && w'.snapshots[c] == w.deployed[c]
                  && w'.Entry(c).rollback == w.Recorded(c) && c !in w'.rolledBack)
            && (c !in selected ==>
                  && w'.Entry(c) == w.Entry(c) && (c in w'.snapshots <==> c in w.snapshots)
                  && (c in w.snapshots ==> w'.snapshots[c] == w.snapshots[c]))
  {
    if selected != [] {
      var n := |selected| - 1;
      assert selected == selected[..n] + [selected[n]];
      FaultlessSnapshots(w, selected[..n], c);
    }
  }

  lemma {:induction false} FaultlessDeploys(w: World, downloads: seq<Artifact>, c: Component)
    ensures var (w', ok) := DeployAll(w, downloads, NO_APPLY_FAULTS);
            && ok && w'.snapshots == w.snapshots && w'.rolledBack == w.rolledBack
            && w'.Entry(c).rollback == w.Entry(c).rollback
  {
    if downloads != [] {
      FaultlessDeploys(w, downloads[..|downloads| - 1], c);
    }
  }

  lemma {:induction false} DeploysLeaveTheRest(w: World, downloads: seq<Artifact>, c: Component)
    requires forall a :: a in downloads ==> a.component != c
    ensures var w' := DeployAll(w, downloads, NO_APPLY_FAULTS).0;
            && w'.Entry(c) == w.Entry(c) && (c in w'.deployed <==> c in w.deployed)
            && (c in w.deployed ==> w'.deployed[c] == w.deployed[c])
  {
    if downloads != [] {
      var n := |downloads| - 1;
      assert downloads[n] in downloads;
      DeploysLeaveTheRest(w, downloads[..n], c);
    }
  }

  predicate InPlace(w: World, a: Artifact) {
    var e := w.Entry(a.component);
    && a.component in w.deployed && w.deployed[a.component] == a.version
    && e.current == Some(a.version) && e.lastApplied == Some(a.version) && !e.updateAvailable
  }

  lemma {:induction false} DeploysInstall(w: World, downloads: seq<Artifact>, a: Artifact)
    requires a in downloads && forall b :: b in downloads && b.component == a.component ==> b == a
    ensures InPlace(DeployAll(w, downloads, NO_APPLY_FAULTS).0, a)
  {
    var n := |downloads| - 1;
    assert downloads == downloads[..n] + [downloads[n]];
    FaultlessDeploys(w, downloads[..n], a.component);
    if downloads[n] != a {
      DeploysInstall(w, downloads[..n], a);
      assert downloads[n].component != a.component;
    }
  }

  /** An apply in which nothing fails: what it fetches is deployed and on record, with what was
      there before in the snapshot and on record for a rollback. */
  lemma ApplyInstalls(w: World, selected: seq<Component>, m: Manifest, built: string, a: Artifact)
    requires forall d :: d in selected ==> d in w.deployed
    requires a in Downloads(w, selected, m, built)
    ensures var c, w' := a.component, AfterApply(w, selected, m, built, NO_APPLY_FAULTS);
            && InPlace(w', a) && c in w.deployed
            && c in w'.snapshots && w'.snapshots[c] == w.deployed[c] && w'.Entry(c).rollback == w.Recorded(c)
            && c !in w'.rolledBack
  {
    var downloads := Downloads(w, selected, m, built);
    var c := a.component;
    FetchesExactly(w, selected, m, built, a);
    forall b | b in downloads && b.component == c ensures b == a {
      FetchesExactly(w, selected, m, built, b);
    }
    FaultlessSnapshots(w, selected, c);
    var w1 := SnapshotAll(w, selected, NO_APPLY_FAULTS).0;
    FaultlessDeploys(w1, downloads, c);
    DeploysInstall(w1, downloads, a);
  }

  /** A component not selected is left alone by such an apply. */
  lemma ApplyLeavesTheRest(w: World, selected: seq<Component>, m: Manifest, built: string, c: Component)
    requires (forall d :: d in selected ==> d in w.deployed) && c !in selected
    ensures var w' := AfterApply(w, selected, m, built, NO_APPLY_FAULTS);
            && w'.Entry(c) == w.Entry(c) && (c in w'.deployed <==> c in w.deployed)
            && (c in w.deployed ==> w'.deployed[c] == w.deployed[c])
  {
    var downloads := Downloads(w, selected, m, built);
    forall a | a in downloads ensures a.component != c {
      FetchesExactly(w, selected, m, built, a);
    }
    FaultlessSnapshots(w, selected, c);
    DeploysLeaveTheRest(SnapshotAll(w, selected, NO_APPLY_FAULTS).0, downloads, c);
  }

  /** A rollback right after an apply undoes it: the version deployed before is deployed again and
      on record again, and the one applied is what a further rollback would record. */
  lemma RollbackUndoesApply(w: World, selected: seq<Component>, m: Manifest, built: string, a: Artifact)
    requires forall d :: d in selected ==> d in w.deployed
    requires a in Downloads(w, selected, m, built) && w.Recorded(a.component).Some?
    ensures var c := a.component;
            var w' := AfterApply(w, selected, m, built, NO_APPLY_FAULTS);
            var (t, ok) := RollbackAll(w', [c], NO_FAULTS);
            && ok && c in t.deployed && c in w.deployed && t.deployed[c] == w.deployed[c]
            && t.Recorded(c) == w.Recorded(c) && t.Entry(c).rollback == Some(a.version)
  {
    ApplyInstalls(w, selected, m, built, a);
    var w' := AfterApply(w, selected, m, built, NO_APPLY_FAULTS);
    assert RollbackAll(w', [a.component][..0], NO_FAULTS) == (w', true);
  }

  // ---------------------------------------------------------------------------
  // Versions only go up
  // ---------------------------------------------------------------------------

  predicate Parsed(v: string) {
    Segments(v).Some?
  }

  predicate OffersParse(m: Manifest, c: Component) {
    forall a :: a in m && a.component == c ==> Parsed(a.version)
  }

  /** Checks and applies, the component's offers having versions that parse, and no rollback of it. */
  predicate Forward(op: Op, c: Component) {
    match op
    case Check(_, _) => true
    case Apply(_, m, _, _) => OffersParse(m, c)
    case Rollback(selected, _) => c !in selected
  }

  /** `v` or a later version is recorded as current. */
  predicate AtLeast(w: World, c: Component, v: string)
    requires Parsed(v)
  {
    var cur := w.Entry(c).current;
    cur.Some? && Parsed(cur.value) && !Less(Segments(cur.value).value, Segments(v).value)
  }

  lemma {:induction false} CheckKeepsCurrent(w: World, m: Manifest, built: string, c: Component)
    requires w.Entry(c).current.Some?
    ensures CheckAll(w, m, built).Entry(c).current == w.Entry(c).current
  {
    if m != [] {
      CheckKeepsCurrent(w, m[..|m| - 1], built, c);
    }
  }

  lemma {:induction false} FindIsListed(m: Manifest, c: Component)
    ensures Find(m, c).Some? ==> Artifact(c, Find(m, c).value) in m
  {
    if m != [] && m[0].component != c {
      FindIsListed(m[1..], c);
    }
  }

  lemma {:induction false} DownloadsAreNewer(w: World, selected: seq<Component>, m: Manifest, built: string)
    ensures forall a :: a in Downloads(w, selected, m, built) ==>
              a in m && a.component in selected && !UpToDate(w, a.component, a.version, built)
  {
    if selected != [] {
      var n := |selected| - 1;
      DownloadsAreNewer(w, selected[..n], m, built);
      FindIsListed(m, selected[n]);
    }
  }

  lemma {:induction false} DeploysKeepAtLeast(w: World, downloads: seq<Artifact>, f: Faults, c: Component, v: string)
    requires Parsed(v) && AtLeast(w, c, v)
    requires forall a :: a in downloads && a.component == c ==>
               Parsed(a.version) && !Less(Segments(a.version).value, Segments(v).value)
    ensures AtLeast(DeployAll(w, downloads, f).0, c, v)
  {
    if downloads != [] {
      var n := |downloads| - 1;
      assert downloads[n] in downloads;
      DeploysKeepAtLeast(w, downloads[..n], f, c, v);
    }
  }

  lemma StepKeepsAtLeast(w: World, op: Op, c: Component, v: string)
    requires Parsed(v) && AtLeast(w, c, v) && Forward(op, c)
    ensures AtLeast(After(w, op), c, v)
  {
    match op
    case Check(m, built) => CheckKeepsCurrent(w, m, built, c);
    case Apply(selected, m, built, f) =>
      var downloads := Downloads(w, selected, m, built);
      DownloadsAreNewer(w, selected, m, built);
      var cur := w.Entry(c).current.value;
      forall a | a in downloads && a.component == c
        ensures Parsed(a.version) && !Less(Segments(a.version).value, Segments(v).value)
      {
        assert c in w.entries && Newer(cur, a.version);
        ForwardIsNotBelow(v, cur, a.version);
      }
      SnapshotsKeepCurrent(w, selected, f, c);
      DeploysKeepAtLeast(SnapshotAll(w, selected, f).0, downloads, f, c, v);
    case Rollback(selected, f) => OtherRollbacksKeepCurrent(w, selected, f, c);
  }

  lemma ForwardIsNotBelow(v: string, cur: string, next: string)
    requires Parsed(v) && Parsed(cur) && Parsed(next)
    requires !Less(Segments(cur).value, Segments(v).value) && Less(Segments(cur).value, Segments(next).value)
    ensures Less(Segments(v).value, Segments(next).value)
    ensures !Less(Segments(next).value, Segments(v).value)
  {
    var sv, sc, sn := Segments(v).value, Segments(cur).value, Segments(next).value;
    if !Less(sv, sn) {
      NotLessTransitive(sc, sv, sn);
    }
    if Less(sn, sv) {
      LessTransitive(sn, sv, sn);
      LessIrreflexive(sn);
    }
  }

  lemma {:induction false} SnapshotsKeepCurrent(w: World, selected: seq<Component>, f: Faults, c: Component)
    ensures SnapshotAll(w, selected, f).0.Entry(c).current == w.Entry(c).current
  {
    if selected != [] {
      SnapshotsKeepCurrent(w, selected[..|selected| - 1], f, c);
    }
  }

  lemma OtherRollbacksKeepCurrent(w: World, selected: seq<Component>, f: RestoreFaults, c: Component)
    requires c !in selected
    ensures RollbackAll(w, selected, f).0.Entry(c).current == w.Entry(c).current
  {
    RollbackGoesIff(w, selected, f);
  }

  lemma {:induction false} RunKeepsAtLeast(w: World, ops: seq<Op>, c: Component, v: string)
    requires Parsed(v) && AtLeast(w, c, v) && forall op :: op in ops ==> Forward(op, c)
    ensures AtLeast(Exec(w, ops), c, v)
    decreases |ops|
  {
    if ops != [] {
      assert ops[0] in ops;
      StepKeepsAtLeast(w, ops[0], c, v);
      RunKeepsAtLeast(After(w, ops[0]), ops[1..], c, v);
    }
  }

  /** Once `v` is recorded, no run without a rollback of the component records a lower version,
      and whatever a later check offers is strictly newer than `v`; in particular `v` is not
      offered again. */
  lemma NoDowngradeAndNoRepeatedOffer(w: World, ops: seq<Op>, c: Component, v: string, offer: string, built: string)
    requires Parsed(v) && Parsed(offer) && w.Entry(c).current == Some(v)
    requires forall op :: op in ops ==> Forward(op, c)
    ensures AtLeast(Exec(w, ops), c, v)
    ensures CheckOne(Exec(w, ops), Artifact(c, offer), built).Entry(c).updateAvailable ==> Newer(v, offer) && offer != v
  {
    LessIrreflexive(Segments(v).value);
    RunKeepsAtLeast(w, ops, c, v);
    var cur := Exec(w, ops).Entry(c).current.value;
    if Newer(cur, offer) {
      ForwardIsNotBelow(v, cur, offer);
    }
  }

  // ---------------------------------------------------------------------------
  // The manager
  // ---------------------------------------------------------------------------

  class UpdateManager {
    var entries: map<Component, ComponentState>
    var deployed: map<Component, string>
    var snapshots: map<Component, string>
    ghost var rolledBack: set<Component>

    constructor (w: World)
      ensures Now() == w
    {
      entries, deployed, snapshots, rolledBack := w.entries, w.deployed, w.snapshots, w.rolledBack;
    }

    ghost function Now(): World
      reads this
    {
      World(entries, deployed, snapshots, rolledBack)
    }

    method EnsureEntry(c: Component) returns (e: ComponentState)
      modifies `entries
      ensures e == old(Now()).Entry(c)
      ensures Now() == old(Now()).Set(c, e)
    {
      if c !in entries {
        entries := entries[c := NO_STATE];
      }
      e := entries[c];
      assert entries == old(entries)[c := e];
    }

    method CheckForUpdates(m: Manifest, built: string)
      modifies this
      ensures Now() == CheckAll(old(Now()), m, built)
    {
      for k := 0 to |m|
        invariant Now() == CheckAll(old(Now()), m[..k], built)
      {
        assert m[..k + 1][..k] == m[..k];
        var a := m[k];
        ghost var before := Now();
        var e := EnsureEntry(a.component);
        var current := Baseline(e, built);
        var available := IsRemoteVersionNewer(current, a.version);
        entries := entries[a.component :=
          e.(current := Some(current), remote := Some(a.version), updateAvailable := available)];
        assert entries == before.entries[a.component := entries[a.component]];
        assert Now() == CheckOne(before, a, built);
      }
      assert m[..|m|] == m;
    }

    method ApplyUpdates(selected: seq<Component>, m: Manifest, built: string, f: Faults) returns (ok: bool)
      modifies this
      ensures Now() == AfterApply(old(Now()), selected, m, built, f)
      ensures ok <==> ApplySucceeds(old(Now()), selected, m, built, f)
    {
      ghost var w := Now();
      var downloads := FetchArtifacts(selected, m, built);
      if DownloadFails(downloads, f) || downloads == [] || f.config {
        return downloads == [];
      }
      ok := SnapshotSelected(selected, f);
      if ok {
        DeploysGoIff(SnapshotAll(w, selected, f).0, downloads, f);
        ok := DeployDownloads(downloads, f);
      }
    }

    method FetchArtifacts(selected: seq<Component>, m: Manifest, built: string) returns (downloads: seq<Artifact>)
      ensures downloads == Downloads(Now(), selected, m, built)
    {
      downloads := [];
      for k := 0 to |selected|
        invariant downloads == Downloads(Now(), selected[..k], m, built)
      {
        assert selected[..k + 1][..k] == selected[..k];
        var v := Find(m, selected[k]);
        if v.Some? {
          var skip := false;
          if selected[k] in entries {
            var newer := IsRemoteVersionNewer(Baseline(entries[selected[k]], built), v.value);
            skip := !newer;
          }
          if !skip {
            downloads := downloads + [Artifact(selected[k], v.value)];
          }
        }
      }
      assert selected[..|selected|] == selected;
    }

    method SnapshotSelected(selected: seq<Component>, f: Faults) returns (ok: bool)
      modifies this
      ensures (Now(), ok) == SnapshotAll(old(Now()), selected, f)
    {
      for k := 0 to |selected|
        invariant (Now(), true) == SnapshotAll(old(Now()), selected[..k], f)
      {
        assert selected[..k + 1][..k] == selected[..k];
        ok := SnapshotComponent(selected[k], f);
        if !ok {
          SnapshotStopsAt(old(Now()), selected, k, f);
          return false;
        }
      }
      assert selected[..|selected|] == selected;
      return true;
    }

    /** Takes the snapshot and puts on record what it is of. */
    method SnapshotComponent(c: Component, f: Faults) returns (ok: bool)
      modifies this
      ensures (Now(), ok) == SnapshotOne(old(Now()), c, f)
    {
      ok := SnapshotRuntime(c, f);
      if ok {
        var e := EnsureEntry(c);
        entries := entries[c := e.(rollback := e.current.Or(e.lastApplied))];
        assert entries == old(entries)[c := entries[c]];
      }
    }

    method DeployDownloads(downloads: seq<Artifact>, f: Faults) returns (ok: bool)
      modifies this
      ensures (Now(), ok) == DeployAll(old(Now()), downloads, f)
    {
      for k := 0 to |downloads|
        invariant (Now(), true) == DeployAll(old(Now()), downloads[..k], f)
      {
        assert downloads[..k + 1][..k] == downloads[..k];
        var a := downloads[k];
        ghost var before := Now();
        if a.component in f.deploy + f.lost {
          if a.component in f.lost {
            deployed := deployed - {a.component};
          }
          assert Now() == DeployOne(before, a, f).0;
          DeployStopsAt(old(Now()), downloads, k, f);
          return false;
        }
        deployed := deployed[a.component := a.version];
        var e := EnsureEntry(a.component);
        entries := entries[a.component :=
          e.(current := Some(a.version), lastApplied := Some(a.version), updateAvailable := false)];
        assert entries == before.entries[a.component := entries[a.component]];
        assert Now() == DeployOne(before, a, f).0;
      }
      assert downloads[..|downloads|] == downloads;
      return true;
    }

    /** Replaces the component's rollback snapshot with a copy of what is deployed. */
    method SnapshotRuntime(c: Component, f: Faults) returns (ok: bool)
      modifies `snapshots, `rolledBack
      ensures ok == SnapshotOne(old(Now()), c, f).1
      ensures Now() == SnapshotOne(old(Now()), c, f).0.(entries := old(entries))
    {
      if c in f.snapshotEarly {
        return false;
      }
      snapshots := snapshots - {c};
      if c !in deployed || c in f.snapshotLate {
        return false;
      }
      snapshots := snapshots[c := deployed[c]];
      rolledBack := rolledBack - {c};
      assert snapshots == old(snapshots)[c := deployed[c]];
      return true;
    }

    method RollbackUpdates(selected: seq<Component>, f: RestoreFaults) returns (ok: bool)
      modifies this
      ensures (Now(), ok) == RollbackAll(old(Now()), selected, f)
    {
      for k := 0 to |selected|
        invariant (Now(), true) == RollbackAll(old(Now()), selected[..k], f)
      {
        assert selected[..k + 1][..k] == selected[..k];
        var c := selected[k];
        ghost var before := Now();
        var e := EnsureEntry(c);
        if e.rollback.Some? {
          if c !in snapshots {
            RollbackStopsAt(old(Now()), selected, k, f);
            return false;
          }
          if c in f.kept + f.lost {
            if c in f.lost {
              deployed := deployed - {c};
            }
            assert Now() == RollbackOne(before, c, f).0;
            RollbackStopsAt(old(Now()), selected, k, f);
            return false;
          }
          deployed := deployed[c := snapshots[c]];
          rolledBack := rolledBack + {c};
          entries := entries[c := e.(current := e.rollback, lastApplied := e.rollback, rollback := e.current)];
          assert entries == before.entries[c := entries[c]];
        }
        assert Now() == RollbackOne(before, c, f).0;
      }
      assert selected[..|selected|] == selected;
      return true;
    }
  }

  lemma {:induction false} SnapshotStopsAt(w: World, selected: seq<Component>, k: nat, f: Faults)
    requires k < |selected|
    requires !SnapshotAll(w, selected[..k + 1], f).1
    ensures SnapshotAll(w, selected, f) == SnapshotAll(w, selected[..k + 1], f)
    decreases |selected|
  {
    if k + 1 < |selected| {
      var n := |selected| - 1;
      assert selected[..n][..k + 1] == selected[..k + 1];
      SnapshotStopsAt(w, selected[..n], k, f);
    } else {
      assert selected[..k + 1] == selected;
    }
  }

  lemma {:induction false} DeployStopsAt(w: World, downloads: seq<Artifact>, k: nat, f: Faults)
    requires k < |downloads|
    requires !DeployAll(w, downloads[..k + 1], f).1
    ensures DeployAll(w, downloads, f) == DeployAll(w, downloads[..k + 1], f)
    decreases |downloads|
  {
    if k + 1 < |downloads| {
      var n := |downloads| - 1;
      assert downloads[..n][..k + 1] == downloads[..k + 1];
      DeployStopsAt(w, downloads[..n], k, f);
    } else {
      assert downloads[..k + 1] == downloads;
    }
  }

  lemma {:induction false} RollbackStopsAt(w: World, selected: seq<Component>, k: nat, f: RestoreFaults)
    requires k < |selected|
    requires !RollbackAll(w, selected[..k + 1], f).1
    ensures RollbackAll(w, selected, f) == RollbackAll(w, selected[..k + 1], f)
    decreases |selected|
  {
    if k + 1 < |selected| {
      var n := |selected| - 1;
      assert selected[..n][..k + 1] == selected[..k + 1];
      RollbackStopsAt(w, selected[..n], k, f);
    } else {
      assert selected[..k + 1] == selected;
    }
  }
}
