/**
 A/B root slots: apply, rollback and boot confirmation over `slots.json` and the GRUB
 environment, with reboots, failed boots and power loss as environment events.

 `Disk` is everything that survives a power cut. The class at the end performs the three
 operations field by field; the functions before it say what each leaves on disk, and the
 lemmas are about every run built from them.
 */
module RootfsUpdate {
  import opened Wrappers

  const BOOT_ATTEMPT_LIMIT: nat := 3

  datatype Slot = A | B {
    function Other(): Slot {
      match this case A => B case B => A
    }
  }

  /** What a partition or boot file holds: nothing, a half-written write, or one release. */
  datatype Part = Blank | Torn | Full(version: string)

  /** A slot: its root partition and the kernel and initrd in the shared boot partition.
      `stamped` says whether the root's version file can be read back. */
  datatype SlotImage = SlotImage(root: Part, stamped: bool, kernel: Part, initrd: Part) {
    predicate Complete() {
      root.Full? && kernel == root && initrd == root
    }
  }

  datatype Staged = Staged(version: string, stamped: bool)

  datatype SlotsState = SlotsState(currentSlot: Slot, currentVersion: string,
                                   standbySlot: Slot, standbyVersion: string)

  datatype BootState = Confirmed | Trying

  datatype GrubEnv = GrubEnv(saved: Slot, fallback: Option<Slot>, state: BootState, attempts: Option<nat>)

  datatype Marker = Marker(failedSlot: Slot, failedVersion: string)

  datatype Disk = Disk(imageA: SlotImage, imageB: SlotImage, slots: SlotsState, grub: GrubEnv,
                       recovered: Option<Marker>)
  {
    function Image(s: Slot): SlotImage {
      match s case A => imageA case B => imageB
    }

    function WithImage(s: Slot, img: SlotImage): Disk {
      match s case A => this.(imageA := img) case B => this.(imageB := img)
    }
  }

  // ---------------------------------------------------------------------------
  // The slot record
  // ---------------------------------------------------------------------------

  function ReadBuildVersion(img: SlotImage): Option<string> {
    if img.stamped && img.root.Full? then Some(img.root.version) else None
  }

  function NormalizeVersion(v: Option<string>): Option<string> {
    if v.Some? && v.value != "" && v.value != "unknown" then v else None
  }

  /** The version the record gives for a slot; `build` is the running root's own stamp. */
  function VersionForSlot(slots: SlotsState, slot: Slot, build: Option<string>): Option<string> {
    NormalizeVersion(
      if slot == slots.currentSlot then Some(slots.currentVersion)
      else if slot == slots.standbySlot then Some(slots.standbyVersion)
      else build)
  }

  /** The record names both slots, each with the release that is really on it. */
  predicate RecordRight(d: Disk) {
    && d.slots.currentSlot != d.slots.standbySlot
    && d.Image(d.slots.currentSlot).root == Full(d.slots.currentVersion)
    && d.Image(d.slots.standbySlot).root == Full(d.slots.standbyVersion)
  }

  lemma RightRecordAnswersForBothSlots(d: Disk, slot: Slot, build: Option<string>)
    requires RecordRight(d)
    ensures d.Image(slot).root.Full?
    ensures var v := d.Image(slot).root.version;
            VersionForSlot(d.slots, slot, build) == if v == "" || v == "unknown" then None else Some(v)
  {
    assert slot == d.slots.currentSlot || slot == d.slots.standbySlot;
  }

  // ---------------------------------------------------------------------------
  // apply_staged_image, rollback and signal_boot_success on the disk
  // ---------------------------------------------------------------------------

  const APPLY_STEPS: nat := 10

  function Arm(running: Slot): GrubEnv {
    GrubEnv(running.Other(), Some(running), Trying, Some(BOOT_ATTEMPT_LIMIT))
  }

  /** What step `k` of an apply does to the disk; even steps leave a write half done. */
  function ApplyStep(d: Disk, running: Slot, staged: Staged, k: nat): Disk
    requires k < APPLY_STEPS
  {
    var t := running.Other();
    var img := d.Image(t);
    match k
    case 0 => d.WithImage(t, img.(root := Torn, stamped := false))
    case 1 => d.WithImage(t, img.(root := Blank, stamped := false))
    case 2 => d.WithImage(t, img.(root := Torn, stamped := false))
    case 3 => d.WithImage(t, img.(root := Full(staged.version), stamped := staged.stamped))
    case 4 => d.WithImage(t, img.(kernel := Torn))
    case 5 => d.WithImage(t, img.(kernel := Full(staged.version)))
    case 6 => d.WithImage(t, img.(initrd := Torn))
    case 7 => d.WithImage(t, img.(initrd := Full(staged.version)))
    case 8 => d.(slots := SlotsState(running, d.slots.currentVersion, t, staged.version))
    case _ => d.(grub := Arm(running), recovered := None)
  }

  /** The disk after the first `k` steps: an apply that errors or loses power there. */
  function ApplyPrefix(d: Disk, running: Slot, staged: Staged, k: nat): Disk
    requires k <= APPLY_STEPS
  {
    if k == 0 then d else ApplyStep(ApplyPrefix(d, running, staged, k - 1), running, staged, k - 1)
  }

  predicate AutoReverted(d: Disk, running: Slot) {
    d.grub.state == Trying && d.grub.saved == running.Other()
  }

  /** `envWritten` and `slotsWritten` say whether the writes of the GRUB environment and of
      `slots.json` reached the disk. */
  function ConfirmDisk(d: Disk, running: Slot, envWritten: bool, slotsWritten: bool): Disk {
    var onCurrent := running == d.slots.currentSlot;
    var runningVersion :=
      ReadBuildVersion(d.Image(running)).GetOr(if onCurrent then d.slots.currentVersion else d.slots.standbyVersion);
    var otherVersion := if onCurrent then d.slots.standbyVersion else d.slots.currentVersion;
    d.(recovered := if AutoReverted(d, running) then Some(Marker(running.Other(), d.slots.standbyVersion)) else None,
       grub := if envWritten then GrubEnv(running, None, Confirmed, None) else d.grub,
       slots := if slotsWritten then SlotsState(running, runningVersion, running.Other(), otherVersion) else d.slots)
  }

  lemma {:induction false} ApplyWritesOnlyTheTarget(d: Disk, running: Slot, staged: Staged, k: nat)
    requires k <= APPLY_STEPS
    ensures ApplyPrefix(d, running, staged, k).Image(running) == d.Image(running)
    ensures k < APPLY_STEPS ==> ApplyPrefix(d, running, staged, k).grub == d.grub
  {
    if k > 0 {
      ApplyWritesOnlyTheTarget(d, running, staged, k - 1);
    }
  }

  /** The order of an apply: the record changes only once the image is complete, the environment
      and the marker only after that, and from the first step on the old image is gone. */
  lemma ApplyOrder(d: Disk, running: Slot, staged: Staged, k: nat)
    requires k <= APPLY_STEPS
    ensures var d' := ApplyPrefix(d, running, staged, k);
            var full := Full(staged.version);
            && (1 <= k <= 3 ==> !d'.Image(running.Other()).Complete())
            && (k >= 8 ==> d'.Image(running.Other()) == SlotImage(full, staged.stamped, full, full))
            && (k <= 8 ==> d'.slots == d.slots)
            && (k < APPLY_STEPS ==> d'.grub == d.grub && d'.recovered == d.recovered)
  {
    if k > 0 {
      ApplyOrder(d, running, staged, k - 1);
      if k == 8 {
        BeforeTheLastFile(d, running, staged);
      }
    }
  }

  lemma BeforeTheLastFile(d: Disk, running: Slot, staged: Staged)
    ensures var img := ApplyPrefix(d, running, staged, 7).Image(running.Other());
            img.root == Full(staged.version) && img.stamped == staged.stamped && img.kernel == Full(staged.version)
  {
    var d3 := ApplyPrefix(d, running, staged, 3);
    var d4 := ApplyStep(d3, running, staged, 3);
    var d5 := ApplyStep(d4, running, staged, 4);
    var d6 := ApplyStep(d5, running, staged, 5);
    assert ApplyPrefix(d, running, staged, 4) == d4;
    assert ApplyPrefix(d, running, staged, 5) == d5;
    assert ApplyPrefix(d, running, staged, 6) == d6;
  }

  /** A whole apply, seen through its effect: one complete image, one probation armed. */
  lemma WholeApply(d: Disk, running: Slot, staged: Staged)
    ensures var d' := ApplyPrefix(d, running, staged, APPLY_STEPS);
            var full := Full(staged.version);
            && d'.Image(running.Other()) == SlotImage(full, staged.stamped, full, full)
            && d'.Image(running) == d.Image(running)
            && d'.slots == SlotsState(running, d.slots.currentVersion, running.Other(), staged.version)
            && d'.grub == Arm(running) && d'.recovered == None
  {
    var d1 := ApplyStep(d, running, staged, 0);
    var d2 := ApplyStep(d1, running, staged, 1);
    var d3 := ApplyStep(d2, running, staged, 2);
    var d4 := ApplyStep(d3, running, staged, 3);
    var d5 := ApplyStep(d4, running, staged, 4);
    var d6 := ApplyStep(d5, running, staged, 5);
    var d7 := ApplyStep(d6, running, staged, 6);
    var d8 := ApplyStep(d7, running, staged, 7);
    assert ApplyPrefix(d, running, staged, 1) == d1;
    assert ApplyPrefix(d, running, staged, 2) == d2;
    assert ApplyPrefix(d, running, staged, 3) == d3;
    assert ApplyPrefix(d, running, staged, 4) == d4;
    assert ApplyPrefix(d, running, staged, 5) == d5;
    assert ApplyPrefix(d, running, staged, 6) == d6;
    assert ApplyPrefix(d, running, staged, 7) == d7;
    assert ApplyPrefix(d, running, staged, 8) == d8;
  }

  // ---------------------------------------------------------------------------
  // GRUB's selection rule
  // ---------------------------------------------------------------------------

  /** The slot GRUB tries next: on probation the saved entry while attempts are left, then
      the fallback entry; otherwise the saved entry. */
  function GrubSelect(g: GrubEnv): Slot {
    if g.state == Trying && (g.attempts.None? || g.attempts.value == 0)
    then g.fallback.GetOr(g.saved)
    else g.saved
  }

  function GrubAfterSelect(g: GrubEnv): GrubEnv {
    if g.state == Trying && g.attempts.Some? && g.attempts.value > 0
    then g.(attempts := Some(g.attempts.value - 1))
    else g
  }

  /** The environment after `n` boots none of which was confirmed. */
  function GrubAfterBoots(g: GrubEnv, n: nat): GrubEnv {
    if n == 0 then g else GrubAfterSelect(GrubAfterBoots(g, n - 1))
  }

  // ---------------------------------------------------------------------------
  // Runs
  // ---------------------------------------------------------------------------

  datatype Via = BySaved | ByFallback

  /** The disk, the slot that is up (if any), and three facts about the past: the slot last
      confirmed, the slot that armed the probation, and how the machine booted since then. */
  datatype System = System(disk: Disk, running: Option<Slot>,
                           confirmed: Slot, armedBy: Slot, bootSinceArm: Option<Via>)

  datatype Event =
    | Apply(staged: Staged, cut: nat)
    | Rollback
    | Confirm(envWritten: bool, slotsWritten: bool)
    | PowerLoss
    | Boot(healthy: bool)

  predicate RebootRequired(d: Disk) {
    d.grub.state == Trying
  }

  /** Apply is entered only outside a probation; nothing but a boot happens while off. */
  predicate Enabled(s: System, e: Event) {
    match e
    case Apply(_, _) => s.running.Some? && !RebootRequired(s.disk)
    case Rollback => s.running.Some?
    case Confirm(_, _) => s.running.Some?
    case PowerLoss => true
    case Boot(_) => s.running.None?
  }

  function Next(s: System, e: Event): System
    requires Enabled(s, e)
  {
    match e
    case Apply(staged, cut) =>
      if cut < APPLY_STEPS
      then s.(disk := ApplyPrefix(s.disk, s.running.value, staged, cut))
      else s.(disk := ApplyPrefix(s.disk, s.running.value, staged, APPLY_STEPS),
              armedBy := s.running.value, bootSinceArm := None)
    case Rollback =>
      s.(disk := s.disk.(grub := Arm(s.running.value)), armedBy := s.running.value, bootSinceArm := None)
    case Confirm(env, slots) =>
      s.(disk := ConfirmDisk(s.disk, s.running.value, env, slots), confirmed := s.running.value)
    case PowerLoss => s.(running := None)
    case Boot(healthy) =>
      var g := s.disk.grub;
      var slot := GrubSelect(g);
      s.(disk := s.disk.(grub := GrubAfterSelect(g)),
         running := if healthy && s.disk.Image(slot).Complete() then Some(slot) else None,
         bootSinceArm := Some(if slot == g.saved then BySaved else ByFallback))
  }

  predicate Legal(s: System, es: seq<Event>)
    decreases |es|
  {
    es == [] || (Enabled(s, es[0]) && Legal(Next(s, es[0]), es[1..]))
  }

  function Exec(s: System, es: seq<Event>): System
    requires Legal(s, es)
    decreases |es|
  {
    if es == [] then s else Exec(Next(s, es[0]), es[1..])
  }

  predicate Installed(s: System) {
    && s.disk.imageA.Complete() && s.disk.imageB.Complete()
    && s.disk.grub == GrubEnv(s.confirmed, None, Confirmed, None)
    && s.running == None
  }

  predicate Inv(s: System) {
    var d := s.disk;
    var g := d.grub;
    && d.Image(s.confirmed).Complete()
    && (s.running.Some? ==> d.Image(s.running.value).Complete())
    && (g.state == Confirmed ==> g.saved == s.confirmed && (s.running.Some? ==> s.running.value == s.confirmed))
    && (g.state == Trying ==>
          && g.saved == s.armedBy.Other() && g.fallback == Some(s.armedBy)
          && d.Image(s.armedBy).Complete()
          && g.attempts.Some? && g.attempts.value <= BOOT_ATTEMPT_LIMIT
          && (s.bootSinceArm.None? && s.running.Some? ==> s.running.value == s.armedBy)
          && (s.bootSinceArm == Some(BySaved) && s.running.Some? ==> s.running.value == g.saved)
          && (s.bootSinceArm == Some(ByFallback) ==>
                g.attempts == Some(0) && (s.running.Some? ==> s.running.value == s.armedBy)))
  }

  lemma StepKeepsInv(s: System, e: Event)
    requires Inv(s) && Enabled(s, e)
    ensures Inv(Next(s, e))
    ensures !e.Confirm? ==> Next(s, e).confirmed == s.confirmed
    ensures Next(s, e).disk.Image(s.confirmed) == s.disk.Image(s.confirmed)
  {
    match e
    case Apply(staged, cut) =>
      if cut < APPLY_STEPS {
        ApplyWritesOnlyTheTarget(s.disk, s.running.value, staged, cut);
      } else {
        WholeApply(s.disk, s.running.value, staged);
      }
    case _ =>
  }

  lemma {:induction false} RunKeepsInv(s: System, es: seq<Event>)
    requires Inv(s) && Legal(s, es)
    ensures Inv(Exec(s, es))
    decreases |es|
  {
    if es != [] {
      StepKeepsInv(s, es[0]);
      RunKeepsInv(Next(s, es[0]), es[1..]);
    }
  }

  /** No state along the run has a slot other than `c` as the one last confirmed. */
  predicate StaysConfirmed(s: System, es: seq<Event>, c: Slot)
    requires Legal(s, es)
    decreases |es|
  {
    s.confirmed == c && (es != [] ==> StaysConfirmed(Next(s, es[0]), es[1..], c))
  }

  /** Safety: the slot last confirmed keeps its image, bit for bit, until another slot is
      confirmed. Every prefix of a run is a run and every apply may be cut anywhere, so this
      speaks of all moments in between as well. */
  lemma {:induction false} ConfirmedSlotIsNeverTouched(s: System, es: seq<Event>)
    requires Inv(s) && Legal(s, es) && StaysConfirmed(s, es, s.confirmed)
    ensures Exec(s, es).disk.Image(s.confirmed) == s.disk.Image(s.confirmed)
    ensures s.disk.Image(s.confirmed).Complete()
    decreases |es|
  {
    if es != [] {
      StepKeepsInv(s, es[0]);
      ConfirmedSlotIsNeverTouched(Next(s, es[0]), es[1..]);
    }
  }

  /** From installation on, whatever happens, the slot last confirmed is complete. */
  lemma InstalledSystemsStayBootable(s: System, es: seq<Event>)
    requires Installed(s) && Legal(s, es)
    ensures Inv(Exec(s, es))
    ensures Exec(s, es).disk.Image(Exec(s, es).confirmed).Complete()
  {
    assert Inv(s);
    RunKeepsInv(s, es);
  }

  /** An apply that is not held back by the guard: it spoils the confirmed slot exactly when
      the machine runs from the other one, that is, on a boot not yet confirmed. */
  lemma UnguardedApplySpoilsIff(s: System, staged: Staged)
    requires Inv(s) && s.running.Some?
    ensures !ApplyPrefix(s.disk, s.running.value, staged, 1).Image(s.confirmed).Complete()
            <==> s.running.value != s.confirmed
    ensures s.running.value != s.confirmed ==> RebootRequired(s.disk)
  {
    var running := s.running.value;
    ApplyWritesOnlyTheTarget(s.disk, running, staged, 1);
    assert ApplyPrefix(s.disk, running, staged, 1) == ApplyStep(s.disk, running, staged, 0) by {
      assert ApplyPrefix(s.disk, running, staged, 0) == s.disk;
    }
  }

  // ---------------------------------------------------------------------------
  // Boots end: at most three fail before GRUB tries a complete slot
  // ---------------------------------------------------------------------------

  function AttemptsLeft(g: GrubEnv): nat {
    if g.state == Trying then g.attempts.GetOr(0) else 0
  }

  /** How many boots fail before GRUB selects a complete slot; the attempt counter is what
      makes this definition well founded. */
  function FailedBoots(d: Disk): (n: nat)
    requires d.Image(GrubSelect(d.grub)).Complete() || AttemptsLeft(d.grub) > 0
    requires AttemptsLeft(d.grub) > 0 ==> d.grub.fallback.Some? && d.Image(d.grub.fallback.value).Complete()
    ensures n <= AttemptsLeft(d.grub)
    ensures d.Image(GrubSelect(GrubAfterBoots(d.grub, n))).Complete()
    ensures forall m: nat :: m < n ==> !d.Image(GrubSelect(GrubAfterBoots(d.grub, m))).Complete()
    decreases AttemptsLeft(d.grub)
  {
    if d.Image(GrubSelect(d.grub)).Complete() then
      assert GrubAfterBoots(d.grub, 0) == d.grub;
      0
    else
      var rest := FailedBoots(d.(grub := GrubAfterSelect(d.grub)));
      assert GrubAfterBoots(d.grub, 0) == d.grub;
      assert forall m: nat :: GrubAfterBoots(GrubAfterSelect(d.grub), m) == GrubAfterBoots(d.grub, m + 1) by {
        forall m: nat ensures GrubAfterBoots(GrubAfterSelect(d.grub), m) == GrubAfterBoots(d.grub, m + 1) {
          AfterBootsShifts(d.grub, m);
        }
      }
      assert forall m: nat :: m < rest + 1 ==> !d.Image(GrubSelect(GrubAfterBoots(d.grub, m))).Complete() by {
        forall m: nat | m < rest + 1 ensures !d.Image(GrubSelect(GrubAfterBoots(d.grub, m))).Complete() {
          if m > 0 {
            AfterBootsShifts(d.grub, m - 1);
          }
        }
      }
      rest + 1
  }

  lemma {:induction false} AfterBootsShifts(g: GrubEnv, m: nat)
    ensures GrubAfterBoots(GrubAfterSelect(g), m) == GrubAfterBoots(g, m + 1)
  {
    if m > 0 {
      AfterBootsShifts(g, m - 1);
    } else {
      assert GrubAfterBoots(g, 0) == g;
    }
  }

  /** Termination: from every reachable state, after at most three failed boots (and no more
      than the attempts left) GRUB selects a complete slot, and not before. */
  lemma AtMostThreeFailedBoots(s: System, es: seq<Event>) returns (n: nat)
    requires Installed(s) && Legal(s, es)
    ensures var d := Exec(s, es).disk;
            && n <= AttemptsLeft(d.grub) <= BOOT_ATTEMPT_LIMIT
            && d.Image(GrubSelect(GrubAfterBoots(d.grub, n))).Complete()
            && forall m: nat :: m < n ==> !d.Image(GrubSelect(GrubAfterBoots(d.grub, m))).Complete()
  {
    InstalledSystemsStayBootable(s, es);
    n := FailedBoots(Exec(s, es).disk);
  }

  /** The documented fallback: from every reachable state on probation, boots that do not get
      confirmed, for whatever reason, try the new slot while attempts are left and from then on
      the slot that armed the probation, which is complete. */
  lemma ProbationFallsBackAfterItsAttempts(s: System, es: seq<Event>, n: nat)
    requires Installed(s) && Legal(s, es) && RebootRequired(Exec(s, es).disk)
    ensures var t := Exec(s, es);
            var g := t.disk.grub;
            && GrubSelect(GrubAfterBoots(g, n)) == (if n < AttemptsLeft(g) then t.armedBy.Other() else t.armedBy)
            && AttemptsLeft(g) <= BOOT_ATTEMPT_LIMIT
            && t.disk.Image(t.armedBy).Complete()
  {
    InstalledSystemsStayBootable(s, es);
    SelectionAfter(Exec(s, es).disk.grub, n);
  }

  /** In a run that only boots, the first boot of a complete slot that is healthy brings the
      machine up from it, and the boots before it changed nothing but the counter. */
  lemma {:induction false} BootsOnlyCountDown(s: System, n: nat)
    requires s.running.None?
    ensures var boots := seq(n, _ => Boot(false));
            && Legal(s, boots)
            && Exec(s, boots).disk == s.disk.(grub := GrubAfterBoots(s.disk.grub, n))
            && Exec(s, boots).running == None
    decreases n
  {
    var boots := seq(n, _ => Boot(false));
    if n > 0 {
      var s1 := Next(s, Boot(false));
      BootsOnlyCountDown(s1, n - 1);
      assert boots[1..] == seq(n - 1, _ => Boot(false));
      AfterBootsShifts(s.disk.grub, n - 1);
    }
  }

  /** The first `k` of the four separate writes that arm a probation. */
  function ArmPrefix(g: GrubEnv, running: Slot, k: nat): GrubEnv
    requires k <= 4
  {
    var g1 := if k >= 1 then g.(saved := running.Other()) else g;
    var g2 := if k >= 2 then g1.(fallback := Some(running)) else g1;
    var g3 := if k >= 3 then g2.(state := Trying) else g2;
    if k >= 4 then g3.(attempts := Some(BOOT_ATTEMPT_LIMIT)) else g3
  }

  /** Without a probation, or on one whose attempts are used up, nothing moves any more. */
  lemma {:induction false} SettledSelectionIsStable(g: GrubEnv, n: nat)
    requires AttemptsLeft(g) == 0
    ensures GrubAfterBoots(g, n) == g
  {
    if n > 0 {
      SettledSelectionIsStable(g, n - 1);
    }
  }

  lemma {:induction false} AttemptsRunOut(g: GrubEnv, n: nat)
    requires g.state == Trying && g.attempts.Some? && n <= g.attempts.value
    ensures GrubAfterBoots(g, n) == g.(attempts := Some(g.attempts.value - n))
  {
    if n > 0 {
      AttemptsRunOut(g, n - 1);
    }
  }

  /** What the boots to come can select: the saved entry, unless a probation has no attempts
      left, and the fallback entry on a probation. */
  lemma SelectableIff(g: GrubEnv, s: Slot)
    ensures (exists n: nat :: GrubSelect(GrubAfterBoots(g, n)) == s) <==>
            || (s == g.saved && (g.state == Confirmed || AttemptsLeft(g) > 0))
            || (s == g.fallback.GetOr(g.saved) && g.state == Trying)
  {
    var left := AttemptsLeft(g);
    if g.state == Trying && g.attempts.Some? {
      FirstSelection(g);
      AttemptsRunOut(g, left);
      assert GrubSelect(GrubAfterBoots(g, left)) == g.fallback.GetOr(g.saved);
      forall n: nat
        ensures GrubSelect(GrubAfterBoots(g, n)) == if n < left then g.saved else g.fallback.GetOr(g.saved)
      {
        SelectionAfter(g, n);
      }
    } else {
      forall n: nat ensures GrubAfterBoots(g, n) == g {
        SettledSelectionIsStable(g, n);
      }
      FirstSelection(g);
    }
  }

  lemma FirstSelection(g: GrubEnv)
    ensures exists n: nat :: GrubSelect(GrubAfterBoots(g, n)) == GrubSelect(g)
  {
    assert GrubAfterBoots(g, 0) == g;
  }

  lemma SelectionAfter(g: GrubEnv, n: nat)
    requires g.state == Trying && g.attempts.Some?
    ensures GrubSelect(GrubAfterBoots(g, n)) == if n < g.attempts.value then g.saved else g.fallback.GetOr(g.saved)
  {
    var left := g.attempts.value;
    if n <= left {
      AttemptsRunOut(g, n);
    } else {
      AttemptsRunOut(g, left);
      BootsAdd(g, left, n - left);
      SettledSelectionIsStable(GrubAfterBoots(g, left), n - left);
    }
  }

  lemma {:induction false} BootsAdd(g: GrubEnv, m: nat, n: nat)
    ensures GrubAfterBoots(g, m + n) == GrubAfterBoots(GrubAfterBoots(g, m), n)
  {
    if n > 0 {
      BootsAdd(g, m, n - 1);
    }
  }

  /** Why the four writes must count as one, from any environment: cut short after the first or
      second, the running slot can be selected again only if a probation was on already and its
      fallback entry is or has become the running slot. */
  lemma SplitArmingFallsBackIff(g: GrubEnv, running: Slot, k: nat)
    requires 1 <= k <= 4
    ensures (exists n: nat :: GrubSelect(GrubAfterBoots(ArmPrefix(g, running, k), n)) == running)
            <==> k >= 3 || (g.state == Trying && (k == 2 || g.fallback == Some(running)))
    ensures k == 4 ==> ArmPrefix(g, running, k) == Arm(running)
  {
    SelectableIff(ArmPrefix(g, running, k), running);
  }

  /** On a confirmed boot the first write, or the first two, select the new slot for good. */
  lemma SplitArmingOnAConfirmedBoot(running: Slot, k: nat)
    requires k <= 4
    ensures var g := GrubEnv(running, None, Confirmed, None);
            (exists n: nat :: GrubSelect(GrubAfterBoots(ArmPrefix(g, running, k), n)) == running)
            <==> k != 1 && k != 2
  {
    var g := GrubEnv(running, None, Confirmed, None);
    if k == 0 {
      assert ArmPrefix(g, running, k) == g;
      SelectableIff(g, running);
    } else {
      SplitArmingFallsBackIff(g, running, k);
    }
  }

  // ---------------------------------------------------------------------------
  // The slot record over whole runs
  // ---------------------------------------------------------------------------

  /** Nothing cut short: applies finish and confirmations write `slots.json`. */
  predicate Clean(es: seq<Event>) {
    forall e :: e in es ==> (e.Apply? ==> e.cut >= APPLY_STEPS) && (e.Confirm? ==> e.slotsWritten)
  }

  predicate RecordInv(s: System) {
    && Inv(s) && RecordRight(s.disk)
    && (s.disk.grub.state == Confirmed ==> s.disk.slots.currentSlot == s.confirmed)
  }

  lemma StepKeepsRecord(s: System, e: Event)
    requires RecordInv(s) && Enabled(s, e) && Clean([e])
    ensures RecordInv(Next(s, e))
  {
    assert e in [e];
    StepKeepsInv(s, e);
    if e.Apply? {
      WholeApply(s.disk, s.running.value, e.staged);
    }
  }

  /** In every clean run the record keeps two different slots and the right version for both. */
  lemma {:induction false} CleanRunsKeepTheRecordRight(s: System, es: seq<Event>)
    requires RecordInv(s) && Legal(s, es) && Clean(es)
    ensures RecordRight(Exec(s, es).disk)
    decreases |es|
  {
    if es != [] {
      assert es[0] in es;
      StepKeepsRecord(s, es[0]);
      assert forall e :: e in es[1..] ==> e in es;
      CleanRunsKeepTheRecordRight(Next(s, es[0]), es[1..]);
    }
  }

  /** One whole apply keeps the record right exactly when the record already had the running
      slot as current (or both slots hold the same release, so that mixing them up is harmless). */
  lemma ApplyKeepsRecordIff(d: Disk, running: Slot, staged: Staged)
    requires RecordRight(d)
    ensures RecordRight(ApplyPrefix(d, running, staged, APPLY_STEPS)) <==>
            d.slots.currentSlot == running || d.slots.currentVersion == d.slots.standbyVersion
  {
    WholeApply(d, running, staged);
  }

  /** On probation and after at least one boot, the auto-revert branch is taken exactly when
      the running slot is the one that armed the probation, which is exactly when GRUB came
      there through the fallback entry; all attempts are then used up. */
  lemma AutoRevertIffArmedByRunning(s: System, es: seq<Event>)
    requires Installed(s) && Legal(s, es)
    requires var t := Exec(s, es); t.running.Some? && RebootRequired(t.disk)
    ensures var t := Exec(s, es);
            && (AutoReverted(t.disk, t.running.value) <==> t.running.value == t.armedBy)
            && (t.bootSinceArm.Some? ==>
                  (AutoReverted(t.disk, t.running.value) <==> t.bootSinceArm == Some(ByFallback)))
            && (t.bootSinceArm.Some? && AutoReverted(t.disk, t.running.value) ==> t.disk.grub.attempts == Some(0))
  {
    InstalledSystemsStayBootable(s, es);
    var t := Exec(s, es);
    if t.bootSinceArm.Some? {
      match t.bootSinceArm.value
      case BySaved => assert t.bootSinceArm == Some(BySaved);
      case ByFallback => assert t.bootSinceArm == Some(ByFallback);
    }
  }

  /** What a confirmation does in any run: it reports a recovery exactly when the machine is up,
      on probation, on the slot that armed it, and then of the other slot. If GRUB's environment
      could be written the probation is over and every boot to come is of the running slot; if the
      record could be, it has the running slot as current, with its own stamp if readable. */
  lemma ConfirmationReportsRevertsOnly(s: System, es: seq<Event>, env: bool, slots: bool)
    requires Installed(s) && Legal(s, es) && Exec(s, es).running.Some?
    ensures var t := Exec(s, es);
            var running, d := t.running.value, Next(t, Confirm(env, slots)).disk;
            && (d.recovered.Some? <==> RebootRequired(t.disk) && running == t.armedBy)
            && (d.recovered.Some? ==> d.recovered.value.failedSlot == running.Other())
            && d.imageA == t.disk.imageA && d.imageB == t.disk.imageB
            && (!env ==> d.grub == t.disk.grub)
            && (env ==> !RebootRequired(d) && d.grub.fallback == None && d.grub.attempts == None)
            && (env ==> forall n: nat :: GrubSelect(GrubAfterBoots(d.grub, n)) == running)
            && (!slots ==> d.slots == t.disk.slots)
            && (slots ==> d.slots.currentSlot == running && d.slots.standbySlot == running.Other())
            && (slots && t.disk.Image(running).stamped ==> d.Image(running).root == Full(d.slots.currentVersion))
  {
    InstalledSystemsStayBootable(s, es);
    var t := Exec(s, es);
    var d := Next(t, Confirm(env, slots)).disk;
    if env {
      forall n: nat ensures GrubSelect(GrubAfterBoots(d.grub, n)) == t.running.value {
        SettledSelectionIsStable(d.grub, n);
      }
    }
  }

  /** A probation just armed, by an apply or a rollback, is for three boots of the other slot and
      then for the running one. */
  lemma ArmedForThreeBoots(s: System, e: Event, n: nat)
    requires Enabled(s, e) && (e.Rollback? || (e.Apply? && e.cut >= APPLY_STEPS))
    ensures var g, running := Next(s, e).disk.grub, s.running.value;
            GrubSelect(GrubAfterBoots(g, n)) == if n < 3 then running.Other() else running
  {
    if e.Apply? {
      WholeApply(s.disk, s.running.value, e.staged);
    }
    SelectionAfter(Next(s, e).disk.grub, n);
  }

  /** Without a boot in between the branch is taken although nothing failed. */
  lemma ConfirmingBeforeTheRebootReportsARevert(s: System)
    requires Inv(s) && s.running.Some?
    ensures var t := Next(s, Rollback);
            && t.bootSinceArm == None
            && Next(t, Confirm(true, true)).disk.recovered.Some?
  {
  }

  /** The recovery marker names the failed release exactly when the record has the surviving
      slot as current, up to releases that are the same on both. */
  lemma MarkerNamesTheFailedReleaseIff(d: Disk, running: Slot, env: bool, slots: bool)
    requires RecordRight(d) && AutoReverted(d, running)
    ensures ConfirmDisk(d, running, env, slots).recovered.Some?
    ensures d.Image(running.Other()).root == Full(ConfirmDisk(d, running, env, slots).recovered.value.failedVersion)
            <==> d.slots.currentSlot == running || d.slots.currentVersion == d.slots.standbyVersion
  {
  }

  /** Rollbacks, like applies, only outside a probation, and confirmations that reach GRUB. */
  predicate HeldBack(s: System, es: seq<Event>)
    requires Legal(s, es)
    decreases |es|
  {
    es != [] ==>
      && (es[0].Rollback? ==> !RebootRequired(s.disk))
      && (es[0].Confirm? ==> es[0].envWritten)
      && HeldBack(Next(s, es[0]), es[1..])
  }

  predicate MarkerInv(s: System) {
    RecordInv(s) && (s.disk.grub.state == Trying ==> s.disk.slots.currentSlot == s.armedBy)
  }

  lemma StepKeepsMarkerInv(s: System, e: Event)
    requires MarkerInv(s) && Enabled(s, e) && Clean([e]) && HeldBack(s, [e])
    ensures MarkerInv(Next(s, e))
  {
    assert e in [e];
    StepKeepsRecord(s, e);
    if e.Apply? {
      WholeApply(s.disk, s.running.value, e.staged);
    }
  }

  /** Under these hypotheses the record has the surviving slot as current, so that a marker always
      names the release that failed. */
  lemma {:induction false} MarkersAreRightIfHeldBack(s: System, es: seq<Event>, env: bool, slots: bool)
    requires MarkerInv(s) && Legal(s, es) && Clean(es) && HeldBack(s, es)
    ensures var t := Exec(s, es);
            t.running.Some? && AutoReverted(t.disk, t.running.value) ==>
              var m := ConfirmDisk(t.disk, t.running.value, env, slots).recovered;
              m.Some? && t.disk.Image(m.value.failedSlot).root == Full(m.value.failedVersion)
    decreases |es|
  {
    if es != [] {
      assert es[0] in es;
      assert [es[0]][1..] == [];
      StepKeepsMarkerInv(s, es[0]);
      assert forall e :: e in es[1..] ==> e in es;
      MarkersAreRightIfHeldBack(Next(s, es[0]), es[1..], env, slots);
    } else if s.running.Some? && AutoReverted(s.disk, s.running.value) {
      MarkerNamesTheFailedReleaseIff(s.disk, s.running.value, env, slots);
    }
  }

  lemma {:induction false} RunsCompose(s: System, a: seq<Event>, b: seq<Event>)
    requires Legal(s, a) && Legal(Exec(s, a), b)
    ensures Legal(s, a + b) && Exec(s, a + b) == Exec(Exec(s, a), b)
    decreases |a|
  {
    if a == [] {
      assert a + b == b;
    } else {
      assert (a + b)[1..] == a[1..] + b;
      RunsCompose(Next(s, a[0]), a[1..], b);
    }
  }

  function UpdateOnTrial(staged: Staged): seq<Event> {
    [Boot(true), Apply(staged, APPLY_STEPS), PowerLoss, Boot(true)]
  }

  const FAILED_ROLLBACK: seq<Event> := [Rollback, PowerLoss, Boot(false), Boot(false), Boot(false), Boot(true)]

  lemma UpdateBoots(s: System, staged: Staged)
    requires Installed(s)
    ensures Legal(s, UpdateOnTrial(staged))
    ensures var t := Exec(s, UpdateOnTrial(staged));
            && t.running == Some(s.confirmed.Other())
            && t.disk.slots == SlotsState(s.confirmed, s.disk.slots.currentVersion, s.confirmed.Other(), staged.version)
            && t.disk.Image(s.confirmed) == s.disk.Image(s.confirmed)
            && t.disk.Image(s.confirmed.Other()).Complete()
  {
    var s1 := Next(s, Boot(true));
    assert s1.running == Some(s.confirmed) && s1.disk == s.disk;
    WholeApply(s.disk, s.confirmed, staged);
    var s3 := Next(Next(s1, Apply(staged, APPLY_STEPS)), PowerLoss);
    var apply := Apply(staged, APPLY_STEPS);
    assert UpdateOnTrial(staged)[1..] == [apply, PowerLoss, Boot(true)];
    assert [apply, PowerLoss, Boot(true)][1..] == [PowerLoss, Boot(true)];
    assert [PowerLoss, Boot(true)][1..] == [Boot(true)];
    assert Legal(s3, [Boot(true)]) && Exec(s3, [Boot(true)]) == Next(s3, Boot(true));
    assert Legal(s1, [apply, PowerLoss, Boot(true)]);
    assert Exec(s1, [apply, PowerLoss, Boot(true)]) == Next(s3, Boot(true));
  }

  /** A rollback all of whose boots fail leads back to the slot that armed it. */
  lemma RollbackFails(s: System)
    requires s.running.Some? && s.disk.Image(s.running.value).Complete()
    ensures Legal(s, FAILED_ROLLBACK)
    ensures Exec(s, FAILED_ROLLBACK).running == s.running
    ensures Exec(s, FAILED_ROLLBACK).disk == s.disk.(grub := Arm(s.running.value).(attempts := Some(0)))
  {
    var s2 := Next(Next(s, Rollback), PowerLoss);
    var s5 := Next(Next(Next(s2, Boot(false)), Boot(false)), Boot(false));
    assert s5.running == None && s5.disk.grub == Arm(s.running.value).(attempts := Some(0));
    assert Exec(s5, [Boot(true)]) == Next(s5, Boot(true));
    assert FAILED_ROLLBACK[1..][1..] == [Boot(false), Boot(false), Boot(false), Boot(true)];
    assert FAILED_ROLLBACK[1..][1..][1..][1..][1..] == [Boot(true)];
  }

  /** A run on which the marker is wrong: an update boots, is rolled back before it is confirmed,
      and all boots of the old slot fail. The marker then gives the old slot the new release. */
  lemma MarkerOfAFailedRollbackIsWrong(s: System, staged: Staged)
    requires Installed(s) && RecordRight(s.disk) && s.disk.slots.currentSlot == s.confirmed
    requires staged.version != s.disk.slots.currentVersion
    ensures var es := UpdateOnTrial(staged) + FAILED_ROLLBACK + [Confirm(true, true)];
            && Legal(s, es) && Clean(es)
            && var d := Exec(s, es).disk;
               && d.recovered == Some(Marker(s.confirmed, staged.version))
               && d.Image(s.confirmed).root == Full(s.disk.slots.currentVersion)
               && d.Image(s.confirmed).root != Full(d.recovered.value.failedVersion)
  {
    var a, b, c := UpdateOnTrial(staged), FAILED_ROLLBACK, [Confirm(true, true)];
    UpdateBoots(s, staged);
    var s1 := Exec(s, a);
    RollbackFails(s1);
    var s2 := Exec(s1, b);
    assert Exec(s2, c) == Next(s2, Confirm(true, true));
    RunsCompose(s, a, b);
    RunsCompose(s, a + b, c);
  }

  // ---------------------------------------------------------------------------
  // The operations as the service performs them
  // ---------------------------------------------------------------------------

  class Appliance {
    var imageA: SlotImage
    var imageB: SlotImage
    var slots: SlotsState
    var grub: GrubEnv
    var recovered: Option<Marker>
    const running: Slot

    constructor (running: Slot, d: Disk)
      ensures this.running == running && OnDisk() == d
    {
      this.running := running;
      imageA, imageB, slots, grub, recovered := d.imageA, d.imageB, d.slots, d.grub, d.recovered;
    }

    function OnDisk(): Disk
      reads this
    {
      Disk(imageA, imageB, slots, grub, recovered)
    }

    method SetImage(s: Slot, img: SlotImage)
      modifies `imageA, `imageB
      ensures OnDisk() == old(OnDisk()).WithImage(s, img)
    {
      match s
      case A => imageA := img;
      case B => imageB := img;
    }

    /** Writes the staged image to the slot not running and arms GRUB; `cut` is the step at
        which a command fails or power is lost, if below the number of steps. */
    method ApplyStagedImage(staged: Staged, cut: nat) returns (r: Result<Slot, nat>)
      modifies this
      ensures OnDisk() == ApplyPrefix(old(OnDisk()), running, staged, if cut < APPLY_STEPS then cut else APPLY_STEPS)
      ensures r == if cut < APPLY_STEPS then Err(cut) else Ok(running.Other())
    {
      var target := running.Other();
      var k := 0;
      while k < 8
        invariant k <= 8 && k <= cut
        invariant OnDisk() == ApplyPrefix(old(OnDisk()), running, staged, k)
      {
        if cut == k {
          return Err(k);
        }
        var img := OnDisk().Image(target);
        if k < 4 {
          var root := if k == 1 then Blank else if k == 3 then Full(staged.version) else Torn;
          img := img.(root := root, stamped := k == 3 && staged.stamped);
        } else if k < 6 {
          img := img.(kernel := if k == 4 then Torn else Full(staged.version));
        } else {
          img := img.(initrd := if k == 6 then Torn else Full(staged.version));
        }
        SetImage(target, img);
        k := k + 1;
      }
      if cut == 8 {
        return Err(8);
      }
      slots := slots.(standbySlot := target, standbyVersion := staged.version, currentSlot := running);
      assert OnDisk() == ApplyPrefix(old(OnDisk()), running, staged, 9);
      if cut == 9 {
        return Err(9);
      }
      grub := grub.(saved := target);
      grub := grub.(fallback := Some(running));
      grub := grub.(state := Trying);
      grub := grub.(attempts := Some(BOOT_ATTEMPT_LIMIT));
      recovered := None;
      return Ok(target);
    }

    method ArmRollback() returns (target: Slot)
      modifies `grub
      ensures OnDisk() == old(OnDisk()).(grub := Arm(running))
      ensures target == running.Other()
    {
      target := running.Other();
      grub := grub.(saved := target);
      grub := grub.(fallback := Some(running));
      grub := grub.(state := Trying);
      grub := grub.(attempts := Some(BOOT_ATTEMPT_LIMIT));
    }

    method SignalBootSuccess(envWritten: bool, slotsWritten: bool) returns (ok: bool)
      modifies this
      ensures OnDisk() == ConfirmDisk(old(OnDisk()), running, envWritten, slotsWritten)
      ensures ok == slotsWritten
    {
      var state := slots;
      var build := ReadBuildVersion(OnDisk().Image(running));
      var runningVersion :=
        build.GetOr(if running == state.currentSlot then state.currentVersion else state.standbyVersion);
      if grub.state == Trying && grub.saved == running.Other() {
        recovered := Some(Marker(running.Other(), state.standbyVersion));
      } else {
        recovered := None;
      }
      if envWritten {
        grub := grub.(saved := running);
        grub := grub.(state := Confirmed);
        grub := grub.(attempts := None);
        grub := grub.(fallback := None);
      }
      var otherVersion := if running == state.currentSlot then state.standbyVersion else state.currentVersion;
      state := state.(currentSlot := running);
      state := state.(currentVersion := runningVersion);
      state := state.(standbySlot := running.Other());
      state := state.(standbyVersion := otherVersion);
      if !slotsWritten {
        return false;
      }
      slots := state;
      return true;
    }
  }
}
