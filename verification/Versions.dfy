/**
 Release versions: their order and the names of the artifacts that carry them.
 */
module Versions {
  import opened Wrappers
  import opened Text

  const U64_MAX: nat := 0xFFFF_FFFF_FFFF_FFFF

  // ---------------------------------------------------------------------------
  // Parsing
  // ---------------------------------------------------------------------------

  predicate IsArtifactVersion(version: string) {
    var parts := Split(version, '.');
    |parts| >= 2 && forall p :: p in parts ==> p != "" && AllDigits(p)
  }

  /** The segments of a version, `None` for other text or when a segment exceeds a u64. */
  function Segments(version: string): Option<seq<nat>> {
    if !IsArtifactVersion(version) then None
    else
      var values := PartValues(Split(version, '.'));
      if forall v :: v in values ==> v <= U64_MAX then Some(values) else None
  }

  function PartValues(parts: seq<string>): seq<nat>
    requires forall p :: p in parts ==> AllDigits(p)
  {
    seq(|parts|, i requires 0 <= i < |parts| => Value(parts[i]))
  }

  // ---------------------------------------------------------------------------
  // Order
  // ---------------------------------------------------------------------------

  function Segment(s: seq<nat>, i: nat): nat {
    if i < |s| then s[i] else 0
  }

  function Tail(s: seq<nat>): seq<nat> {
    if s == [] then [] else s[1..]
  }

  /** Lexicographic order, the shorter list extended with zeros. */
  predicate Less(a: seq<nat>, b: seq<nat>)
    decreases |a| + |b|
  {
    (a != [] || b != []) &&
    (Segment(a, 0) < Segment(b, 0) || (Segment(a, 0) == Segment(b, 0) && Less(Tail(a), Tail(b))))
  }

  predicate SameUpToZeros(a: seq<nat>, b: seq<nat>) {
    && (forall i {:trigger Segment(a, i)} {:trigger Segment(b, i)} :: 0 <= i < |a| ==> Segment(a, i) == Segment(b, i))
    && (forall i {:trigger Segment(a, i)} {:trigger Segment(b, i)} :: 0 <= i < |b| ==> Segment(a, i) == Segment(b, i))
  }

  /** Meaning of the order: the first segment in which the versions differ decides. */
  lemma {:induction false} LessAtFirstDifference(a: seq<nat>, b: seq<nat>, i: nat)
    requires forall j :: 0 <= j < i ==> Segment(a, j) == Segment(b, j)
    requires Segment(a, i) != Segment(b, i)
    ensures Less(a, b) <==> Segment(a, i) < Segment(b, i)
    decreases i
  {
    if i > 0 {
      assert Segment(a, 0) == Segment(b, 0);
      assert forall j: nat :: Segment(Tail(a), j) == Segment(a, j + 1);
      assert forall j: nat :: Segment(Tail(b), j) == Segment(b, j + 1);
      LessAtFirstDifference(Tail(a), Tail(b), i - 1);
    }
  }

  lemma {:induction false} LessIrreflexive(a: seq<nat>)
    ensures !Less(a, a)
    decreases |a|
  {
    if a != [] {
      LessIrreflexive(Tail(a));
    }
  }

  lemma {:induction false} LessTransitive(a: seq<nat>, b: seq<nat>, c: seq<nat>)
    requires Less(a, b) && Less(b, c)
    ensures Less(a, c)
    decreases |a| + |b| + |c|
  {
    if Segment(a, 0) == Segment(b, 0) == Segment(c, 0) {
      LessTransitive(Tail(a), Tail(b), Tail(c));
    }
  }

  /** Ties are exactly equality up to trailing zero segments. */
  lemma {:induction false} TiesAreZeroExtensions(a: seq<nat>, b: seq<nat>)
    ensures !Less(a, b) && !Less(b, a) <==> SameUpToZeros(a, b)
    decreases |a| + |b|
  {
    if a != [] || b != [] {
      TiesAreZeroExtensions(Tail(a), Tail(b));
      assert forall j: nat :: Segment(Tail(a), j) == Segment(a, j + 1);
      assert forall j: nat :: Segment(Tail(b), j) == Segment(b, j + 1);
      if SameUpToZeros(a, b) {
        assert Segment(a, 0) == Segment(b, 0);
      }
      if Segment(a, 0) == Segment(b, 0) && SameUpToZeros(Tail(a), Tail(b)) {
        forall i | 0 <= i < |a| || 0 <= i < |b| ensures Segment(a, i) == Segment(b, i) {
          if i > 0 {
            assert Segment(Tail(a), i - 1) == Segment(Tail(b), i - 1);
          }
        }
      }
    }
  }

  lemma {:induction false} TieThenLess(a: seq<nat>, b: seq<nat>, c: seq<nat>)
    requires !Less(a, b) && !Less(b, a) && Less(b, c)
    ensures Less(a, c)
    decreases |a| + |b| + |c|
  {
    if (a != [] || b != []) && Segment(b, 0) == Segment(c, 0) {
      TieThenLess(Tail(a), Tail(b), Tail(c));
    }
  }

  /** A strict weak order: "not less" is transitive, so ties group into classes. */
  lemma {:induction false} NotLessTransitive(a: seq<nat>, b: seq<nat>, c: seq<nat>)
    requires !Less(a, b) && !Less(b, c)
    ensures !Less(a, c)
  {
    if Less(a, c) {
      if Less(b, a) {
        LessTransitive(b, a, c);
      } else {
        TieThenLess(b, a, c);
      }
      assert false;
    }
  }

  // ---------------------------------------------------------------------------
  // is_remote_version_newer
  // ---------------------------------------------------------------------------

  function Newer(current: string, remote: string): bool {
    var c, r := Segments(current), Segments(remote);
    if c.None? || r.None? then current != remote else Less(c.value, r.value)
  }

  /** No version is newer than itself, so one just applied is not offered again. */
  lemma NotNewerThanItself(v: string)
    ensures !Newer(v, v)
  {
    if Segments(v).Some? {
      LessIrreflexive(Segments(v).value);
    }
  }

  /** Two versions are each newer than the other exactly when they differ and one of them does
      not parse: the comparison is an order on parsed versions and nowhere else. */
  lemma NewerBothWaysIff(a: string, b: string)
    ensures Newer(a, b) && Newer(b, a) <==> a != b && (Segments(a).None? || Segments(b).None?)
  {
    if Segments(a).Some? && Segments(b).Some? && Newer(a, b) && Newer(b, a) {
      LessTransitive(Segments(a).value, Segments(b).value, Segments(a).value);
      LessIrreflexive(Segments(a).value);
    }
  }

  lemma {:induction false} LessSkipsEqualPrefix(a: seq<nat>, b: seq<nat>, k: nat)
    requires forall j :: 0 <= j < k ==> Segment(a, j) == Segment(b, j)
    requires |a| <= k && |b| <= k
    ensures !Less(a, b)
  {
    assert SameUpToZeros(a, b);
    TiesAreZeroExtensions(a, b);
  }

  method IsRemoteVersionNewer(current: string, remote: string) returns (newer: bool)
    ensures newer == Newer(current, remote)
  {
    var c, r := Segments(current), Segments(remote);
    if c.None? || r.None? {
      return current != remote;
    }
    var currentSegments, remoteSegments := c.value, r.value;
    var count := if |currentSegments| > |remoteSegments| then |currentSegments| else |remoteSegments|;
    var idx := 0;
    while idx < count
      invariant idx <= count
      invariant forall j :: 0 <= j < idx ==> Segment(currentSegments, j) == Segment(remoteSegments, j)
    {
      var currentSegment := if idx < |currentSegments| then currentSegments[idx] else 0;
      var remoteSegment := if idx < |remoteSegments| then remoteSegments[idx] else 0;
      if remoteSegment != currentSegment {
        LessAtFirstDifference(currentSegments, remoteSegments, idx);
        return remoteSegment > currentSegment;
      }
      idx := idx + 1;
    }
    LessSkipsEqualPrefix(currentSegments, remoteSegments, count);
    return false;
  }

  // ---------------------------------------------------------------------------
  // What a text says
  // ---------------------------------------------------------------------------

  /** A version's text for some numbers: printed with leading zeros and joined with dots. */
  function Printed(ns: seq<nat>, zeros: seq<nat>): string
    requires |ns| == |zeros|
  {
    JoinWith(PrintedParts(ns, zeros), '.')
  }

  function PrintedParts(ns: seq<nat>, zeros: seq<nat>): seq<string>
    requires |ns| == |zeros|
  {
    seq(|ns|, i requires 0 <= i < |ns| => Zeros(zeros[i]) + Decimal(ns[i]))
  }

  predicate FitsU64(ns: seq<nat>) {
    forall n :: n in ns ==> n <= U64_MAX
  }

  lemma PrintedSplits(ns: seq<nat>, zeros: seq<nat>)
    requires |ns| == |zeros| >= 2
    ensures var parts := PrintedParts(ns, zeros);
            && Split(Printed(ns, zeros), '.') == parts
            && (forall p :: p in parts ==> p != "" && AllDigits(p))
            && PartValues(parts) == ns
  {
    var parts := PrintedParts(ns, zeros);
    forall i | 0 <= i < |ns| ensures parts[i] != "" && AllDigits(parts[i]) && Value(parts[i]) == ns[i] {
      ValueOfDecimal(ns[i], zeros[i]);
      DecimalDigits(ns[i]);
    }
    assert forall p :: p in parts ==> '.' !in p;
    SplitUndoesJoin(parts, '.');
  }

  /** Two or more numbers, printed, have themselves as segments if they fit a u64, and else none. */
  lemma PrintedNumbersAreRead(ns: seq<nat>, zeros: seq<nat>)
    requires |ns| == |zeros| >= 2
    ensures Segments(Printed(ns, zeros)) == if FitsU64(ns) then Some(ns) else None
  {
    PrintedSplits(ns, zeros);
    assert IsArtifactVersion(Printed(ns, zeros));
  }

  /** Nothing else has segments: a text that does is its segments printed, two at least. */
  lemma ReadNumbersArePrinted(version: string) returns (zeros: seq<nat>)
    requires Segments(version).Some?
    ensures var ns := Segments(version).value;
            |ns| == |zeros| >= 2 && FitsU64(ns) && version == Printed(ns, zeros)
  {
    var parts, ns := Split(version, '.'), Segments(version).value;
    zeros := [];
    for i := 0 to |parts|
      invariant |zeros| == i
      invariant forall j :: 0 <= j < i ==> parts[j] == Zeros(zeros[j]) + Decimal(ns[j])
    {
      assert parts[i] in parts;
      var k := DigitsAreDecimal(parts[i]);
      zeros := zeros + [k];
    }
    JoinUndoesSplit(version, '.');
    assert PrintedParts(ns, zeros) == parts;
  }

  /** What the comparison says about version texts: the first number that differs decides, a
      missing one being zero. */
  lemma NewerAtFirstDifference(cur: seq<nat>, remote: seq<nat>, zc: seq<nat>, zr: seq<nat>, i: nat)
    requires |cur| == |zc| >= 2 && |remote| == |zr| >= 2 && FitsU64(cur) && FitsU64(remote)
    requires forall j :: 0 <= j < i ==> Segment(cur, j) == Segment(remote, j)
    requires Segment(cur, i) != Segment(remote, i)
    ensures Newer(Printed(cur, zc), Printed(remote, zr)) <==> Segment(cur, i) < Segment(remote, i)
  {
    PrintedNumbersAreRead(cur, zc);
    PrintedNumbersAreRead(remote, zr);
    LessAtFirstDifference(cur, remote, i);
  }

  // ---------------------------------------------------------------------------
  // Artifact names
  // ---------------------------------------------------------------------------

  function StripPrefix(s: string, p: string): (r: Option<string>)
    ensures r.Some? ==> s == p + r.value
    ensures r.None? ==> !(p <= s)
  {
    if p <= s then Some(s[|p|..]) else None
  }

  function StripSuffix(s: string, x: string): (r: Option<string>)
    ensures r.Some? ==> s == r.value + x
  {
    if |x| <= |s| && s[|s| - |x|..] == x then Some(s[..|s| - |x|]) else None
  }

  const TAR_SUFFIX := ".tar.zst"
  const IMAGE_SUFFIX := ".squashfs"

  function ArtifactVersionFromName(component: string, name: string): Option<string> {
    var stripped := StripPrefix(name, component + "-v");
    if stripped.None? then None
    else
      var tar := StripSuffix(stripped.value, TAR_SUFFIX);
      var version := if tar.Some? then tar
                     else if component == "rootfs" then StripSuffix(stripped.value, IMAGE_SUFFIX)
                     else None;
      if version.Some? && IsArtifactVersion(version.value) then version else None
  }

  predicate NamesArtifact(component: string, version: string, name: string) {
    || name == component + "-v" + version + ".tar.zst"
    || (component == "rootfs" && name == component + "-v" + version + ".squashfs")
  }

  lemma WrittenNameIsRead(component: string, name: string, version: string)
    requires IsArtifactVersion(version) && NamesArtifact(component, version, name)
    ensures ArtifactVersionFromName(component, name) == Some(version)
  {
    var prefix := component + "-v";
    var suffix := if name == prefix + version + TAR_SUFFIX then TAR_SUFFIX else IMAGE_SUFFIX;
    PrefixIsRead(prefix, version, suffix);
    SuffixIsRead(version, suffix);
  }

  lemma ReadNameIsWritten(component: string, name: string, version: string)
    requires ArtifactVersionFromName(component, name) == Some(version)
    ensures IsArtifactVersion(version) && NamesArtifact(component, version, name)
  {
    var prefix := component + "-v";
    var stripped := StripPrefix(name, prefix).value;
    if StripSuffix(stripped, TAR_SUFFIX).Some? {
      Reassociate(prefix, version, TAR_SUFFIX);
    } else {
      Reassociate(prefix, version, IMAGE_SUFFIX);
    }
  }

  lemma Reassociate(a: string, b: string, c: string)
    ensures a + (b + c) == a + b + c
  {
  }

  /** Reading a name and writing one are inverse: a version is read exactly from the names
      that the format gives to it, and only well-formed versions are read. */
  lemma NameFormatRoundTrip(component: string, name: string, version: string)
    ensures ArtifactVersionFromName(component, name) == Some(version)
            <==> IsArtifactVersion(version) && NamesArtifact(component, version, name)
  {
    if IsArtifactVersion(version) && NamesArtifact(component, version, name) {
      WrittenNameIsRead(component, name, version);
    }
    if ArtifactVersionFromName(component, name) == Some(version) {
      ReadNameIsWritten(component, name, version);
    }
  }

  lemma PrefixIsRead(prefix: string, version: string, suffix: string)
    ensures StripPrefix(prefix + version + suffix, prefix) == Some(version + suffix)
  {
    assert prefix + version + suffix == prefix + (version + suffix);
    assert (prefix + (version + suffix))[|prefix|..] == version + suffix;
  }

  lemma SuffixIsRead(version: string, suffix: string)
    requires suffix == TAR_SUFFIX || suffix == IMAGE_SUFFIX
    ensures StripSuffix(version + suffix, suffix) == Some(version)
    ensures suffix == IMAGE_SUFFIX ==> StripSuffix(version + suffix, TAR_SUFFIX) == None
  {
    var s := version + suffix;
    assert s[|s| - |suffix|..] == suffix && s[..|s| - |suffix|] == version;
    if suffix == IMAGE_SUFFIX {
      assert s[|s| - 1] == 's';
      if |TAR_SUFFIX| <= |s| {
        assert s[|s| - |TAR_SUFFIX|..][|TAR_SUFFIX| - 1] == 's';
      }
    }
  }
}
