/**
 The zero-trust bootstrap: baseline rules with stable ids are merged into the rule list, each
 replacing the first rule that has its id or going to the end.
 */
module ZeroTrust {
  import opened Wrappers
  import opened AutoEnforcer

  function Upsert(rules: seq<Rule>, r: Rule): seq<Rule> {
    var p := Position(rules, r.id);
    if p.Some? then rules[p.value := r] else rules + [r]
  }

  function Merge(rules: seq<Rule>, baseline: seq<Rule>): seq<Rule> {
    if baseline == [] then rules
    else Upsert(Merge(rules, baseline[..|baseline| - 1]), baseline[|baseline| - 1])
  }

  /** The last baseline rule with the id. */
  function LastOf(baseline: seq<Rule>, id: string): (p: Option<Rule>)
    ensures p.Some? ==> p.value in baseline && p.value.id == id
    ensures p.None? ==> forall r :: r in baseline ==> r.id != id
  {
    if baseline == [] then None
    else
      var n := |baseline| - 1;
      if baseline[n].id == id then Some(baseline[n])
      else
        var rest := LastOf(baseline[..n], id);
        assert forall r :: r in baseline ==> r == baseline[n] || r in baseline[..n];
        rest
  }

  predicate FirstAt(rules: seq<Rule>, i: nat)
    requires i < |rules|
  {
    forall j :: 0 <= j < i ==> rules[j].id != rules[i].id
  }

  /** What the merge makes of a rule that was there before. */
  function Merged(rules: seq<Rule>, baseline: seq<Rule>, i: nat): Rule
    requires i < |rules|
  {
    var b := LastOf(baseline, rules[i].id);
    if FirstAt(rules, i) && b.Some? then b.value else rules[i]
  }

  /** `m` is the merge of `baseline` into `rules`, said without the loop: old rules keep their
      places and change only where a baseline rule has their id (the last such rule wins, the
      first holder of an id is replaced); behind them come baseline rules with ids that were not
      there, each id once and again the last rule for it; every baseline id is present. */
  ghost predicate IsMerge(m: seq<Rule>, rules: seq<Rule>, baseline: seq<Rule>) {
    && |rules| <= |m|
    && (forall i {:trigger rules[i]} {:trigger m[i]} :: 0 <= i < |rules| ==> m[i] == Merged(rules, baseline, i))
    && (forall i {:trigger m[i]} :: |rules| <= i < |m| ==>
          FirstAt(m, i) && LastOf(baseline, m[i].id) == Some(m[i]))
    && (forall r :: r in baseline ==> Position(m, r.id).Some?)
  }

  lemma MergedKeepsId(rules: seq<Rule>, baseline: seq<Rule>, i: nat)
    requires i < |rules|
    ensures Merged(rules, baseline, i).id == rules[i].id
  {
  }

  lemma PositionIsFirst(rules: seq<Rule>, i: nat)
    requires i < |rules| && FirstAt(rules, i)
    ensures Position(rules, rules[i].id) == Some(i)
  {
  }

  lemma UpsertKeepsIsMerge(m: seq<Rule>, rules: seq<Rule>, baseline: seq<Rule>, r: Rule)
    requires IsMerge(m, rules, baseline)
    ensures IsMerge(Upsert(m, r), rules, baseline + [r])
  {
    var m' := Upsert(m, r);
    var baseline' := baseline + [r];
    var p := Position(m, r.id);
    assert baseline'[..|baseline|] == baseline;
    assert forall id :: LastOf(baseline', id) == if r.id == id then Some(r) else LastOf(baseline, id);
    assert forall i :: 0 <= i < |m| ==> m'[i].id == m[i].id;
    assert forall i :: 0 <= i < |rules| ==> m[i].id == rules[i].id;
    forall i | 0 <= i < |rules| ensures m'[i] == Merged(rules, baseline', i) {
      if rules[i].id == r.id {
        assert FirstAt(rules, i) <==> FirstAt(m, i);
        if FirstAt(m, i) {
          PositionIsFirst(m, i);
        }
      }
    }
    forall i | |rules| <= i < |m'| ensures FirstAt(m', i) && LastOf(baseline', m'[i].id) == Some(m'[i]) {
      if i < |m| && m[i].id == r.id {
        PositionIsFirst(m, i);
      }
      if i < |m| {
        assert FirstAt(m, i);
      }
    }
    forall b | b in baseline' ensures Position(m', b.id).Some? {
      if b in baseline {
        var q := Position(m, b.id).value;
        assert m'[q].id == b.id;
      } else {
        assert b == r;
        assert m'[if p.Some? then p.value else |m|].id == r.id;
      }
    }
  }

  lemma {:induction false} MergeIsMerge(rules: seq<Rule>, baseline: seq<Rule>)
    ensures IsMerge(Merge(rules, baseline), rules, baseline)
  {
    if baseline != [] {
      var n := |baseline| - 1;
      MergeIsMerge(rules, baseline[..n]);
      UpsertKeepsIsMerge(Merge(rules, baseline[..n]), rules, baseline[..n], baseline[n]);
      assert baseline == baseline[..n] + [baseline[n]];
    }
  }

  lemma TailIdsAreNew(mm: seq<Rule>, m: seq<Rule>, baseline: seq<Rule>, i: nat)
    requires IsMerge(mm, m, baseline) && |m| <= i < |mm|
    ensures mm[i] in baseline && Position(m, mm[i].id).None?
  {
    assert FirstAt(mm, i) && LastOf(baseline, mm[i].id) == Some(mm[i]);
    forall j | 0 <= j < |m| ensures m[j].id != mm[i].id {
      assert mm[j] == Merged(m, baseline, j);
      MergedKeepsId(m, baseline, j);
    }
  }

  lemma MergeOfPresentIdsAddsNothing(mm: seq<Rule>, m: seq<Rule>, baseline: seq<Rule>)
    requires IsMerge(mm, m, baseline)
    requires forall r :: r in baseline ==> Position(m, r.id).Some?
    ensures |mm| == |m|
  {
    if |mm| > |m| {
      TailIdsAreNew(mm, m, baseline, |m|);
      assert false;
    }
  }

  /** Merging the baseline a second time changes nothing, whatever ids either list repeats. */
  lemma MergeIsIdempotent(rules: seq<Rule>, baseline: seq<Rule>)
    ensures Merge(Merge(rules, baseline), baseline) == Merge(rules, baseline)
  {
    var m := Merge(rules, baseline);
    var mm := Merge(m, baseline);
    MergeIsMerge(rules, baseline);
    MergeIsMerge(m, baseline);
    assert forall i :: 0 <= i < |rules| ==> m[i].id == rules[i].id;
    MergeOfPresentIdsAddsNothing(mm, m, baseline);
    forall i | 0 <= i < |m| ensures mm[i] == m[i] {
      if i < |rules| && FirstAt(m, i) {
        assert FirstAt(rules, i);
      }
      assert mm[i] == Merged(m, baseline, i);
    }
  }

  /** The rules with an id the baseline does not use. */
  function Unrelated(rules: seq<Rule>, baseline: seq<Rule>): seq<Rule> {
    if rules == [] then []
    else Unrelated(rules[..|rules| - 1], baseline)
         + (if LastOf(baseline, rules[|rules| - 1].id).None? then [rules[|rules| - 1]] else [])
  }

  lemma {:induction false} UnrelatedUpToMerged(m: seq<Rule>, rules: seq<Rule>, baseline: seq<Rule>)
    requires |m| == |rules|
    requires forall i :: 0 <= i < |rules| ==>
               m[i].id == rules[i].id && (LastOf(baseline, rules[i].id).None? ==> m[i] == rules[i])
    ensures Unrelated(m, baseline) == Unrelated(rules, baseline)
  {
    if rules != [] {
      var n := |rules| - 1;
      UnrelatedUpToMerged(m[..n], rules[..n], baseline);
      assert m[n].id == rules[n].id;
    }
  }

  lemma {:induction false} RelatedTail(m: seq<Rule>, k: nat, baseline: seq<Rule>)
    requires k <= |m|
    requires forall i :: k <= i < |m| ==> LastOf(baseline, m[i].id).Some?
    ensures Unrelated(m, baseline) == Unrelated(m[..k], baseline)
  {
    if k < |m| {
      var n := |m| - 1;
      RelatedTail(m[..n], k, baseline);
      assert m[..n][..k] == m[..k];
    } else {
      assert m[..k] == m;
    }
  }

  /** Rules the baseline does not name keep their content and their order. */
  lemma MergeKeepsUnrelatedRules(rules: seq<Rule>, baseline: seq<Rule>)
    ensures Unrelated(Merge(rules, baseline), baseline) == Unrelated(rules, baseline)
  {
    var m := Merge(rules, baseline);
    MergeIsMerge(rules, baseline);
    forall i | |rules| <= i < |m| ensures LastOf(baseline, m[i].id).Some? {
      assert FirstAt(m, i) && LastOf(baseline, m[i].id) == Some(m[i]);
    }
    RelatedTail(m, |rules|, baseline);
    forall i | 0 <= i < |rules|
      ensures m[..|rules|][i].id == rules[i].id
      ensures LastOf(baseline, rules[i].id).None? ==> m[..|rules|][i] == rules[i]
    {
      assert m[i] == Merged(rules, baseline, i);
    }
    UnrelatedUpToMerged(m[..|rules|], rules, baseline);
  }

  /** After the merge every baseline id leads to the last baseline rule that has it. */
  lemma MergeInstallsTheBaseline(rules: seq<Rule>, baseline: seq<Rule>, r: Rule)
    requires r in baseline
    ensures var m := Merge(rules, baseline);
            var p := Position(m, r.id);
            p.Some? && Some(m[p.value]) == LastOf(baseline, r.id)
  {
    var m := Merge(rules, baseline);
    MergeIsMerge(rules, baseline);
    var p := Position(m, r.id).value;
    if p < |rules| {
      assert m[p] == Merged(rules, baseline, p);
      forall j | 0 <= j < p ensures rules[j].id != rules[p].id {
        assert m[j] == Merged(rules, baseline, j);
        MergedKeepsId(rules, baseline, j);
        MergedKeepsId(rules, baseline, p);
      }
    } else {
      assert FirstAt(m, p) && LastOf(baseline, m[p].id) == Some(m[p]);
    }
  }

  class Bootstrap {
    var rules: seq<Rule>

    constructor (rules: seq<Rule>)
      ensures this.rules == rules
    {
      this.rules := rules;
    }

    /** Merges the baseline and counts what happened to each of its rules. */
    method InstallBaseline(baseline: seq<Rule>) returns (added: nat, updated: nat, ids: seq<string>)
      modifies this
      ensures rules == Merge(old(rules), baseline)
      ensures added + updated == |baseline| == |ids|
      ensures added == |rules| - |old(rules)|
      ensures forall i :: 0 <= i < |ids| ==> ids[i] == baseline[i].id
    {
      added, updated, ids := 0, 0, [];
      for k := 0 to |baseline|
        invariant rules == Merge(old(rules), baseline[..k])
        invariant added + updated == k == |ids|
        invariant added == |rules| - |old(rules)|
        invariant forall i :: 0 <= i < k ==> ids[i] == baseline[i].id
      {
        var rule := baseline[k];
        assert baseline[..k + 1][..k] == baseline[..k];
        ids := ids + [rule.id];
        var existing := 0;
        while existing < |rules| && rules[existing].id != rule.id
          invariant existing <= |rules|
          invariant forall j :: 0 <= j < existing ==> rules[j].id != rule.id
        {
          existing := existing + 1;
        }
        if existing < |rules| {
          PositionIsFirst(rules, existing);
          rules := rules[existing := rule];
          updated := updated + 1;
        } else {
          rules := rules + [rule];
          added := added + 1;
        }
      }
      assert baseline[..|baseline|] == baseline;
    }
  }
}
