/** The stat evaluator (`getAverageStat`): walks the timeline interval by
    interval, raising the running value to each class's base and adding
    growth, then adds the final class's boost once. Values are kept in
    hundredths of a stat point, so the fixed-mode arithmetic is exact. */
module StatEvaluator {
  import opened Catalog
  import opened Timeline

  /** Every event but the terminal one names a class of the table. */
  predicate Covered(t: seq<ClassChange>, classes: Classes) {
    |t| >= 2 && forall i :: 0 <= i < |t| - 1 ==> t[i].cls.Class? && t[i].cls.id in classes
  }

  lemma TimelineCovered(p: Props, classes: Classes)
    requires WellFormed(p, classes)
    ensures Covered(TimelineOf(p), classes)
  {
    var t := TimelineOf(p);
    var kept := Kept(p.classChanges, p.baseLevel, p.finalLevel);
    TimelineShape(p.classChanges, p.character.cls, p.baseLevel, p.finalLevel);
    KeptFromInput(p.classChanges, p.baseLevel, p.finalLevel);
    forall i | 0 <= i < |t| - 1 ensures t[i].cls.Class? && t[i].cls.id in classes {
      if i > 0 {
        assert t[i] == kept[i - 1];
        assert t[i] in p.classChanges;
      }
    }
  }

  /** The event that opens the last real interval: the last kept user change,
      or the starting class when no change was kept. */
  lemma LastRealEvent(p: Props)
    ensures var t := TimelineOf(p);
      var kept := Kept(p.classChanges, p.baseLevel, p.finalLevel);
      |t| >= 2 &&
      t[|t| - 2] == if kept == [] then ClassChange(p.baseLevel, Class(p.character.cls)) else kept[|kept| - 1]
  {
    TimelineShape(p.classChanges, p.character.cls, p.baseLevel, p.finalLevel);
  }

  /** `Math.max(val, base)`: never lowers the value, and the result reaches
      the class base. */
  function Floor(v: int, base: int): (r: int)
    ensures r >= v && r >= base
    ensures r == v || r == base
  {
    if v < base then base else v
  }

  /** What one timeline interval contributes to one stat: the class base, the
      combined growth percentage and the level span. */
  datatype Interval = Interval(base: int, growth: int, span: int)

  /** Every class the engine looks up answers every stat. */
  predicate Populated(classes: Classes) {
    forall id :: id in classes ==> Complete(classes[id])
  }

  /** The intervals of timeline `t` for `stat`, one per event but the
      terminal one. */
  function Intervals(t: seq<ClassChange>, growths: map<Stat, int>, classes: Classes, stat: Stat): (ivs: seq<Interval>)
    requires Covered(t, classes) && Populated(classes) && stat != Mv && stat in growths
    ensures |ivs| == |t| - 1
    ensures forall i {:trigger ivs[i]} :: 0 <= i < |t| - 1 ==>
      ivs[i] == Interval(classes[t[i].cls.id].bases[stat],
                         growths[stat] + classes[t[i].cls.id].growths[stat],
                         t[i + 1].level - t[i].level)
  {
    seq(|t| - 1, i requires 0 <= i < |t| - 1 =>
      var d := classes[t[i].cls.id];
      Interval(d.bases[stat], growths[stat] + d.growths[stat], t[i + 1].level - t[i].level))
  }

  function IntervalsOf(p: Props, classes: Classes, stat: Stat): (ivs: seq<Interval>)
    requires WellFormed(p, classes) && stat != Mv
  {
    TimelineCovered(p, classes);
    Intervals(TimelineOf(p), p.character.growths, classes, stat)
  }

  /** The class whose boost (and movement) applies: the one opening the last
      real interval. */
  function FinalClass(p: Props, classes: Classes): (d: ClassDef)
    requires WellFormed(p, classes)
    ensures Complete(d)
  {
    var t := TimelineOf(p);
    TimelineCovered(p, classes);
    classes[t[|t| - 2].cls.id]
  }

  /** Fixed mode: floor to the class base, then add the expected growth
      `growth% * span` (in hundredths), interval by interval. */
  function FixedFold(ivs: seq<Interval>, v: int): int {
    if ivs == [] then v
    else FixedFold(ivs[1..], Floor(v, 100 * ivs[0].base) + ivs[0].growth * ivs[0].span)
  }

  /** One trial of random mode: `Math.random() < 0.01 * growth`. */
  predicate Hit(draw: real, growth: int) {
    100.0 * draw < growth as real
  }

  /** Number of trials the source's `for (i = 0; i < span; i++)` runs. */
  function Trials(span: int): nat {
    if span > 0 then span else 0
  }

  /** Successful trials among the draws `from .. from + trials - 1`. */
  function Successes(draws: nat -> real, from: nat, trials: int, growth: int): (r: nat)
    ensures r <= Trials(trials)
  {
    if trials <= 0 then 0
    else Successes(draws, from, trials - 1, growth) + (if Hit(draws(from + trials - 1), growth) then 1 else 0)
  }

  /** Random mode: floor to the class base, then add one point (100
      hundredths) per successful trial; `cursor` is the next unused draw. */
  function RandomFold(ivs: seq<Interval>, v: int, draws: nat -> real, cursor: nat): int {
    if ivs == [] then v
    else RandomFold(ivs[1..],
                    Floor(v, 100 * ivs[0].base) + 100 * Successes(draws, cursor, ivs[0].span, ivs[0].growth),
                    draws, cursor + Trials(ivs[0].span))
  }

  /** One interval of the fixed-mode walk, as the loop performs it. */
  lemma FixedFoldStep(ivs: seq<Interval>, i: nat, before: int, after: int)
    requires i < |ivs|
    requires after == Floor(before, 100 * ivs[i].base) + ivs[i].growth * ivs[i].span
    ensures FixedFold(ivs[i..], before) == FixedFold(ivs[i + 1..], after)
  {
    assert ivs[i..][1..] == ivs[i + 1..];
  }

  /** One interval of the random-mode walk, as the loop performs it. */
  lemma RandomFoldStep(ivs: seq<Interval>, i: nat, before: int, after: int, draws: nat -> real, from: nat, cursor: nat)
    requires i < |ivs|
    requires after == Floor(before, 100 * ivs[i].base) + 100 * Successes(draws, from, ivs[i].span, ivs[i].growth)
    requires cursor == from + Trials(ivs[i].span)
    ensures RandomFold(ivs[i..], before, draws, from) == RandomFold(ivs[i + 1..], after, draws, cursor)
  {
    assert ivs[i..][1..] == ivs[i + 1..];
  }

  /** The run in which every trial fails: only the class floors act. */
  function FloorChain(ivs: seq<Interval>, v: int): int {
    if ivs == [] then v else FloorChain(ivs[1..], Floor(v, 100 * ivs[0].base))
  }

  /** Total number of trials over all intervals. */
  function TotalTrials(ivs: seq<Interval>): nat {
    if ivs == [] then 0 else Trials(ivs[0].span) + TotalTrials(ivs[1..])
  }

  /** Sum of the level spans, negative ones included. */
  function SpanSum(ivs: seq<Interval>): int {
    if ivs == [] then 0 else ivs[0].span + SpanSum(ivs[1..])
  }

  /** The value `getAverageStat(stat)` returns, in hundredths. */
  function FixedStat(p: Props, classes: Classes, stat: Stat): int
    requires WellFormed(p, classes)
  {
    if stat == Mv then 100 * FinalClass(p, classes).bases[Mv]
    else FixedFold(IntervalsOf(p, classes, stat), 100 * p.baseStats[stat]) + 100 * FinalClass(p, classes).boosts[stat]
  }

  /** The value `getAverageStat(stat, false)` returns, in hundredths, when
      the successive `Math.random()` calls yield `draws(0), draws(1), ...`. */
  function SampleStat(p: Props, classes: Classes, stat: Stat, draws: nat -> real): int
    requires WellFormed(p, classes)
  {
    if stat == Mv then 100 * FinalClass(p, classes).bases[Mv]
    else RandomFold(IntervalsOf(p, classes, stat), 100 * p.baseStats[stat], draws, 0) + 100 * FinalClass(p, classes).boosts[stat]
  }

  /** The trial loop of random mode: one draw per level of the span, one
      point (100 hundredths) per draw below the growth modifier. */
  method RunTrials(draws: nat -> real, from: nat, levelDifference: int, growth: int) returns (gained: int, cursor: nat)
    ensures gained == 100 * Successes(draws, from, levelDifference, growth)
    ensures cursor == from + Trials(levelDifference)
  {
    gained, cursor := 0, from;
    var j := 0;
    while j < levelDifference
      invariant 0 <= j <= Trials(levelDifference)
      invariant cursor == from + j
      invariant gained == 100 * Successes(draws, from, j, growth)
    {
      if Hit(draws(cursor), growth) {
        gained := gained + 100;
      }
      cursor := cursor + 1;
      j := j + 1;
    }
  }

  /** The interval loop of `getAverageStat`: for each event but the
      terminal one, raise the value to the class base, then add the expected
      growth (fixed mode) or run one trial per level (random mode). */
  method WalkIntervals(t: seq<ClassChange>, growths: map<Stat, int>, classes: Classes, stat: Stat,
                       start: int, fixed: bool, draws: nat -> real) returns (val: int)
    requires Covered(t, classes) && Populated(classes) && stat != Mv && stat in growths
    ensures fixed ==> val == FixedFold(Intervals(t, growths, classes, stat), start)
    ensures !fixed ==> val == RandomFold(Intervals(t, growths, classes, stat), start, draws, 0)
  {
    ghost var ivs := Intervals(t, growths, classes, stat);
    val := start;
    var cursor: nat := 0;
    var i := 0;
    assert ivs[i..] == ivs;
    while i < |t| - 1
      invariant 0 <= i <= |t| - 1
      invariant fixed ==> FixedFold(ivs[i..], val) == FixedFold(ivs, start)
      invariant !fixed ==> RandomFold(ivs[i..], val, draws, cursor) == RandomFold(ivs, start, draws, 0)
    {
      ghost var before := val;
      var cls := classes[t[i].cls.id];
      // Floor: the running value reaches this class's base.
      val := Floor(val, 100 * cls.bases[stat]);
      var growth := growths[stat] + cls.growths[stat];
      var levelDifference := t[i + 1].level - t[i].level;
      assert ivs[i] == Interval(cls.bases[stat], growth, levelDifference);
      if fixed {
        val := val + growth * levelDifference;
        FixedFoldStep(ivs, i, before, val);
      } else {
        var gained;
        ghost var from := cursor;
        gained, cursor := RunTrials(draws, cursor, levelDifference, growth);
        val := val + gained;
        RandomFoldStep(ivs, i, before, val, draws, from, cursor);
      }
      i := i + 1;
    }
  }

  /** `getAverageStat(stat, fixed)`: builds the timeline, answers movement
      from the final class, otherwise walks the intervals and adds the final
      class's boost once. The closing `Math.round(val * 100) / 100` is the
      identity on hundredths. */
  method AverageStat(p: Props, classes: Classes, stat: Stat, fixed: bool, draws: nat -> real) returns (v: int)
    requires WellFormed(p, classes)
    ensures fixed ==> v == FixedStat(p, classes, stat)
    ensures !fixed ==> v == SampleStat(p, classes, stat, draws)
  {
    var classChanges := FormatClassChanges(p);
    TimelineCovered(p, classes);
    var lastClass := classes[classChanges[|classChanges| - 2].cls.id];

    // Movement is read off the final class, with no walk.
    if stat == Mv {
      return 100 * lastClass.bases[Mv];
    }

    var val := WalkIntervals(classChanges, p.character.growths, classes, stat, 100 * p.baseStats[stat], fixed, draws);

    // The final class's boost, applied once.
    val := val + 100 * lastClass.boosts[stat];
    v := val;
  }
}

/** Properties of the stat evaluator. */
module StatProperties {
  import opened Catalog
  import opened Timeline
  import opened StatEvaluator

  /** A higher running value never ends lower, in either mode (the class
      floors only ever raise the value). */
  lemma {:induction false} FoldsMonotone(ivs: seq<Interval>, v: int, w: int, draws: nat -> real, cursor: nat)
    requires v <= w
    ensures FixedFold(ivs, v) <= FixedFold(ivs, w)
    ensures RandomFold(ivs, v, draws, cursor) <= RandomFold(ivs, w, draws, cursor)
    ensures FloorChain(ivs, v) <= FloorChain(ivs, w)
  {
    if ivs != [] {
      var b := 100 * ivs[0].base;
      var g := ivs[0].growth * ivs[0].span;
      var s := 100 * Successes(draws, cursor, ivs[0].span, ivs[0].growth);
      FoldsMonotone(ivs[1..], Floor(v, b) + g, Floor(w, b) + g, draws, cursor);
      FoldsMonotone(ivs[1..], Floor(v, b) + s, Floor(w, b) + s, draws, cursor + Trials(ivs[0].span));
      FoldsMonotone(ivs[1..], Floor(v, b), Floor(w, b), draws, cursor);
    }
  }

  /** A random walk started within `slack` above `v` ends no lower than the
      all-failures walk from `v`, and no higher than it plus the slack plus
      one point per trial. */
  lemma {:induction false} RandomBetween(ivs: seq<Interval>, v: int, w: int, slack: int, draws: nat -> real, cursor: nat)
    requires v <= w <= v + slack
    ensures FloorChain(ivs, v) <= RandomFold(ivs, w, draws, cursor)
    ensures RandomFold(ivs, w, draws, cursor) <= FloorChain(ivs, v) + slack + 100 * TotalTrials(ivs)
  {
    if ivs != [] {
      var b := 100 * ivs[0].base;
      var n := Trials(ivs[0].span);
      var s := Successes(draws, cursor, ivs[0].span, ivs[0].growth);
      RandomBetween(ivs[1..], Floor(v, b), Floor(w, b) + 100 * s, slack + 100 * n, draws, cursor + n);
    }
  }

  /** The value of a sample when every trial fails. */
  function AllFailures(p: Props, classes: Classes, stat: Stat): int
    requires WellFormed(p, classes) && stat != Mv
  {
    FloorChain(IntervalsOf(p, classes, stat), 100 * p.baseStats[stat]) + 100 * FinalClass(p, classes).boosts[stat]
  }

  /** Every random sample lies between the all-failures run and the
      all-failures run plus one point per trial; both bounds carry the same
      floors and the same final boost. */
  lemma SampleBounds(p: Props, classes: Classes, stat: Stat, draws: nat -> real)
    requires WellFormed(p, classes) && stat != Mv
    ensures AllFailures(p, classes, stat) <= SampleStat(p, classes, stat, draws)
    ensures SampleStat(p, classes, stat, draws)
         <= AllFailures(p, classes, stat) + 100 * TotalTrials(IntervalsOf(p, classes, stat))
  {
    var v := 100 * p.baseStats[stat];
    RandomBetween(IntervalsOf(p, classes, stat), v, v, 0, draws, 0);
  }

  /** The spans of the intervals from index `k` on telescope to the level
      difference between the last entry and entry `k`. */
  lemma {:induction false} SpansTelescope(t: seq<ClassChange>, growths: map<Stat, int>, classes: Classes, stat: Stat, k: nat)
    requires Covered(t, classes) && Populated(classes) && stat != Mv && stat in growths
    requires k <= |t| - 1
    ensures SpanSum(Intervals(t, growths, classes, stat)[k..]) == t[|t| - 1].level - t[k].level
    decreases |t| - 1 - k
  {
    var ivs := Intervals(t, growths, classes, stat);
    if k < |t| - 1 {
      SpansTelescope(t, growths, classes, stat, k + 1);
      assert ivs[k..][1..] == ivs[k + 1..];
    }
  }

  /** Whatever the class changes, the spans of the timeline's intervals add
      up to the final level minus the base level. */
  lemma TimelineSpan(p: Props, classes: Classes, stat: Stat)
    requires WellFormed(p, classes) && stat != Mv
    ensures SpanSum(IntervalsOf(p, classes, stat)) == p.finalLevel - p.baseLevel
  {
    var t := TimelineOf(p);
    TimelineCovered(p, classes);
    TimelineShape(p.classChanges, p.character.cls, p.baseLevel, p.finalLevel);
    var ivs := Intervals(t, p.character.growths, classes, stat);
    SpansTelescope(t, p.character.growths, classes, stat, 0);
    assert ivs[0..] == ivs;
  }

  /** Without negative spans every level of a span is one trial. */
  lemma {:induction false} NonNegativeSpansTrials(ivs: seq<Interval>)
    requires forall k :: 0 <= k < |ivs| ==> ivs[k].span >= 0
    ensures TotalTrials(ivs) == SpanSum(ivs)
  {
    if ivs != [] {
      NonNegativeSpansTrials(ivs[1..]);
    }
  }

  /** On level-sorted changes and a range that is not inverted, random mode
      runs one trial per level gained: `finalLevel - baseLevel` in all. */
  lemma SortedTrialCount(p: Props, classes: Classes, stat: Stat)
    requires WellFormed(p, classes) && stat != Mv
    requires Sorted(p.classChanges) && p.baseLevel <= p.finalLevel
    ensures TotalTrials(IntervalsOf(p, classes, stat)) == p.finalLevel - p.baseLevel
  {
    var t := TimelineOf(p);
    var ivs := IntervalsOf(p, classes, stat);
    SortedTimeline(p.classChanges, p.character.cls, p.baseLevel, p.finalLevel);
    TimelineCovered(p, classes);
    forall k | 0 <= k < |ivs| ensures ivs[k].span >= 0 {
      assert ivs[k].span == t[k + 1].level - t[k].level;
      assert t[k].level <= t[k + 1].level;
    }
    NonNegativeSpansTrials(ivs);
    TimelineSpan(p, classes, stat);
  }

  /** On level-sorted changes a random sample gains at most one point per
      level over the all-failures run. */
  lemma SortedSampleBounds(p: Props, classes: Classes, stat: Stat, draws: nat -> real)
    requires WellFormed(p, classes) && stat != Mv
    requires Sorted(p.classChanges) && p.baseLevel <= p.finalLevel
    ensures AllFailures(p, classes, stat) <= SampleStat(p, classes, stat, draws)
         <= AllFailures(p, classes, stat) + 100 * (p.finalLevel - p.baseLevel)
  {
    SampleBounds(p, classes, stat, draws);
    SortedTrialCount(p, classes, stat);
  }

  /** Draws are what `Math.random()` yields: reals in `[0, 1)`. */
  ghost predicate UnitDraws(draws: nat -> real) {
    forall j :: 0.0 <= draws(j) < 1.0
  }

  /** A growth of at least 100% always succeeds and one of at most 0% never
      does. */
  lemma {:induction false} CertainTrials(draws: nat -> real, from: nat, trials: int, growth: int)
    requires UnitDraws(draws)
    ensures growth >= 100 ==> Successes(draws, from, trials, growth) == Trials(trials)
    ensures growth <= 0 ==> Successes(draws, from, trials, growth) == 0
  {
    if trials > 0 {
      CertainTrials(draws, from, trials - 1, growth);
      var d := draws(from + trials - 1);
      assert 0.0 <= d < 1.0;
      assert growth >= 100 ==> 100.0 * d < growth as real;
    }
  }

  /** When every interval's growth is 0% or 100% and no span is negative, the
      random walk is certain and coincides with the fixed-mode walk. */
  lemma {:induction false} CertainWalksAgree(ivs: seq<Interval>, v: int, draws: nat -> real, cursor: nat)
    requires UnitDraws(draws)
    requires forall k :: 0 <= k < |ivs| ==> (ivs[k].growth == 0 || ivs[k].growth == 100) && ivs[k].span >= 0
    ensures RandomFold(ivs, v, draws, cursor) == FixedFold(ivs, v)
  {
    if ivs != [] {
      CertainTrials(draws, cursor, ivs[0].span, ivs[0].growth);
      var next := Floor(v, 100 * ivs[0].base) + ivs[0].growth * ivs[0].span;
      assert next == Floor(v, 100 * ivs[0].base) + 100 * Successes(draws, cursor, ivs[0].span, ivs[0].growth);
      CertainWalksAgree(ivs[1..], next, draws, cursor + Trials(ivs[0].span));
    }
  }

  lemma CertainGrowthModesAgree(p: Props, classes: Classes, stat: Stat, draws: nat -> real)
    requires WellFormed(p, classes) && UnitDraws(draws)
    requires stat != Mv ==> var ivs := IntervalsOf(p, classes, stat);
      forall k :: 0 <= k < |ivs| ==> (ivs[k].growth == 0 || ivs[k].growth == 100) && ivs[k].span >= 0
    ensures SampleStat(p, classes, stat, draws) == FixedStat(p, classes, stat)
  {
    if stat != Mv {
      CertainWalksAgree(IntervalsOf(p, classes, stat), 100 * p.baseStats[stat], draws, 0);
    }
  }

  /** Intervals of zero length contribute nothing in either mode. */
  lemma {:induction false} ZeroSpansOnlyFloor(ivs: seq<Interval>, v: int, draws: nat -> real, cursor: nat)
    requires forall k :: 0 <= k < |ivs| ==> ivs[k].span == 0
    ensures FixedFold(ivs, v) == FloorChain(ivs, v)
    ensures RandomFold(ivs, v, draws, cursor) == FloorChain(ivs, v)
  {
    if ivs != [] {
      ZeroSpansOnlyFloor(ivs[1..], Floor(v, 100 * ivs[0].base), draws, cursor);
    }
  }

  /** A level-sorted timeline that ends at the level it starts at has only
      zero-length intervals. */
  lemma FlatTimelineZeroSpans(t: seq<ClassChange>)
    requires Sorted(t) && |t| >= 2 && t[0].level == t[|t| - 1].level
    ensures forall k :: 0 <= k < |t| - 1 ==> t[k + 1].level - t[k].level == 0
  {
    forall k | 0 <= k < |t| - 1 ensures t[k + 1].level - t[k].level == 0 {
      assert t[0].level <= t[k].level;
      assert t[k].level <= t[k + 1].level;
      assert t[k + 1].level <= t[|t| - 1].level;
    }
  }

  /** With level-sorted changes and the final level equal to the base level,
      every interval of the timeline has length zero. */
  lemma FlatRangeZeroSpans(p: Props, classes: Classes, stat: Stat)
    requires WellFormed(p, classes) && stat != Mv
    requires Sorted(p.classChanges) && p.finalLevel == p.baseLevel
    ensures var ivs := IntervalsOf(p, classes, stat);
      forall k :: 0 <= k < |ivs| ==> ivs[k].span == 0
  {
    var t := TimelineOf(p);
    SortedTimeline(p.classChanges, p.character.cls, p.baseLevel, p.finalLevel);
    TimelineShape(p.classChanges, p.character.cls, p.baseLevel, p.finalLevel);
    FlatTimelineZeroSpans(t);
  }

  /** With level-sorted changes and the final level equal to the base level,
      every mode yields the joining stat raised through the class floors, plus
      the final boost, with no growth at all. */
  lemma ZeroSpanNoGrowth(p: Props, classes: Classes, stat: Stat, draws: nat -> real)
    requires WellFormed(p, classes) && stat != Mv
    requires Sorted(p.classChanges) && p.finalLevel == p.baseLevel
    ensures FixedStat(p, classes, stat) == AllFailures(p, classes, stat)
    ensures SampleStat(p, classes, stat, draws) == AllFailures(p, classes, stat)
  {
    FlatRangeZeroSpans(p, classes, stat);
    ZeroSpansOnlyFloor(IntervalsOf(p, classes, stat), 100 * p.baseStats[stat], draws, 0);
  }

  /** A final level below the base level keeps no user change. */
  lemma InvertedRangeKeepsNothing(cs: seq<ClassChange>, baseLevel: int, finalLevel: int)
    requires finalLevel < baseLevel
    ensures Kept(cs, baseLevel, finalLevel) == []
  {
    KeptIsSlice(cs, baseLevel, finalLevel);
  }

  /** With no user change kept the timeline is one interval in the starting
      class: fixed mode adds `growth * (final - base)` hundredths even when
      that span is negative, while random mode runs no trial on a negative
      span and then yields only the floored joining stat and the boost. */
  lemma NoChangesKept(p: Props, classes: Classes, stat: Stat, draws: nat -> real)
    requires WellFormed(p, classes) && stat != Mv
    requires Kept(p.classChanges, p.baseLevel, p.finalLevel) == []
    ensures var d := classes[p.character.cls];
      var floored := Floor(100 * p.baseStats[stat], 100 * d.bases[stat]);
      var growth := p.character.growths[stat] + d.growths[stat];
      FixedStat(p, classes, stat) == floored + growth * (p.finalLevel - p.baseLevel) + 100 * d.boosts[stat] &&
      AllFailures(p, classes, stat) == floored + 100 * d.boosts[stat] &&
      (p.finalLevel <= p.baseLevel ==> SampleStat(p, classes, stat, draws) == floored + 100 * d.boosts[stat])
  {
    var t := TimelineOf(p);
    var d := classes[p.character.cls];
    assert t == [ClassChange(p.baseLevel, Class(p.character.cls)), ClassChange(p.finalLevel, Placeholder)];
    TimelineCovered(p, classes);
    var ivs := IntervalsOf(p, classes, stat);
    assert ivs[0] == Interval(d.bases[stat], p.character.growths[stat] + d.growths[stat], p.finalLevel - p.baseLevel);
    assert ivs[1..] == [];
    assert FinalClass(p, classes) == d;
    var v := 100 * p.baseStats[stat];
    var floored := Floor(v, 100 * d.bases[stat]);
    assert FixedFold(ivs, v) == FixedFold(ivs[1..], floored + ivs[0].growth * ivs[0].span);
    assert FloorChain(ivs, v) == FloorChain(ivs[1..], floored);
    if p.finalLevel <= p.baseLevel {
      assert RandomFold(ivs, v, draws, 0) == RandomFold(ivs[1..], floored, draws, 0);
    }
  }

  /** The worked example: growth 20%, class base 0, boost 0, from level 1 to
      level 21 with no class change gives 4.00 (400 hundredths). */
  lemma TwentyPercentOverTwentyLevels(p: Props, classes: Classes)
    requires WellFormed(p, classes)
    requires p.classChanges == [] && p.baseLevel == 1 && p.finalLevel == 21
    requires p.baseStats[Str] == 0 && p.character.growths[Str] == 20
    requires classes[p.character.cls].bases[Str] == 0
    requires classes[p.character.cls].growths[Str] == 0
    requires classes[p.character.cls].boosts[Str] == 0
    ensures FixedStat(p, classes, Str) == 400
  {
    NoChangesKept(p, classes, Str, j => 0.0);
  }

  /** Movement is read from the class opening the last real interval (the
      last kept change, or the starting class when none is kept), the same in
      both modes, with no floor, growth or boost applied. */
  lemma MovementIsFinalClassBase(p: Props, classes: Classes, draws: nat -> real)
    requires WellFormed(p, classes)
    ensures var kept := Kept(p.classChanges, p.baseLevel, p.finalLevel);
      var last := if kept == [] then p.character.cls else kept[|kept| - 1].cls.id;
      last in classes &&
      FixedStat(p, classes, Mv) == 100 * classes[last].bases[Mv] &&
      SampleStat(p, classes, Mv, draws) == 100 * classes[last].bases[Mv]
  {
    LastRealEvent(p);
    TimelineCovered(p, classes);
  }

  /** Movement depends on the class-change timeline only: joining stats and
      growth rates do not affect it. */
  lemma MovementIgnoresStatsAndGrowths(p: Props, q: Props, classes: Classes)
    requires WellFormed(p, classes) && WellFormed(q, classes)
    requires p.character.cls == q.character.cls && p.classChanges == q.classChanges
    requires p.baseLevel == q.baseLevel && p.finalLevel == q.finalLevel
    ensures FixedStat(p, classes, Mv) == FixedStat(q, classes, Mv)
  {
    assert TimelineOf(p) == TimelineOf(q);
  }
}
