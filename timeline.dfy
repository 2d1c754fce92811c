/** The timeline builder (`formatClassChanges`): clips the user's class-change
    list to the projected level range and brackets it with the two boundary
    events. */
module Timeline {
  import opened Catalog

  /** Levels ascend (ties allowed) along the list. */
  predicate Sorted(cs: seq<ClassChange>) {
    forall i, j :: 0 <= i <= j < |cs| ==> cs[i].level <= cs[j].level
  }

  /** Index of the first event at or above `baseLevel`, or `|cs|` if none:
      the length of the prefix the first loop of the builder drops. */
  function FirstAtLeast(cs: seq<ClassChange>, baseLevel: int): (k: nat)
    ensures k <= |cs|
    ensures forall j :: 0 <= j < k ==> cs[j].level < baseLevel
    ensures k < |cs| ==> cs[k].level >= baseLevel
  {
    if cs == [] then 0
    else if cs[0].level >= baseLevel then 0
    else 1 + FirstAtLeast(cs[1..], baseLevel)
  }

  /** Index of the first event above `finalLevel`, or `|cs|` if none: where
      the second loop of the builder cuts the list. */
  function FirstAbove(cs: seq<ClassChange>, finalLevel: int): (k: nat)
    ensures k <= |cs|
    ensures forall j :: 0 <= j < k ==> cs[j].level <= finalLevel
    ensures k < |cs| ==> cs[k].level > finalLevel
  {
    if cs == [] then 0
    else if cs[0].level > finalLevel then 0
    else 1 + FirstAbove(cs[1..], finalLevel)
  }

  /** The contract of `FirstAtLeast` determines it. */
  lemma FirstAtLeastUnique(cs: seq<ClassChange>, baseLevel: int, k: nat)
    requires k <= |cs|
    requires forall j :: 0 <= j < k ==> cs[j].level < baseLevel
    requires k < |cs| ==> cs[k].level >= baseLevel
    ensures k == FirstAtLeast(cs, baseLevel)
  {
  }

  /** The contract of `FirstAbove` determines it. */
  lemma FirstAboveUnique(cs: seq<ClassChange>, finalLevel: int, k: nat)
    requires k <= |cs|
    requires forall j :: 0 <= j < k ==> cs[j].level <= finalLevel
    requires k < |cs| ==> cs[k].level > finalLevel
    ensures k == FirstAbove(cs, finalLevel)
  {
  }

  /** First index of the input that is kept. */
  function KeptStart(cs: seq<ClassChange>, baseLevel: int): nat {
    FirstAtLeast(cs, baseLevel)
  }

  /** One past the last index of the input that is kept. */
  function KeptEnd(cs: seq<ClassChange>, baseLevel: int, finalLevel: int): nat {
    var lo := KeptStart(cs, baseLevel);
    lo + FirstAbove(cs[lo..], finalLevel)
  }

  /** The user events that survive clipping. */
  function Kept(cs: seq<ClassChange>, baseLevel: int, finalLevel: int): seq<ClassChange> {
    var lo := KeptStart(cs, baseLevel);
    cs[lo..][..FirstAbove(cs[lo..], finalLevel)]
  }

  /** The timeline the builder returns. */
  function Timeline(cs: seq<ClassChange>, startClass: ClassId, baseLevel: int, finalLevel: int): seq<ClassChange> {
    [ClassChange(baseLevel, Class(startClass))] + Kept(cs, baseLevel, finalLevel) + [ClassChange(finalLevel, Placeholder)]
  }

  function TimelineOf(p: Props): seq<ClassChange> {
    Timeline(p.classChanges, p.character.cls, p.baseLevel, p.finalLevel)
  }

  /** The first loop of `formatClassChanges`: finds the first event at or
      above the base level and splices away everything before it (all of the
      list when there is none). */
  method RemoveBeforeBase(classChanges: seq<ClassChange>, baseLevel: int) returns (rest: seq<ClassChange>)
    ensures rest == classChanges[FirstAtLeast(classChanges, baseLevel)..]
  {
    var spliceLength := |classChanges|;
    var i := 0;
    while i < |classChanges|
      invariant 0 <= i <= |classChanges|
      invariant spliceLength == |classChanges|
      invariant forall k :: 0 <= k < i ==> classChanges[k].level < baseLevel
    {
      if classChanges[i].level >= baseLevel {
        spliceLength := i;
        break;
      }
      i := i + 1;
    }
    FirstAtLeastUnique(classChanges, baseLevel, spliceLength);
    rest := classChanges[spliceLength..];
  }

  /** The second loop of `formatClassChanges`: splices away everything from
      the first event above the final level on. */
  method RemoveAfterFinal(classChanges: seq<ClassChange>, finalLevel: int) returns (kept: seq<ClassChange>)
    ensures kept == classChanges[..FirstAbove(classChanges, finalLevel)]
  {
    kept := classChanges;
    ghost var cut := |classChanges|;
    var i := 0;
    while i < |kept|
      invariant 0 <= i <= |kept|
      invariant kept == classChanges && cut == |classChanges|
      invariant forall k :: 0 <= k < i ==> kept[k].level <= finalLevel
    {
      if kept[i].level > finalLevel {
        cut := i;
        kept := kept[..i];
        break;
      }
      i := i + 1;
    }
    FirstAboveUnique(classChanges, finalLevel, cut);
  }

  /** `formatClassChanges`: copies the list, drops the events before the first
      one at or above the base level, cuts at the first event above the final
      level, appends the placeholder and prepends the starting class. */
  method FormatClassChanges(p: Props) returns (timeline: seq<ClassChange>)
    ensures timeline == TimelineOf(p)
    ensures |timeline| >= 2
    ensures timeline[0] == ClassChange(p.baseLevel, Class(p.character.cls))
    ensures timeline[|timeline| - 1] == ClassChange(p.finalLevel, Placeholder)
  {
    var classChanges := p.classChanges;
    // Drop the prefix below the base level.
    classChanges := RemoveBeforeBase(classChanges, p.baseLevel);
    // Cut at the first event past the final level.
    classChanges := RemoveAfterFinal(classChanges, p.finalLevel);
    // The placeholder for the final level, then the starting class.
    classChanges := classChanges + [ClassChange(p.finalLevel, Placeholder)];
    classChanges := [ClassChange(p.baseLevel, Class(p.character.cls))] + classChanges;
    timeline := classChanges;
    TimelineShape(p.classChanges, p.character.cls, p.baseLevel, p.finalLevel);
  }

  /** The kept events are exactly the contiguous slice between `KeptStart`
      and `KeptEnd`: everything before the start lies below the base level,
      the start (if any) is at or above it, everything in the slice is at
      most the final level, and the first event after it (if any) is above. */
  lemma KeptIsSlice(cs: seq<ClassChange>, baseLevel: int, finalLevel: int)
    ensures KeptStart(cs, baseLevel) <= KeptEnd(cs, baseLevel, finalLevel) <= |cs|
    ensures Kept(cs, baseLevel, finalLevel) == cs[KeptStart(cs, baseLevel)..KeptEnd(cs, baseLevel, finalLevel)]
    ensures forall k :: 0 <= k < KeptStart(cs, baseLevel) ==> cs[k].level < baseLevel
    ensures KeptStart(cs, baseLevel) < |cs| ==> cs[KeptStart(cs, baseLevel)].level >= baseLevel
    ensures forall k :: KeptStart(cs, baseLevel) <= k < KeptEnd(cs, baseLevel, finalLevel) ==> cs[k].level <= finalLevel
    ensures KeptEnd(cs, baseLevel, finalLevel) < |cs| ==> cs[KeptEnd(cs, baseLevel, finalLevel)].level > finalLevel
  {
    var lo := KeptStart(cs, baseLevel);
    var hi := KeptEnd(cs, baseLevel, finalLevel);
    forall k | lo <= k < hi ensures cs[k].level <= finalLevel {
      assert cs[k] == cs[lo..][k - lo];
    }
    if hi < |cs| {
      assert cs[hi] == cs[lo..][hi - lo];
    }
  }

  /** Whatever the input, the timeline starts at the base level with the
      starting class and ends at the final level with the placeholder; every
      event in between is a kept user event, each at most the final level, and
      the first of them (if any) at least the base level. */
  lemma TimelineShape(cs: seq<ClassChange>, startClass: ClassId, baseLevel: int, finalLevel: int)
    ensures var t := Timeline(cs, startClass, baseLevel, finalLevel);
      |t| == |Kept(cs, baseLevel, finalLevel)| + 2 &&
      t[0] == ClassChange(baseLevel, Class(startClass)) &&
      t[|t| - 1] == ClassChange(finalLevel, Placeholder) &&
      t[1..|t| - 1] == Kept(cs, baseLevel, finalLevel) &&
      (forall k :: 1 <= k < |t| - 1 ==> t[k].level <= finalLevel) &&
      (|t| > 2 ==> t[1].level >= baseLevel)
  {
    var t := Timeline(cs, startClass, baseLevel, finalLevel);
    var kept := Kept(cs, baseLevel, finalLevel);
    KeptIsSlice(cs, baseLevel, finalLevel);
    assert t[1..|t| - 1] == kept;
    forall k | 1 <= k < |t| - 1 ensures t[k].level <= finalLevel {
      assert t[k] == kept[k - 1];
      assert kept[k - 1] == cs[KeptStart(cs, baseLevel) + k - 1];
    }
    if |t| > 2 {
      assert t[1] == kept[0] == cs[KeptStart(cs, baseLevel)];
    }
  }

  /** Every kept event is an event of the input. */
  lemma KeptFromInput(cs: seq<ClassChange>, baseLevel: int, finalLevel: int)
    ensures forall e :: e in Kept(cs, baseLevel, finalLevel) ==> e in cs
  {
    KeptIsSlice(cs, baseLevel, finalLevel);
    var lo := KeptStart(cs, baseLevel);
    var hi := KeptEnd(cs, baseLevel, finalLevel);
    forall e | e in cs[lo..hi] ensures e in cs {
      var k :| 0 <= k < hi - lo && cs[lo..hi][k] == e;
      assert cs[lo + k] == e;
    }
  }

  /** Reference definition: the events whose level lies in the projected range. */
  function InRange(cs: seq<ClassChange>, baseLevel: int, finalLevel: int): seq<ClassChange> {
    if cs == [] then []
    else if baseLevel <= cs[0].level <= finalLevel then [cs[0]] + InRange(cs[1..], baseLevel, finalLevel)
    else InRange(cs[1..], baseLevel, finalLevel)
  }

  lemma {:induction false} InRangeEmptyAbove(cs: seq<ClassChange>, baseLevel: int, finalLevel: int)
    requires forall k :: 0 <= k < |cs| ==> cs[k].level > finalLevel
    ensures InRange(cs, baseLevel, finalLevel) == []
  {
    if cs != [] {
      InRangeEmptyAbove(cs[1..], baseLevel, finalLevel);
    }
  }

  lemma {:induction false} PrefixIsInRange(cs: seq<ClassChange>, baseLevel: int, finalLevel: int)
    requires Sorted(cs)
    requires forall k :: 0 <= k < |cs| ==> cs[k].level >= baseLevel
    ensures cs[..FirstAbove(cs, finalLevel)] == InRange(cs, baseLevel, finalLevel)
  {
    if cs == [] {
    } else if cs[0].level > finalLevel {
      InRangeEmptyAbove(cs, baseLevel, finalLevel);
    } else {
      PrefixIsInRange(cs[1..], baseLevel, finalLevel);
      assert cs[..FirstAbove(cs, finalLevel)] == [cs[0]] + cs[1..][..FirstAbove(cs[1..], finalLevel)];
    }
  }

  /** On level-sorted input the prefix/suffix trim is the same as filtering
      the events to the range `baseLevel..finalLevel`. */
  lemma {:induction false} SortedKeptIsInRange(cs: seq<ClassChange>, baseLevel: int, finalLevel: int)
    requires Sorted(cs)
    ensures Kept(cs, baseLevel, finalLevel) == InRange(cs, baseLevel, finalLevel)
  {
    if cs == [] {
    } else if cs[0].level < baseLevel {
      SortedKeptIsInRange(cs[1..], baseLevel, finalLevel);
      assert cs[1..][FirstAtLeast(cs[1..], baseLevel)..] == cs[FirstAtLeast(cs, baseLevel)..];
    } else {
      PrefixIsInRange(cs, baseLevel, finalLevel);
    }
  }

  /** A slice of a level-sorted list is level-sorted. */
  lemma SliceSorted(cs: seq<ClassChange>, lo: nat, hi: nat)
    requires Sorted(cs) && lo <= hi <= |cs|
    ensures Sorted(cs[lo..hi])
  {
    var s := cs[lo..hi];
    forall i, j | 0 <= i <= j < |s| ensures s[i].level <= s[j].level {
      assert s[i] == cs[lo + i] && s[j] == cs[lo + j];
    }
  }

  /** A level-sorted list whose levels lie in `b..f`, bracketed by an event
      at `b` and one at `f`, is level-sorted. */
  lemma BracketSorted(first: ClassChange, mid: seq<ClassChange>, last: ClassChange)
    requires Sorted(mid) && first.level <= last.level
    requires forall k :: 0 <= k < |mid| ==> first.level <= mid[k].level <= last.level
    ensures Sorted([first] + mid + [last])
  {
    var t := [first] + mid + [last];
    forall i, j | 0 <= i <= j < |t| ensures t[i].level <= t[j].level {
      if 0 < i <= j < |t| - 1 {
        assert t[i] == mid[i - 1] && t[j] == mid[j - 1];
      } else if 0 < i < |t| - 1 {
        assert t[i] == mid[i - 1];
      } else if 0 < j < |t| - 1 {
        assert t[j] == mid[j - 1];
      }
    }
  }

  /** On level-sorted input every kept event lies in `baseLevel..finalLevel`,
      and when the range is not inverted the whole timeline is level-sorted. */
  lemma SortedTimeline(cs: seq<ClassChange>, startClass: ClassId, baseLevel: int, finalLevel: int)
    requires Sorted(cs)
    ensures forall e :: e in Kept(cs, baseLevel, finalLevel) ==> baseLevel <= e.level <= finalLevel
    ensures baseLevel <= finalLevel ==> Sorted(Timeline(cs, startClass, baseLevel, finalLevel))
  {
    var lo := KeptStart(cs, baseLevel);
    var hi := KeptEnd(cs, baseLevel, finalLevel);
    var kept := Kept(cs, baseLevel, finalLevel);
    KeptIsSlice(cs, baseLevel, finalLevel);
    forall k | 0 <= k < |kept| ensures baseLevel <= kept[k].level <= finalLevel {
      assert kept[k] == cs[lo + k];
      assert cs[lo].level <= cs[lo + k].level;
    }
    if baseLevel <= finalLevel {
      SliceSorted(cs, lo, hi);
      BracketSorted(ClassChange(baseLevel, Class(startClass)), kept, ClassChange(finalLevel, Placeholder));
    }
  }

  /** Without sorting only the first kept event is known to reach the base
      level: here an event below it survives, after one at or above it. */
  lemma UnsortedKeepsLowEvent()
    ensures Kept([ClassChange(5, Class("a")), ClassChange(1, Class("b"))], 3, 10)
         == [ClassChange(5, Class("a")), ClassChange(1, Class("b"))]
  {
  }
}
