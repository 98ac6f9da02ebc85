/**
 * The projects showcase: a scroll progress value in the showcase's scrollable
 * region is mapped to the index of the project shown, to the length of the
 * progress-track fill, and to the state of the checkpoint dots on the track.
 *
 * Scroll values are modelled as mathematical reals (not IEEE doubles).
 */
module ScrollSegments {

  /** Number of entries in the `projects` array. */
  const ProjectCount: nat := 3

  /** Upper clamp applied to the scroll progress before it is scaled. */
  const ClampCeiling: real := 0.999

  /** `Math.min(p, 0.999)`: only an upper clamp, no lower one. */
  function Clamp(p: real): (c: real)
    ensures c <= ClampCeiling && c <= p
    ensures c == p || c == ClampCeiling
  {
    if p <= ClampCeiling then p else ClampCeiling
  }

  /** `Math.floor(clamped * total)`: the index of the active project. */
  function ActiveIndex(p: real, total: nat): (idx: int)
    ensures idx as real <= Clamp(p) * total as real < idx as real + 1.0
  {
    (Clamp(p) * total as real).Floor
  }

  /** `clamped * total - idx`: how far the scroll is into the active segment. */
  function SegmentProgress(p: real, total: nat): (s: real)
    ensures 0.0 <= s < 1.0
  {
    Clamp(p) * total as real - ActiveIndex(p, total) as real
  }

  /**
   * The fill fraction of the vertical (desktop) progress line: the checkpoint
   * position of the active index, plus the segment progress times the distance
   * to the next checkpoint, which is capped at the end of the track.
   * The source divides by `total - 1`, so one project gives no number at all.
   * The interpolation collapses to a closed form: the scaled progress divided
   * by the number of gaps between checkpoints, capped at 1.
   */
  function LineFill(v: real, total: nat): (f: real)
    requires total >= 2
    ensures f == Min(Clamp(v) * total as real / (total - 1) as real, 1.0)
  {
    var idx := ActiveIndex(v, total);
    var segmentProgress := SegmentProgress(v, total);
    var dotStart := idx as real / (total - 1) as real;
    var dotEnd := Min((idx + 1) as real / (total - 1) as real, 1.0);
    ActiveIndexBelowCount(v, total);
    assert (idx as real + segmentProgress) / (total - 1) as real == Clamp(v) * total as real / (total - 1) as real;
    InterpolationClosedForm(idx, segmentProgress, total - 1);
    Interpolate(dotStart, dotEnd, segmentProgress)
  }

  /** The fill of the horizontal (mobile) progress bar, written out a second time in the source. */
  function HorizontalFill(v: real, total: nat): (f: real)
    requires total >= 2
    ensures f == LineFill(v, total)
  {
    var idx := ActiveIndex(v, total);
    var segmentProgress := Clamp(v) * total as real - idx as real;
    var dotStart := idx as real / (total - 1) as real;
    var dotEnd := Min((idx + 1) as real / (total - 1) as real, 1.0);
    assert segmentProgress == SegmentProgress(v, total);
    Interpolate(dotStart, dotEnd, segmentProgress)
  }

  /** `start + t * (end - start)`. */
  function Interpolate(start: real, end: real, t: real): real
  {
    start + t * (end - start)
  }

  function Min(a: real, b: real): (m: real)
    ensures m <= a && m <= b && (m == a || m == b)
  {
    if a <= b then a else b
  }

  // ---------------------------------------------------------------------------
  // Active index

  /** Whatever the progress, the index is below the number of projects: the clamp keeps it off `total`. */
  lemma ActiveIndexBelowCount(p: real, total: nat)
    requires total >= 1
    ensures ActiveIndex(p, total) <= total - 1
  {
    assert (1.0 - Clamp(p)) * total as real > 0.0;
  }

  /** For a non-negative progress, however far above 1, the index names a project. */
  lemma ActiveIndexInRange(p: real, total: nat)
    requires total >= 1 && 0.0 <= p
    ensures 0 <= ActiveIndex(p, total) < total
  {
    var c := Clamp(p);
    assert 0.0 <= c * total as real;
    assert c * total as real <= ClampCeiling * total as real;
  }

  /** The clamp is one-sided: a negative progress gives a negative index, and only then. */
  lemma NegativeIndexIffNegativeProgress(p: real, total: nat)
    requires total >= 1
    ensures ActiveIndex(p, total) < 0 <==> p < 0.0
  {
    var c := Clamp(p);
    if p < 0.0 {
      assert c == p;
      assert c * total as real < 0.0;
    } else {
      assert 0.0 <= c * total as real;
    }
  }

  /**
   * At or above the ceiling the index is the last project exactly when there
   * are at most 1000 projects; with more, the last one can never become active.
   */
  lemma TopIndexIsLastIff(p: real, total: nat)
    requires total >= 1 && p >= ClampCeiling
    ensures ActiveIndex(p, total) == total - 1 <==> total <= 1000
  {
    assert Clamp(p) == ClampCeiling;
    var x := ClampCeiling * total as real;
    if total <= 1000 {
      assert x >= (total - 1) as real;
      assert x < total as real;
    } else {
      assert x < (total - 1) as real;
    }
  }

  /** For the three projects of the showcase, scrolling to the end shows the third one. */
  lemma ShowcaseEndShowsLastProject(p: real)
    requires p >= ClampCeiling
    ensures ActiveIndex(p, ProjectCount) == ProjectCount - 1
  {
    TopIndexIsLastIff(p, ProjectCount);
  }

  /** Scrolling further never moves the active project backwards. */
  lemma ActiveIndexMonotone(p1: real, p2: real, total: nat)
    requires p1 <= p2
    ensures ActiveIndex(p1, total) <= ActiveIndex(p2, total)
  {
    var c1, c2 := Clamp(p1), Clamp(p2);
    assert c1 <= c2;
    assert c1 * total as real <= c2 * total as real;
  }

  // ---------------------------------------------------------------------------
  // Fill fraction

  /**
   * Interpolating by `s` from checkpoint `i/g` towards the next checkpoint,
   * capped at 1, lands on `(i + s)/g` capped at 1, when `i` is a checkpoint
   * before the last or the last one.
   */
  lemma InterpolationClosedForm(i: int, s: real, g: int)
    requires g >= 1 && 0.0 <= s < 1.0
    requires i + 1 <= g || i == g
    ensures Interpolate(i as real / g as real, Min((i + 1) as real / g as real, 1.0), s) == Min((i as real + s) / g as real, 1.0)
  {
    if i + 1 <= g {
      NextCheckpointUncapped(i, g);
      InterpolateStep(i, s, g);
      DivBelowOne(i as real + s, g as real);
    } else {
      InterpolateOnLast(s, g);
    }
  }

  lemma NextCheckpointUncapped(i: int, g: int)
    requires g >= 1 && i + 1 <= g
    ensures Min((i + 1) as real / g as real, 1.0) == (i + 1) as real / g as real
  {
    DivMonotone((i + 1) as real, g as real, g as real);
  }

  lemma InterpolateOnLast(s: real, g: int)
    requires g >= 1 && 0.0 <= s
    ensures Interpolate(g as real / g as real, Min((g + 1) as real / g as real, 1.0), s) == Min((g as real + s) / g as real, 1.0)
  {
    var gr := g as real;
    DivMonotone(gr, gr + 1.0, gr);
    DivMonotone(gr, gr + s, gr);
  }

  /** Before the last segment the fill is the scaled progress over the gaps, short of full. */
  lemma FillBeforeLastSegment(v: real, total: nat)
    requires total >= 2 && ActiveIndex(v, total) <= total - 2
    ensures LineFill(v, total) == Clamp(v) * total as real / (total - 1) as real < 1.0
  {
    DivBelowOne(Clamp(v) * total as real, (total - 1) as real);
  }

  /** On the last segment the fill is full: the next checkpoint is capped at the last one. */
  lemma FillOnLastSegment(v: real, total: nat)
    requires total >= 2 && ActiveIndex(v, total) == total - 1
    ensures LineFill(v, total) == 1.0 <= Clamp(v) * total as real / (total - 1) as real
  {
    DivBelowOne(Clamp(v) * total as real, (total - 1) as real);
  }

  /** For a non-negative progress the fill is a fraction of the track. */
  lemma FillInUnitRange(v: real, total: nat)
    requires total >= 2 && 0.0 <= v
    ensures 0.0 <= LineFill(v, total) <= 1.0
  {
    DivMonotone(0.0, Clamp(v) * total as real, (total - 1) as real);
  }

  /** The fill never shrinks while scrolling down. */
  lemma FillMonotone(v1: real, v2: real, total: nat)
    requires total >= 2 && v1 <= v2
    ensures LineFill(v1, total) <= LineFill(v2, total)
  {
    ScaledMonotone(v1, v2, total);
  }

  lemma ScaledMonotone(v1: real, v2: real, total: nat)
    requires total >= 2 && v1 <= v2
    ensures Min(Clamp(v1) * total as real / (total - 1) as real, 1.0) <= Min(Clamp(v2) * total as real / (total - 1) as real, 1.0)
  {
    ScaleMonotone(Clamp(v1), Clamp(v2), total as real);
    DivMonotone(Clamp(v1) * total as real, Clamp(v2) * total as real, (total - 1) as real);
  }

  /** The track is full exactly on the last segment, not only at the end of the scroll. */
  lemma FillFullIffLastSegment(v: real, total: nat)
    requires total >= 2
    ensures LineFill(v, total) == 1.0 <==> ActiveIndex(v, total) == total - 1
  {
    if 0.0 <= v {
      ActiveIndexInRange(v, total);
    } else {
      NegativeIndexIffNegativeProgress(v, total);
    }
    DivBelowOne(Clamp(v) * total as real, (total - 1) as real);
  }

  /** Interpolating a `1/g` step by `s` from checkpoint `i/g` lands on `(i + s)/g`. */
  lemma InterpolateStep(i: int, s: real, g: int)
    requires g >= 1
    ensures Interpolate(i as real / g as real, (i + 1) as real / g as real, s) == (i as real + s) / g as real
  {
    var ir, gr := i as real, g as real;
    var u := 1.0 / gr;
    assert ir / gr == ir * u;
    assert (ir + 1.0) / gr == (ir + 1.0) * u;
    assert (ir + s) / gr == (ir + s) * u;
  }

  lemma DivBelowOne(x: real, g: real)
    requires g > 0.0
    ensures x / g < 1.0 <==> x < g
  {
    var q := x / g;
    assert q * g == x;
    assert (1.0 - q) * g == g - x;
  }

  lemma ScaleMonotone(c1: real, c2: real, n: real)
    requires c1 <= c2 && n >= 0.0
    ensures c1 * n <= c2 * n
  {
    assert c2 * n - c1 * n == (c2 - c1) * n;
  }

  lemma DivMonotone(x1: real, x2: real, g: real)
    requires g > 0.0 && x1 <= x2
    ensures x1 / g <= x2 / g
  {
    var q1, q2 := x1 / g, x2 / g;
    assert q1 * g == x1 && q2 * g == x2;
    assert (q2 - q1) * g == x2 - x1;
  }

  /**
   * Checkpoint exactness: at the scroll position where project `k` becomes
   * active the segment progress is zero and the fill sits on checkpoint `k`.
   */
  lemma CheckpointExact(k: nat, total: nat)
    requires total >= 2 && k <= total - 1
    requires k as real / total as real <= ClampCeiling
    ensures ActiveIndex(k as real / total as real, total) == k
    ensures SegmentProgress(k as real / total as real, total) == 0.0
    ensures LineFill(k as real / total as real, total) == k as real / (total - 1) as real
  {
    var p := k as real / total as real;
    assert Clamp(p) == p;
    assert p * total as real == k as real;
  }

  /** The three-project showcase at 40% of its scroll: second project, track filled to 60%. */
  lemma ShowcaseAtFortyPercent()
    ensures ActiveIndex(0.4, ProjectCount) == 1
    ensures LineFill(0.4, ProjectCount) == 0.6
    ensures 0.5 < LineFill(0.4, ProjectCount) < LineFill(0.667, ProjectCount)
  {
    assert Clamp(0.4) * 3.0 == 1.2;
    assert Clamp(0.667) * 3.0 == 2.001;
  }

  // ---------------------------------------------------------------------------
  // Checkpoint dots

  /**
   * The state of one checkpoint dot: `current` drives its scale, glow and
   * filled background, `reached` its border and label colour.
   */
  datatype Dot = Dot(current: bool, reached: bool)

  /** The dots `projects.map((_, i) => ...)` renders, for the given active index. */
  function Dots(activeIndex: int, count: nat): (r: seq<Dot>)
    ensures |r| == count
  {
    seq(count, i => Dot(activeIndex == i, activeIndex >= i))
  }

  /**
   * For an in-range index exactly one dot is current, the one of the active
   * project; for an index outside the projects (a negative progress) none is.
   */
  lemma ExactlyOneCurrentDot(activeIndex: int, count: nat)
    ensures (set i | 0 <= i < count && Dots(activeIndex, count)[i].current)
         == if 0 <= activeIndex < count then {activeIndex} else {}
  {
    var r := Dots(activeIndex, count);
    if 0 <= activeIndex < count {
      assert r[activeIndex].current;
    }
  }

  /** The reached dots are exactly the prefix up to and including the active one. */
  lemma ReachedDotsArePrefix(activeIndex: int, count: nat, i: nat, j: nat)
    requires i <= j < count
    ensures Dots(activeIndex, count)[j].reached ==> Dots(activeIndex, count)[i].reached
    ensures Dots(activeIndex, count)[i].reached <==> i <= activeIndex
    ensures Dots(activeIndex, count)[i].current ==> Dots(activeIndex, count)[i].reached
  {
  }

  // ---------------------------------------------------------------------------
  // The component's `activeIndex` state

  /** The showcase component's state: the index set by the scroll-change handler. */
  class ProjectsView {
    var activeIndex: int

    ghost predicate Valid()
      reads this
    {
      0 <= activeIndex < ProjectCount
    }

    /** `useState(0)`. */
    constructor ()
      ensures activeIndex == 0 && Valid()
    {
      activeIndex := 0;
    }

    /** The `scrollYProgress` change handler: recompute the index and store it. */
    method OnScroll(latest: real)
      modifies this
      ensures activeIndex == ActiveIndex(latest, ProjectCount)
      ensures 0.0 <= latest ==> Valid()
    {
      var total := ProjectCount;
      var clamped := Clamp(latest);
      var idx := (clamped * total as real).Floor;
      activeIndex := idx;
      if 0.0 <= latest {
        ActiveIndexInRange(latest, total);
      }
    }

    /** The checkpoint dots drawn for the current state: in a valid state, exactly the stored project's dot is current. */
    function CurrentDots(): (r: seq<Dot>)
      reads this
      ensures |r| == ProjectCount
      ensures Valid() ==> (set i | 0 <= i < ProjectCount && r[i].current) == {activeIndex}
    {
      ExactlyOneCurrentDot(activeIndex, ProjectCount);
      Dots(activeIndex, ProjectCount)
    }
  }
}
