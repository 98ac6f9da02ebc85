/**
 * The intro's loading bar. On every animation frame the elapsed time since
 * the intro mounted is turned into a ratio of the 2.8-second duration,
 * eased with a quartic ease-out and shown as a percentage; the frame that
 * sees the full duration switches the intro to its reveal phase instead of
 * asking for another frame. Times are milliseconds, as `real`s.
 */
module LoadingBar {

  /** How long the bar takes to fill, in milliseconds. */
  const Duration: real := 2800.0

  /** `Math.min(elapsed / duration, 1)`. */
  function Ratio(elapsed: real): (p: real)
    ensures p <= 1.0
    ensures p == 1.0 <==> elapsed >= Duration
    ensures 0.0 <= elapsed ==> 0.0 <= p
  {
    if elapsed / Duration <= 1.0 then elapsed / Duration else 1.0
  }

  function Square(x: real): (y: real)
    ensures 0.0 <= y
  {
    x * x
  }

  /** `Math.pow(x, 4)`. */
  function Pow4(x: real): (y: real)
    ensures 0.0 <= y
  {
    Square(Square(x))
  }

  /** The quartic ease-out `1 - (1 - p)^4`. */
  function Eased(p: real): (e: real)
    ensures p <= 1.0 ==> e <= 1.0
  {
    1.0 - Pow4(1.0 - p)
  }

  /** The bar's width in percent after `elapsed` milliseconds: full exactly once the duration has elapsed. */
  function Progress(elapsed: real): (percent: real)
    ensures percent <= 100.0
    ensures percent == 100.0 <==> elapsed >= Duration
  {
    EasedFullIff(Ratio(elapsed));
    Eased(Ratio(elapsed)) * 100.0
  }

  datatype Phase = Loading | Reveal

  // ---------------------------------------------------------------------------
  // The component's `progress` and `phase` states

  class Loader {
    var progress: real
    var phase: Phase

    constructor()
      ensures progress == 0.0 && phase == Loading
    {
      progress, phase := 0.0, Loading;
    }

    /**
     * `tick`: sets the bar and, while the duration has not elapsed, asks for
     * another frame; otherwise switches to the reveal phase (and schedules
     * the completion callback 900 ms later, which is left to the caller).
     */
    method Tick(elapsed: real) returns (requestFrame: bool)
      modifies this
      ensures progress == Progress(elapsed)
      ensures requestFrame <==> elapsed < Duration
      ensures phase == if requestFrame then old(phase) else Reveal
    {
      var p := Ratio(elapsed);
      var eased := 1.0 - Pow4(1.0 - p);
      progress := eased * 100.0;
      if p < 1.0 {
        requestFrame := true;
      } else {
        phase := Reveal;
        requestFrame := false;
      }
    }
  }

  // ---------------------------------------------------------------------------
  // Properties

  lemma ScaleLeft(a: real, b: real, c: real)
    requires a <= b && 0.0 <= c
    ensures a * c <= b * c
  {
    assert b * c - a * c == (b - a) * c;
  }

  lemma SquareMonotone(a: real, b: real)
    requires 0.0 <= a <= b
    ensures Square(a) <= Square(b)
  {
    calc {
      Square(a);
    ==
      a * a;
    <= { ScaleLeft(a, b, a); }
      b * a;
    ==
      a * b;
    <= { ScaleLeft(a, b, b); }
      b * b;
    ==
      Square(b);
    }
  }

  lemma SquarePositive(x: real)
    requires 0.0 < x
    ensures 0.0 < Square(x)
  {
    calc {
      Square(x);
    ==
      x * x;
    >
      0.0;
    }
  }

  lemma SquareAtMostOne(x: real)
    requires 0.0 <= x <= 1.0
    ensures Square(x) <= 1.0
  {
    assert x * x <= x * 1.0;
  }

  /** The ratio never decreases as time passes. */
  lemma RatioMonotone(e1: real, e2: real)
    requires e1 <= e2
    ensures Ratio(e1) <= Ratio(e2)
  {
    assert e1 / Duration <= e2 / Duration;
  }

  /** For a ratio in `[0, 1]` the eased value is in `[0, 1]`, from 0 at the start to 1 at the end. */
  lemma EasedBounds(p: real)
    requires 0.0 <= p <= 1.0
    ensures 0.0 <= Eased(p) <= 1.0
    ensures p == 0.0 ==> Eased(p) == 0.0
  {
    SquareAtMostOne(1.0 - p);
    SquareAtMostOne(Square(1.0 - p));
  }

  /** The eased value reaches 1 exactly at the end of the animation. */
  lemma EasedFullIff(p: real)
    requires p <= 1.0
    ensures Eased(p) == 1.0 <==> p == 1.0
  {
    if p < 1.0 {
      SquarePositive(1.0 - p);
      SquarePositive(Square(1.0 - p));
    }
  }

  /** The easing never moves the bar backwards. */
  lemma EasedMonotone(p: real, q: real)
    requires p <= q <= 1.0
    ensures Eased(p) <= Eased(q)
  {
    SquareMonotone(1.0 - q, 1.0 - p);
    SquareMonotone(Square(1.0 - q), Square(1.0 - p));
  }

  /** From the first frame on, the bar shows between 0 and 100 percent, starting from 0. */
  lemma ProgressBounds(elapsed: real)
    requires 0.0 <= elapsed
    ensures 0.0 <= Progress(elapsed) <= 100.0
    ensures elapsed == 0.0 ==> Progress(elapsed) == 0.0
  {
    EasedBounds(Ratio(elapsed));
  }

  /** Later frames never show less. */
  lemma ProgressMonotone(e1: real, e2: real)
    requires e1 <= e2
    ensures Progress(e1) <= Progress(e2)
  {
    RatioMonotone(e1, e2);
    EasedMonotone(Ratio(e1), Ratio(e2));
  }

  /** The tick that reveals is the last: every later tick also asks for no frame and keeps the bar full. */
  lemma RevealIsFinal(e1: real, e2: real)
    requires e1 <= e2 && Ratio(e1) == 1.0
    ensures Ratio(e2) == 1.0 && Progress(e2) == 100.0
  {
    RatioMonotone(e1, e2);
  }
}
