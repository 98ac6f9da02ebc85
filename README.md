# Portfolio site: scroll segments, code lexer, typewriter and loading bar

This project is a Dafny model of the parts of a React portfolio site that compute
something. The presentation around them is not modelled.

- **Projects showcase** (`scroll.dfy`, module `ScrollSegments`). The page's scroll
  progress through the showcase is clamped from above at 0.999 and scaled by the
  number of projects. The result gives three things:
  - the active project index;
  - how far the scroll is into the current segment;
  - how full the progress track is (the vertical desktop line and the horizontal
    mobile bar).

  The checkpoint dots on the track are "current" for the active project and
  "reached" for it and every project before it. The component's `activeIndex`
  state is a class whose scroll handler sets it.
- **Code terminal lexer** (`highlight.dfy`, module `SyntaxHighlighting`). One fixed
  pattern is searched for repeatedly from left to right. The pattern has five
  alternatives, tried in this order: keyword, quoted string, bracket, function
  name, variable. Each match becomes a coloured part. Each non-empty stretch
  between matches, and any non-empty tail, becomes a plain part. The pattern is
  coded by hand, with `\w` meaning `[A-Za-z0-9_]`. The scan loop is a method proved
  against a recursive specification, and the parts it returns spell the input
  exactly.
- **Typewriter** (`typewriter.dfy`, module `Typewriter`). Each call of `typeChar`
  does one of two things:
  - it shows one more prefix of the current line;
  - or, once every prefix has been shown, it commits the line and moves to the
    next one.

  The component's refs and states form a class whose `Step` method is one call. A
  pure step function specifies `Step`, and lemmas prove facts about iterating that
  function.
- **Loading bar** (`loading.dfy`, module `LoadingBar`). Each animation frame turns
  the elapsed time into the ratio `min(elapsed / 2800, 1)`, eases it with
  `1 - (1 - p)^4`, and shows it as a percentage. The frame that sees the full
  duration switches to the reveal phase and requests no further frame.

Time and scroll values are mathematical reals, not IEEE doubles. The timers
(`setTimeout`, `requestAnimationFrame`) and the scroll subscription are not part of
the model; whoever calls `Step`, `Tick` and `OnScroll` plays their part.

Two consequences of the showcase code are worth stating outright:
- **Negative progress.** The comment at `src/components/ProjectSection.tsx:130`
  says the progress is clamped to [0, 0.999]. The code applies only the upper
  clamp (`Math.min(latest, 0.999)`). A negative progress therefore yields a
  negative index rather than index 0, and no checkpoint dot is current.
  `NegativeIndexIffNegativeProgress` and `ExactlyOneCurrentDot` state this.
- **When the track is full.** The fill is 1 on the whole last segment.
  `FillFullIffLastSegment` states this.

## Model

| member | source | states |
|---|---|---|
| ScrollSegments.Clamp | src/components/ProjectSection.tsx:131 | the clamped value is at most 0.999 and at most the input, and is one of the two |
| ScrollSegments.ActiveIndex | src/components/ProjectSection.tsx:132 | the index is the floor of the clamped progress times the number of projects: idx <= clamped * total < idx + 1 |
| ScrollSegments.SegmentProgress | src/components/ProjectSection.tsx:141 | the progress into the active segment lies in [0, 1) |
| ScrollSegments.LineFill | src/components/ProjectSection.tsx:137-144 | the interpolated fill equals min(clamped * total / (total - 1), 1): the scaled progress over the gaps between checkpoints, capped at 1 |
| ScrollSegments.HorizontalFill | src/components/ProjectSection.tsx:149-157 | the mobile bar's fill, written out a second time, equals the desktop line's fill for every input |
| ScrollSegments.ActiveIndexInRange | src/components/ProjectSection.tsx:129-132 | for a non-negative progress, however large, the index names a project: 0 <= idx < total |
| ScrollSegments.NegativeIndexIffNegativeProgress | src/components/ProjectSection.tsx:131-132 | the index is negative exactly when the progress is negative (no lower clamp) |
| ScrollSegments.ActiveIndexBelowCount | src/components/ProjectSection.tsx:131-132 | whatever the progress, the index is below the number of projects |
| ScrollSegments.TopIndexIsLastIff | src/components/ProjectSection.tsx:131-132 | at or above the ceiling the index is the last project iff there are at most 1000 projects |
| ScrollSegments.ShowcaseEndShowsLastProject | src/components/ProjectSection.tsx:131-132 | with the three projects, scrolling to the end makes the third one active |
| ScrollSegments.ActiveIndexMonotone | src/components/ProjectSection.tsx:131-132 | scrolling further never moves the active index backwards |
| ScrollSegments.InterpolationClosedForm | src/components/ProjectSection.tsx:142-143 | interpolating by s from checkpoint i/g towards the next checkpoint, capped at 1, lands on min((i + s)/g, 1) |
| ScrollSegments.FillBeforeLastSegment | src/components/ProjectSection.tsx:140-144 | before the last segment the fill is clamped * total / (total - 1), below 1 |
| ScrollSegments.FillOnLastSegment | src/components/ProjectSection.tsx:142-144 | on the last segment the fill is exactly 1, since the next checkpoint is capped at 1 |
| ScrollSegments.FillInUnitRange | src/components/ProjectSection.tsx:137-144 | for a non-negative progress the fill lies in [0, 1] |
| ScrollSegments.FillMonotone | src/components/ProjectSection.tsx:137-144 | the fill never shrinks as the progress grows |
| ScrollSegments.FillFullIffLastSegment | src/components/ProjectSection.tsx:137-144 | for every progress, the track is full iff the last project is active |
| ScrollSegments.CheckpointExact | src/components/ProjectSection.tsx:139-144 | at progress k/total the index is k, the segment progress is 0 and the fill is k/(total - 1) |
| ScrollSegments.ShowcaseAtFortyPercent | src/components/ProjectSection.tsx:137-144 | with three projects, 40% scroll makes the second active with the track 60% full, less than at 66.7% |
| ScrollSegments.Dots | src/components/ProjectSection.tsx:200-205 | one dot per project |
| ScrollSegments.ExactlyOneCurrentDot | src/components/ProjectSection.tsx:202-205 | for an in-range index exactly one dot is current, the active project's; for an index outside the projects none is |
| ScrollSegments.ReachedDotsArePrefix | src/components/ProjectSection.tsx:324-334 | the reached dots are exactly those up to the active index; a current dot is reached |
| ScrollSegments.ProjectsView.constructor | src/components/ProjectSection.tsx:118 | the active index starts at 0 |
| ScrollSegments.ProjectsView.OnScroll | src/components/ProjectSection.tsx:128-134 | the stored index is floor(min(latest, 0.999) * 3); for non-negative progress it names a project |
| ScrollSegments.ProjectsView.CurrentDots | src/components/ProjectSection.tsx:324-327 | one dot per project; in a valid state exactly one is current, the stored project's |
| SyntaxHighlighting.KeywordFrom | src/components/IntroAnimation.tsx:17 | a keyword alternative that fits ends at least two characters further on, inside the input |
| SyntaxHighlighting.KeywordAt | src/components/IntroAnimation.tsx:17 | a keyword match ends at least two characters further on, inside the input |
| SyntaxHighlighting.KeywordFromFinds | src/components/IntroAnimation.tsx:17 | the keyword found is one of the listed keywords, spelled at i and followed by a boundary; none is found iff no listed keyword fits |
| SyntaxHighlighting.KeywordFromIsFirst | src/components/IntroAnimation.tsx:17 | the alternation picks the first listed keyword that fits: no keyword listed before the one found is spelled at i followed by a boundary |
| SyntaxHighlighting.KeywordAtFinds | src/components/IntroAnimation.tsx:17 | a keyword match is one of the seven keywords, with a word boundary on both sides and starting with a word character; there is none iff there is no boundary at i or no keyword fits |
| SyntaxHighlighting.ClosingQuote | src/components/IntroAnimation.tsx:17 | the lazy `.*?['"]` ends strictly after its start, inside the input |
| SyntaxHighlighting.ClosingQuoteFinds | src/components/IntroAnimation.tsx:17 | the string closes at the nearest quote of either kind with no line terminator before it; it fails iff a line ends before every later quote |
| SyntaxHighlighting.StringAt | src/components/IntroAnimation.tsx:17 | a string match is at least two characters long |
| SyntaxHighlighting.WordEnd | src/components/IntroAnimation.tsx:17 | the run end lies between the start and the input's end, strictly after the start when the first character is a word character |
| SyntaxHighlighting.WordEndIsMaximal | src/components/IntroAnimation.tsx:17 | the run consists of word characters and is followed by a non-word character or the end |
| SyntaxHighlighting.MatchAt | src/components/IntroAnimation.tsx:17 | a match at i starts at i, consumes at least one character and has a coloured kind |
| SyntaxHighlighting.Exec | src/components/IntroAnimation.tsx:20 | a match found from lastIndex lies at or after it, is non-empty and is inside the input |
| SyntaxHighlighting.ExecIsLeftmost | src/components/IntroAnimation.tsx:17-20 | the search returns the match at the leftmost position where the pattern matches; nothing is found iff the pattern matches nowhere from lastIndex on |
| SyntaxHighlighting.Lex | src/components/IntroAnimation.tsx:15-75 | the part list emitted from lastIndex on has no empty part: gaps are pushed only when non-empty and every match consumes a character |
| SyntaxHighlighting.Gap | src/components/IntroAnimation.tsx:21-27 | the plain part between matches spells exactly the skipped text and is never empty |
| SyntaxHighlighting.SyntaxHighlight | src/components/IntroAnimation.tsx:12-78 | the scan loop returns the specified part list, whose texts concatenate to the input, with no empty part |
| SyntaxHighlighting.ScanStep | src/components/IntroAnimation.tsx:20-66 | one turn of the loop keeps "parts so far, then the parts of the rest, are all the parts" |
| SyntaxHighlighting.LexPartitions | src/components/IntroAnimation.tsx:12-78 | the parts partition the input: their texts in order spell it exactly |
| SyntaxHighlighting.MatchShape | src/components/IntroAnimation.tsx:17-64 | the shape of each token: a keyword between boundaries; a quoted string with no quote or line end inside; one bracket; a maximal word before `(`; a maximal word not before `(`; a word token only where no keyword matches |
| SyntaxHighlighting.NoMatchIff | src/components/IntroAnimation.tsx:17 | no match starts at a position iff its character is no word character, no bracket and no opening quote of a closed string |
| SyntaxHighlighting.KeywordBeforeCall | src/components/IntroAnimation.tsx:17 | `if(` lexes as the keyword `if` and the bracket `(`: the keyword alternative wins over the function-name one |
| SyntaxHighlighting.KeywordNeedsBoundary | src/components/IntroAnimation.tsx:17 | `constant` lexes as one variable: a keyword must be followed by a word boundary |
| SyntaxHighlighting.HalfTypedString | src/components/IntroAnimation.tsx:17 | the half-typed `'crea` lexes as the plain quote followed by the variable `crea` |
| Typewriter.Next | src/components/IntroAnimation.tsx:93-110 | one call: a no-op once all lines are done; the line index advances by at most one; committed lines only grow; the invariant is kept |
| Typewriter.Scheduled | src/components/IntroAnimation.tsx:100-108 | another call is scheduled iff, after the call, a line is still left to type |
| Typewriter.RunOnlyAdvances | src/components/IntroAnimation.tsx:93-110 | over any number of calls the line index never moves back and the committed lines only grow |
| Typewriter.StepsBefore | src/components/IntroAnimation.tsx:97-108 | the lines before line k take at least two calls each |
| Typewriter.TypewriterState.constructor | src/components/IntroAnimation.tsx:83-86 | everything starts empty or at 0, and the invariant holds |
| Typewriter.TypewriterState.Step | src/components/IntroAnimation.tsx:93-110 | the new state is the step function of the old one; the result says whether another call was scheduled; the invariant is kept |
| Typewriter.InitialIsLineStart | src/components/IntroAnimation.tsx:83-86 | the initial state is the start of line 0 and satisfies the invariant |
| Typewriter.InvAlways | src/components/IntroAnimation.tsx:93-110 | after any number of calls, the committed lines are exactly the lines before lineIndex, charIndex <= line length + 1, and the current line is the prefix the last call set |
| Typewriter.RunWithinLine | src/components/IntroAnimation.tsx:97-100 | within a line, the j-th call shows the prefix of length j - 1 |
| Typewriter.LineCommits | src/components/IntroAnimation.tsx:101-105 | after line length + 2 calls the line is committed and the next one starts |
| Typewriter.ReachesLineStart | src/components/IntroAnimation.tsx:93-110 | from the start, line k begins after the sum of (length + 2) over the earlier lines |
| Typewriter.EveryPrefixShown | src/components/IntroAnimation.tsx:97-99 | every prefix of every line, from empty to whole, is shown while the earlier lines stay committed |
| Typewriter.Finishes | src/components/IntroAnimation.tsx:94-108 | after the sum of (length + 2) calls, and any later number, all lines are committed in order and nothing is half-typed |
| Typewriter.FinishedStaysPut | src/components/IntroAnimation.tsx:94 | once every line is committed, further calls change nothing |
| Typewriter.TotalSteps | src/components/IntroAnimation.tsx:93-110 | typing all the lines takes at least two calls per line |
| Typewriter.CodeLinesTotal | src/components/IntroAnimation.tsx:4-9 | the four intro lines take 145 calls |
| LoadingBar.Ratio | src/components/IntroAnimation.tsx:121 | the ratio is at most 1, equals 1 iff the duration has elapsed, and is non-negative for non-negative time |
| LoadingBar.Pow4 | src/components/IntroAnimation.tsx:122 | the fourth power is non-negative |
| LoadingBar.Eased | src/components/IntroAnimation.tsx:122 | the eased value is at most 1 for a ratio at most 1 |
| LoadingBar.RatioMonotone | src/components/IntroAnimation.tsx:121 | the ratio never decreases as time passes |
| LoadingBar.EasedBounds | src/components/IntroAnimation.tsx:122 | for a ratio in [0, 1] the eased value is in [0, 1], and it is 0 at ratio 0 |
| LoadingBar.EasedFullIff | src/components/IntroAnimation.tsx:122 | the eased value is 1 exactly at ratio 1 |
| LoadingBar.EasedMonotone | src/components/IntroAnimation.tsx:122 | the easing is monotone |
| LoadingBar.Progress | src/components/IntroAnimation.tsx:123 | the bar never exceeds 100 percent and shows 100 exactly once the duration has elapsed |
| LoadingBar.ProgressBounds | src/components/IntroAnimation.tsx:120-123 | for non-negative time the bar shows 0 to 100 percent, starting from 0 |
| LoadingBar.ProgressMonotone | src/components/IntroAnimation.tsx:120-123 | later frames never show less |
| LoadingBar.Loader.constructor | src/components/IntroAnimation.tsx:81-82 | the bar starts at 0 in the loading phase |
| LoadingBar.Loader.Tick | src/components/IntroAnimation.tsx:119-129 | the bar is set to the eased percentage; a frame is requested iff the duration has not elapsed; otherwise the phase becomes reveal |
| LoadingBar.RevealIsFinal | src/components/IntroAnimation.tsx:124-128 | after the revealing tick, every later tick also requests no frame and keeps the bar at 100 |

## Left out

- Rendering is not modelled: JSX, framer-motion animation props, Tailwind classes, the `${fill * 100}%` strings and the span markup of the parts. A part is modelled as its kind and its text.
- Timers and the host are not modelled: `setTimeout` (the 600 ms start delay, the 35 ms and 300 ms typing delays, the 900 ms completion delay), `requestAnimationFrame`, `Date.now` and the scroll subscription. They become calls of `Step`, `Tick` and `OnScroll`, with the elapsed time as a parameter.
- Floating point is not modelled: all values are mathematical reals.
- ScrollSegments.LineFill and ScrollSegments.HorizontalFill require at least two projects. With one project the code divides by zero and produces NaN, which reals cannot express.
- SyntaxHighlighting is not a general regex engine. Only the one pattern the lexer uses is coded, with `\w` as ASCII word characters and `.` excluding `\n`, `\r`, U+2028 and U+2029.
- The random floating particles, the 3D hero scene, the custom cursor, the static sections and the `introComplete` flag of the app shell are not part of this model.
