/**
 * The typewriter of the intro's code terminal. Each call of `typeChar`
 * either shows one more prefix of the current line or, once the whole line
 * has been shown, commits it to the typed lines and moves to the next one;
 * the call reports whether it scheduled another call. The timer that makes
 * the calls is the caller: here a call is one `Step`.
 */
module Typewriter {

  /** The four lines typed by the intro. */
  const CodeLines: seq<string> := [
    "const developer = new Engineer();",
    "developer.init({ mode: 'creative' });",
    "await developer.loadPortfolio();",
    "// Ready to build something amazing"
  ]

  /** The refs `lineIndex`, `charIndex` and the states `typedLines`, `currentLine`. */
  datatype TypeState = TypeState(lineIndex: nat, charIndex: nat, typedLines: seq<string>, currentLine: string)

  /** Nothing typed yet. */
  const Initial: TypeState := TypeState(0, 0, [], "")

  /** Ready to start showing line `k`, the lines before it committed. */
  function LineStart(lines: seq<string>, k: nat): TypeState
    requires k <= |lines|
  {
    TypeState(k, 0, lines[..k], "")
  }

  /** What the terminal shows of line `k` after `j` calls on it: nothing before the first call, then the prefix of length `j - 1`. */
  function Shown(line: string, j: nat): string
    requires j <= |line| + 1
  {
    if j == 0 then "" else line[..j - 1]
  }

  /**
   * The state between calls: the committed lines are exactly the lines before
   * `lineIndex`; while a line is being typed, `charIndex` is at most one past
   * its length and the terminal shows the prefix the last call set; once all
   * lines are committed, nothing is half-typed.
   */
  ghost predicate Inv(lines: seq<string>, st: TypeState)
  {
    && st.lineIndex <= |lines|
    && st.typedLines == lines[..st.lineIndex]
    && (st.lineIndex < |lines| ==>
          st.charIndex <= |lines[st.lineIndex]| + 1 && st.currentLine == Shown(lines[st.lineIndex], st.charIndex))
    && (st.lineIndex == |lines| ==> st.charIndex == 0 && st.currentLine == "")
  }

  /** One call of `typeChar`. */
  function Next(lines: seq<string>, st: TypeState): (r: TypeState)
    ensures st.lineIndex >= |lines| ==> r == st
    ensures st.lineIndex <= r.lineIndex <= st.lineIndex + 1
    ensures st.typedLines <= r.typedLines
    ensures Inv(lines, st) ==> Inv(lines, r)
  {
    if st.lineIndex >= |lines| then st
    else
      var line := lines[st.lineIndex];
      if st.charIndex <= |line| then
        st.(currentLine := line[..st.charIndex], charIndex := st.charIndex + 1)
      else
        TypeState(st.lineIndex + 1, 0, st.typedLines + [line], "")
  }

  /**
   * Whether the call from `st` schedules another one: exactly when, after the
   * call, a line is still left to type.
   */
  function Scheduled(lines: seq<string>, st: TypeState): (scheduled: bool)
    ensures scheduled <==> Next(lines, st).lineIndex < |lines|
  {
    if st.lineIndex >= |lines| then false
    else if st.charIndex <= |lines[st.lineIndex]| then true
    else st.lineIndex + 1 < |lines|
  }

  /** `n` calls in a row. */
  function Run(lines: seq<string>, st: TypeState, n: nat): (r: TypeState)
    decreases n
  {
    if n == 0 then st else Run(lines, Next(lines, st), n - 1)
  }

  /** The number of calls the lines before line `k` take: each line `|line| + 2`. */
  function StepsBefore(lines: seq<string>, k: nat): (n: nat)
    requires k <= |lines|
    ensures n >= 2 * k
  {
    if k == 0 then 0 else StepsBefore(lines, k - 1) + |lines[k - 1]| + 2
  }

  /** All the calls that do something: at least two per line. */
  function TotalSteps(lines: seq<string>): (n: nat)
    ensures n >= 2 * |lines|
  {
    StepsBefore(lines, |lines|)
  }

  // ---------------------------------------------------------------------------
  // The class the component's refs and states make up

  class TypewriterState {
    var lineIndex: nat
    var charIndex: nat
    var typedLines: seq<string>
    var currentLine: string

    function State(): TypeState
      reads this
    {
      TypeState(lineIndex, charIndex, typedLines, currentLine)
    }

    constructor()
      ensures State() == Initial
      ensures Inv(CodeLines, State())
    {
      lineIndex, charIndex, typedLines, currentLine := 0, 0, [], "";
    }

    /** `typeChar`: returns whether it scheduled the next call. */
    method Step() returns (scheduled: bool)
      modifies this
      ensures State() == Next(CodeLines, old(State()))
      ensures scheduled == Scheduled(CodeLines, old(State()))
      ensures Inv(CodeLines, old(State())) ==> Inv(CodeLines, State())
    {
      if lineIndex >= |CodeLines| {
        return false;
      }
      var line := CodeLines[lineIndex];
      if charIndex <= |line| {
        currentLine := line[..charIndex];
        charIndex := charIndex + 1;
        scheduled := true;
      } else {
        typedLines := typedLines + [line];
        currentLine := "";
        lineIndex := lineIndex + 1;
        charIndex := 0;
        scheduled := lineIndex < |CodeLines|;
      }
    }
  }

  // ---------------------------------------------------------------------------
  // Properties

  /** The starting state satisfies the invariant, whatever the lines. */
  lemma InitialIsLineStart(lines: seq<string>)
    ensures Initial == LineStart(lines, 0)
    ensures Inv(lines, Initial)
  {
    assert lines[..0] == [];
  }

  /** The invariant holds after any number of calls. */
  lemma {:induction false} InvAlways(lines: seq<string>, st: TypeState, n: nat)
    requires Inv(lines, st)
    ensures Inv(lines, Run(lines, st, n))
    decreases n
  {
    if n > 0 {
      InvAlways(lines, Next(lines, st), n - 1);
    }
  }

  /** Over any number of calls the line index never moves back and the committed lines only grow. */
  lemma {:induction false} RunOnlyAdvances(lines: seq<string>, st: TypeState, n: nat)
    ensures st.lineIndex <= Run(lines, st, n).lineIndex
    ensures st.typedLines <= Run(lines, st, n).typedLines
    decreases n
  {
    if n > 0 {
      RunOnlyAdvances(lines, Next(lines, st), n - 1);
    }
  }

  lemma {:induction false} RunOneMore(lines: seq<string>, st: TypeState, n: nat)
    ensures Run(lines, st, n + 1) == Next(lines, Run(lines, st, n))
    decreases n
  {
    if n > 0 {
      RunOneMore(lines, Next(lines, st), n - 1);
    }
  }

  lemma {:induction false} RunAdds(lines: seq<string>, st: TypeState, a: nat, b: nat)
    ensures Run(lines, st, a + b) == Run(lines, Run(lines, st, a), b)
    decreases a
  {
    if a > 0 {
      RunAdds(lines, Next(lines, st), a - 1, b);
    }
  }

  /** Within line `k`, the `j`-th call shows the prefix of length `j - 1`. */
  lemma {:induction false} RunWithinLine(lines: seq<string>, k: nat, j: nat)
    requires k < |lines| && j <= |lines[k]| + 1
    ensures Run(lines, LineStart(lines, k), j) == TypeState(k, j, lines[..k], Shown(lines[k], j))
  {
    if j > 0 {
      RunWithinLine(lines, k, j - 1);
      RunOneMore(lines, LineStart(lines, k), j - 1);
    }
  }

  /** After `|line| + 2` calls on line `k`, it is committed and the next line begins. */
  lemma LineCommits(lines: seq<string>, k: nat)
    requires k < |lines|
    ensures Run(lines, LineStart(lines, k), |lines[k]| + 2) == LineStart(lines, k + 1)
  {
    var n := |lines[k]| + 1;
    RunWithinLine(lines, k, n);
    RunOneMore(lines, LineStart(lines, k), n);
    assert lines[..k] + [lines[k]] == lines[..k + 1];
  }

  /** From the start, line `k` begins after the calls of the lines before it. */
  lemma {:induction false} ReachesLineStart(lines: seq<string>, k: nat)
    requires k <= |lines|
    ensures Run(lines, Initial, StepsBefore(lines, k)) == LineStart(lines, k)
  {
    if k == 0 {
      InitialIsLineStart(lines);
    } else {
      var before, line := StepsBefore(lines, k - 1), |lines[k - 1]| + 2;
      calc {
        Run(lines, Initial, StepsBefore(lines, k));
        Run(lines, Initial, before + line);
      == { RunAdds(lines, Initial, before, line); }
        Run(lines, Run(lines, Initial, before), line);
      == { ReachesLineStart(lines, k - 1); }
        Run(lines, LineStart(lines, k - 1), line);
      == { LineCommits(lines, k - 1); }
        LineStart(lines, k);
      }
    }
  }

  /** Every prefix of every line, from empty to whole, is shown while the earlier lines stay committed. */
  lemma EveryPrefixShown(lines: seq<string>, k: nat, c: nat)
    requires k < |lines| && c <= |lines[k]|
    ensures var st := Run(lines, Initial, StepsBefore(lines, k) + c + 1);
      st.lineIndex == k && st.typedLines == lines[..k] && st.currentLine == lines[k][..c]
  {
    ReachesLineStart(lines, k);
    RunAdds(lines, Initial, StepsBefore(lines, k), c + 1);
    RunWithinLine(lines, k, c + 1);
  }

  /** After all the calls every line is committed, in order, and nothing is half-typed; later calls change nothing. */
  lemma Finishes(lines: seq<string>, n: nat)
    requires n >= TotalSteps(lines)
    ensures Run(lines, Initial, n) == TypeState(|lines|, 0, lines, "")
  {
    var total := TotalSteps(lines);
    ReachesLineStart(lines, |lines|);
    assert lines[..|lines|] == lines;
    RunAdds(lines, Initial, total, n - total);
    FinishedStaysPut(lines, Run(lines, Initial, total), n - total);
  }

  /** Once every line is committed, further calls change nothing. */
  lemma {:induction false} FinishedStaysPut(lines: seq<string>, st: TypeState, n: nat)
    requires st.lineIndex >= |lines|
    ensures Run(lines, st, n) == st
    decreases n
  {
    if n > 0 {
      FinishedStaysPut(lines, Next(lines, st), n - 1);
    }
  }

  /** The intro's four lines take 145 calls. */
  lemma CodeLinesTotal()
    ensures TotalSteps(CodeLines) == 145
  {
    assert |CodeLines[0]| == 33 && |CodeLines[1]| == 37 && |CodeLines[2]| == 32 && |CodeLines[3]| == 35;
    assert StepsBefore(CodeLines, 1) == 35;
    assert StepsBefore(CodeLines, 2) == 74;
    assert StepsBefore(CodeLines, 3) == 108;
    assert StepsBefore(CodeLines, 4) == 145;
  }
}
