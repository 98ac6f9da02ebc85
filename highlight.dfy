/**
 * The syntax highlighter of the intro's code terminal. One fixed pattern,
 *
 *   \b(const|new|await|return|function|if|else)\b | (['"].*?['"]) | ({|}|\(|\)) | (\w+(?=\()) | (\w+)
 *
 * is searched for repeatedly, left to right; the text between two matches is
 * emitted as a plain part, each match as a coloured part, and what follows the
 * last match as a final plain part. The pattern is hand-coded here (no regex
 * engine): alternatives are tried in order at each position, and the search
 * moves right one position at a time until one of them matches.
 */
module SyntaxHighlighting {

  datatype Option<T> = None | Some(value: T)

  /** The class a part is rendered with. */
  datatype Kind = Text | Keyword | Str | Bracket | FunctionName | Variable

  /** One rendered span: its class and the characters of the input it shows. */
  datatype Part = Part(kind: Kind, text: string)

  /** A match of the pattern: `s[start..end]`, and the alternative that matched. */
  datatype Match = Match(start: nat, end: nat, kind: Kind)

  /** The seven keywords, in the order the pattern lists them. */
  const Keywords: seq<string> := ["const", "new", "await", "return", "function", "if", "else"]

  // ---------------------------------------------------------------------------
  // Character classes of the pattern

  /** `\w` without the unicode flag. */
  predicate IsWordChar(c: char)
  {
    'A' <= c <= 'Z' || 'a' <= c <= 'z' || '0' <= c <= '9' || c == '_'
  }

  predicate IsQuote(c: char)
  {
    c == '\'' || c == '"'
  }

  predicate IsBracket(c: char)
  {
    c == '{' || c == '}' || c == '(' || c == ')'
  }

  /** The characters `.` does not match. */
  predicate IsLineTerminator(c: char)
  {
    c == '\n' || c == '\r' || c == '\U{2028}' || c == '\U{2029}'
  }

  /** `\b` at position `k`: a word character on exactly one side. */
  predicate IsBoundary(s: string, k: nat)
    requires k <= |s|
  {
    (k > 0 && IsWordChar(s[k - 1])) != (k < |s| && IsWordChar(s[k]))
  }

  // ---------------------------------------------------------------------------
  // The five alternatives, each tried at one position

  /** Keyword `w` is spelled at `i` and a word boundary follows it. */
  predicate KeywordEndsAt(s: string, i: nat, w: string)
    requires i <= |s|
  {
    i + |w| <= |s| && s[i..i + |w|] == w && IsBoundary(s, i + |w|)
  }

  /** Keyword `k` is spelled at `i` followed by a boundary, and no keyword from the `n`-th up to it is. */
  predicate FirstFitting(s: string, i: nat, n: nat, k: nat)
    requires i <= |s|
  {
    n <= k < |Keywords| && KeywordEndsAt(s, i, Keywords[k])
    && forall j :: n <= j < k ==> !KeywordEndsAt(s, i, Keywords[j])
  }

  /** Tries the keywords from the `n`-th on, in order; the end of the first that fits. */
  function KeywordFrom(s: string, i: nat, n: nat): (r: Option<nat>)
    requires i <= |s| && n <= |Keywords|
    ensures r.Some? ==> i + 2 <= r.value <= |s|
    decreases |Keywords| - n
  {
    if n == |Keywords| then None
    else if KeywordEndsAt(s, i, Keywords[n]) then Some(i + |Keywords[n]|)
    else KeywordFrom(s, i, n + 1)
  }

  /** `\b(const|new|await|return|function|if|else)\b` at `i`: the end of the keyword. */
  function KeywordAt(s: string, i: nat): (r: Option<nat>)
    requires i <= |s|
    ensures r.Some? ==> i + 2 <= r.value <= |s|
  {
    if IsBoundary(s, i) then KeywordFrom(s, i, 0) else None
  }

  /** No line terminator in `s[j..k]`. */
  predicate OnOneLine(s: string, j: nat, k: nat)
    requires j <= k <= |s|
  {
    forall t :: j <= t < k ==> !IsLineTerminator(s[t])
  }

  /** `.*?['"]` from `j`: just past the nearest quote of either kind, if no line ends before it. */
  function ClosingQuote(s: string, j: nat): (r: Option<nat>)
    requires j <= |s|
    ensures r.Some? ==> j < r.value <= |s|
    decreases |s| - j
  {
    if j == |s| then None
    else if IsQuote(s[j]) then Some(j + 1)
    else if IsLineTerminator(s[j]) then None
    else ClosingQuote(s, j + 1)
  }

  /** `['"].*?['"]` at `i`: the end of the quoted string. */
  function StringAt(s: string, i: nat): (r: Option<nat>)
    requires i <= |s|
    ensures r.Some? ==> i + 2 <= r.value <= |s|
  {
    if i < |s| && IsQuote(s[i]) then ClosingQuote(s, i + 1) else None
  }

  /** The end of the run of word characters starting at `i`. */
  function WordEnd(s: string, i: nat): (e: nat)
    requires i <= |s|
    ensures i <= e <= |s|
    ensures i < |s| && IsWordChar(s[i]) ==> i < e
    decreases |s| - i
  {
    if i < |s| && IsWordChar(s[i]) then WordEnd(s, i + 1) else i
  }

  /**
   * The whole pattern anchored at position `i`, its alternatives tried in
   * order. For `\w+(?=\()` only the longest run is tried: a shorter run ends
   * before a word character, never before `(`, so backtracking cannot make
   * the lookahead succeed.
   */
  function MatchAt(s: string, i: nat): (r: Option<Match>)
    requires i <= |s|
    ensures r.Some? ==> r.value.start == i < r.value.end <= |s|
    ensures r.Some? ==> r.value.kind != Text
  {
    match KeywordAt(s, i)
    case Some(e) => Some(Match(i, e, Keyword))
    case None =>
      match StringAt(s, i)
      case Some(e) => Some(Match(i, e, Str))
      case None =>
        if i < |s| && IsBracket(s[i]) then Some(Match(i, i + 1, Bracket))
        else if i < |s| && IsWordChar(s[i]) then
          var e := WordEnd(s, i);
          if e < |s| && s[e] == '(' then Some(Match(i, e, FunctionName)) else Some(Match(i, e, Variable))
        else None
  }

  /**
   * `regex.exec(code)` with `lastIndex == from`: the leftmost match starting
   * at or after `from`.
   */
  function Exec(s: string, from: nat): (r: Option<Match>)
    requires from <= |s|
    ensures r.Some? ==> from <= r.value.start < r.value.end <= |s|
    decreases |s| - from
  {
    if MatchAt(s, from).Some? then MatchAt(s, from)
    else if from < |s| then Exec(s, from + 1)
    else None
  }

  // ---------------------------------------------------------------------------
  // The part list

  /**
   * The parts emitted from `lastIndex == from` to the end of the input. No
   * part is empty: gaps are pushed only when non-empty, and every alternative
   * consumes a character.
   */
  function Lex(s: string, from: nat): (parts: seq<Part>)
    requires from <= |s|
    ensures forall k :: 0 <= k < |parts| ==> parts[k].text != ""
    decreases |s| - from
  {
    match Exec(s, from)
    case None => Gap(s, from, |s|)
    case Some(m) => Gap(s, from, m.start) + [Part(m.kind, s[m.start..m.end])] + Lex(s, m.end)
  }

  /** The plain part for `s[from..to]`, pushed only when that text is non-empty. */
  function Gap(s: string, from: nat, to: nat): (r: seq<Part>)
    requires from <= to <= |s|
    ensures Concat(r) == s[from..to]
    ensures forall k :: 0 <= k < |r| ==> r[k].text != ""
  {
    if from < to then [Part(Text, s[from..to])] else []
  }

  /** The characters the parts show, in order. */
  function Concat(parts: seq<Part>): (text: string)
  {
    if parts == [] then "" else parts[0].text + Concat(parts[1..])
  }

  /** `SyntaxHighlight`: the scan loop, pushing a plain part before each match that leaves a gap. */
  method SyntaxHighlight(code: string) returns (parts: seq<Part>)
    ensures parts == Lex(code, 0)
    ensures Concat(parts) == code
    ensures forall k :: 0 <= k < |parts| ==> parts[k].text != ""
  {
    parts := [];
    var lastIndex := 0;
    var m := Exec(code, lastIndex);
    while m.Some?
      invariant lastIndex <= |code|
      invariant m == Exec(code, lastIndex)
      invariant parts + Lex(code, lastIndex) == Lex(code, 0)
      decreases |code| - lastIndex
    {
      var found := m.value;
      ghost var next := parts + Gap(code, lastIndex, found.start) + [Part(found.kind, code[found.start..found.end])];
      ScanStep(code, parts, lastIndex);
      if found.start > lastIndex {
        parts := parts + [Part(Text, code[lastIndex..found.start])];
      } else {
        assert parts + Gap(code, lastIndex, found.start) == parts;
      }
      parts := parts + [Part(found.kind, code[found.start..found.end])];
      assert parts == next;
      lastIndex := found.end;
      m := Exec(code, lastIndex);
    }
    if lastIndex < |code| {
      assert code[lastIndex..] == code[lastIndex..|code|];
      parts := parts + [Part(Text, code[lastIndex..])];
    }
    LexPartitions(code, 0);
  }

  // ---------------------------------------------------------------------------
  // Properties

  /**
   * The search finds the leftmost position at or after `from` where the
   * pattern matches, and the match found there; when it finds nothing, the
   * pattern matches nowhere from `from` on.
   */
  lemma {:induction false} ExecIsLeftmost(s: string, from: nat)
    requires from <= |s|
    ensures Exec(s, from).Some? ==> MatchAt(s, Exec(s, from).value.start) == Exec(s, from)
    ensures Exec(s, from).Some? ==> forall j :: from <= j < Exec(s, from).value.start ==> MatchAt(s, j).None?
    ensures Exec(s, from).None? <==> forall j :: from <= j <= |s| ==> MatchAt(s, j).None?
    decreases |s| - from
  {
    var here := MatchAt(s, from);
    if here.None? && from < |s| {
      ExecIsLeftmost(s, from + 1);
      var found := Exec(s, from + 1);
      assert Exec(s, from) == found;
      if found.Some? {
        forall j | from <= j < found.value.start
          ensures MatchAt(s, j).None?
        {
          if j == from {
            assert MatchAt(s, j) == here;
          }
        }
      } else {
        forall j | from <= j <= |s|
          ensures MatchAt(s, j).None?
        {
          if j == from {
            assert MatchAt(s, j) == here;
          }
        }
      }
    }
  }

  /** One turn of the scan loop keeps "parts so far, then the parts of the rest, are all the parts". */
  lemma ScanStep(s: string, parts: seq<Part>, from: nat)
    requires from <= |s| && Exec(s, from).Some?
    requires parts + Lex(s, from) == Lex(s, 0)
    ensures var m := Exec(s, from).value;
      parts + Gap(s, from, m.start) + [Part(m.kind, s[m.start..m.end])] + Lex(s, m.end) == Lex(s, 0)
  {
    var m := Exec(s, from).value;
    var gap, token := Gap(s, from, m.start), [Part(m.kind, s[m.start..m.end])];
    assert Lex(s, from) == gap + token + Lex(s, m.end);
    AppendAssociates(parts, gap, token);
    AppendAssociates(parts, gap + token, Lex(s, m.end));
  }

  lemma AppendAssociates<T>(a: seq<T>, b: seq<T>, c: seq<T>)
    ensures (a + b) + c == a + (b + c)
  {
  }

  lemma {:induction false} ConcatAppend(a: seq<Part>, b: seq<Part>)
    ensures Concat(a + b) == Concat(a) + Concat(b)
  {
    if a == [] {
      assert a + b == b;
    } else {
      assert (a + b)[1..] == a[1..] + b;
      ConcatAppend(a[1..], b);
    }
  }

  /** The parts partition the input: their texts, in order, spell it exactly. */
  lemma {:induction false} LexPartitions(s: string, from: nat)
    requires from <= |s|
    ensures Concat(Lex(s, from)) == s[from..]
    decreases |s| - from
  {
    match Exec(s, from)
    case None =>
    case Some(m) =>
      var token := Part(m.kind, s[m.start..m.end]);
      assert Lex(s, from) == Gap(s, from, m.start) + [token] + Lex(s, m.end);
      ConcatAroundToken(Gap(s, from, m.start), token, Lex(s, m.end));
      LexPartitions(s, m.end);
      SliceInThree(s, from, m.start, m.end);
  }

  lemma ConcatAroundToken(before: seq<Part>, token: Part, after: seq<Part>)
    ensures Concat(before + [token] + after) == Concat(before) + token.text + Concat(after)
  {
    ConcatAppend(before + [token], after);
    ConcatAppend(before, [token]);
    assert [token][1..] == [];
  }

  lemma SliceInThree(s: string, a: nat, b: nat, c: nat)
    requires a <= b <= c <= |s|
    ensures s[a..] == s[a..b] + s[b..c] + s[c..]
  {
  }

  /** The keyword alternative finds a listed keyword spelled at `i` and followed by a boundary, if any fits. */
  lemma {:induction false} KeywordFromFinds(s: string, i: nat, n: nat)
    requires i <= |s| && n <= |Keywords|
    ensures KeywordFrom(s, i, n).Some? ==>
      var e := KeywordFrom(s, i, n).value;
      s[i..e] in Keywords[n..] && IsBoundary(s, e)
    ensures KeywordFrom(s, i, n).None? <==> forall k :: n <= k < |Keywords| ==> !KeywordEndsAt(s, i, Keywords[k])
    decreases |Keywords| - n
  {
    if n < |Keywords| {
      if KeywordEndsAt(s, i, Keywords[n]) {
        assert Keywords[n..][0] == Keywords[n];
      } else {
        KeywordFromFinds(s, i, n + 1);
        assert Keywords[n + 1..] == Keywords[n..][1..];
      }
    }
  }

  /** The keyword found is the first listed one that fits: no keyword listed before it is spelled at `i` followed by a boundary. */
  lemma {:induction false} KeywordFromIsFirst(s: string, i: nat, n: nat)
    requires i <= |s| && n <= |Keywords|
    ensures KeywordFrom(s, i, n).Some? ==>
      exists k: nat :: FirstFitting(s, i, n, k) && KeywordFrom(s, i, n).value == i + |Keywords[k]|
    decreases |Keywords| - n
  {
    if n < |Keywords| {
      if KeywordEndsAt(s, i, Keywords[n]) {
        assert FirstFitting(s, i, n, n);
      } else if KeywordFrom(s, i, n + 1).Some? {
        KeywordFromIsFirst(s, i, n + 1);
        var k: nat :| FirstFitting(s, i, n + 1, k) && KeywordFrom(s, i, n + 1).value == i + |Keywords[k]|;
        assert FirstFitting(s, i, n, k);
      }
    }
  }

  /** A keyword match is one of the seven keywords, with a word boundary on both sides. */
  lemma KeywordAtFinds(s: string, i: nat)
    requires i <= |s|
    ensures KeywordAt(s, i).Some? ==>
      var e := KeywordAt(s, i).value;
      s[i..e] in Keywords && IsBoundary(s, i) && IsBoundary(s, e) && IsWordChar(s[i])
    ensures KeywordAt(s, i).None? <==>
      !IsBoundary(s, i) || forall k :: 0 <= k < |Keywords| ==> !KeywordEndsAt(s, i, Keywords[k])
  {
    if IsBoundary(s, i) {
      KeywordFromFinds(s, i, 0);
      assert Keywords[0..] == Keywords;
      if KeywordAt(s, i).Some? {
        var e := KeywordAt(s, i).value;
        assert s[i] == s[i..e][0];
      }
    }
  }

  /** The lazy `.*?` stops at the nearest quote, and fails exactly when a line ends before every quote. */
  lemma {:induction false} ClosingQuoteFinds(s: string, j: nat)
    requires j <= |s|
    ensures ClosingQuote(s, j).Some? ==>
      var e := ClosingQuote(s, j).value;
      IsQuote(s[e - 1]) && OnOneLine(s, j, e - 1) && forall t :: j <= t < e - 1 ==> !IsQuote(s[t])
    ensures ClosingQuote(s, j).None? <==> forall k :: j <= k < |s| && IsQuote(s[k]) ==> !OnOneLine(s, j, k)
    decreases |s| - j
  {
    if j < |s| && !IsQuote(s[j]) && !IsLineTerminator(s[j]) {
      ClosingQuoteFinds(s, j + 1);
      if ClosingQuote(s, j).None? {
        forall k | j <= k < |s| && IsQuote(s[k])
          ensures !OnOneLine(s, j, k)
        {
          assert k > j;
          assert !OnOneLine(s, j + 1, k);
        }
      }
    }
  }

  /** The run is made of word characters and cannot be extended. */
  lemma {:induction false} WordEndIsMaximal(s: string, i: nat)
    requires i <= |s|
    ensures forall k :: i <= k < WordEnd(s, i) ==> IsWordChar(s[k])
    ensures WordEnd(s, i) == |s| || !IsWordChar(s[WordEnd(s, i)])
    decreases |s| - i
  {
    if i < |s| && IsWordChar(s[i]) {
      WordEndIsMaximal(s, i + 1);
    }
  }

  /** The shape of each kind of token. */
  lemma MatchShape(s: string, i: nat)
    requires i <= |s| && MatchAt(s, i).Some?
    ensures var m := MatchAt(s, i).value;
      && (m.kind == Keyword ==> s[i..m.end] in Keywords && IsBoundary(s, i) && IsBoundary(s, m.end))
      && (m.kind == Str ==>
            m.end >= i + 2 && IsQuote(s[i]) && IsQuote(s[m.end - 1])
            && (forall t :: i < t < m.end - 1 ==> !IsQuote(s[t]) && !IsLineTerminator(s[t])))
      && (m.kind == Bracket ==> m.end == i + 1 && IsBracket(s[i]))
      && (m.kind == FunctionName ==>
            (forall t :: i <= t < m.end ==> IsWordChar(s[t])) && m.end < |s| && s[m.end] == '(')
      && (m.kind == Variable ==>
            (forall t :: i <= t < m.end ==> IsWordChar(s[t])) && (m.end == |s| || (s[m.end] != '(' && !IsWordChar(s[m.end]))))
      && (m.kind in {FunctionName, Variable} ==> KeywordAt(s, i).None?)
  {
    KeywordAtFinds(s, i);
    if i < |s| {
      ClosingQuoteFinds(s, i + 1);
    }
    WordEndIsMaximal(s, i);
  }

  /** Exactly the positions holding no word character, no bracket and no opening quote of a closed string start no match. */
  lemma NoMatchIff(s: string, i: nat)
    requires i < |s|
    ensures MatchAt(s, i).None? <==> !IsWordChar(s[i]) && !IsBracket(s[i]) && StringAt(s, i).None?
  {
    KeywordAtFinds(s, i);
  }

  /** `if(` is a keyword: the keyword alternative comes before the function-name one. */
  lemma KeywordBeforeCall()
    ensures Lex("if(", 0) == [Part(Keyword, "if"), Part(Bracket, "(")]
  {
    var s := "if(";
    assert KeywordEndsAt(s, 0, "if");
    assert KeywordFrom(s, 0, 5) == Some(2);
    assert KeywordFrom(s, 0, 3) == Some(2);
    assert KeywordFrom(s, 0, 0) == Some(2);
    assert Exec(s, 0) == Some(Match(0, 2, Keyword));
    KeywordAtFinds(s, 2);
    assert Exec(s, 2) == Some(Match(2, 3, Bracket));
    assert Exec(s, 3).None?;
    assert Lex(s, 3) == [];
    assert s[2..3] == "(";
    assert Lex(s, 2) == [Part(Bracket, "(")];
    assert s[0..2] == "if";
  }

  /** `constant` is a plain word: `const` inside it is not followed by a word boundary. */
  lemma KeywordNeedsBoundary()
    ensures Lex("constant", 0) == [Part(Variable, "constant")]
  {
    var s := "constant";
    assert !IsBoundary(s, 5);
    assert KeywordFrom(s, 0, 4).None?;
    assert KeywordFrom(s, 0, 0).None?;
    WordEndIsMaximal(s, 0);
    assert WordEnd(s, 0) == 8;
    assert Exec(s, 0) == Some(Match(0, 8, Variable));
    assert Exec(s, 8).None?;
    assert Lex(s, 8) == [];
    assert s[0..8] == s;
    assert Lex(s, 0) == [] + [Part(Variable, s[0..8])] + [];
  }

  /** A half-typed string: the lone quote is plain text and the word after it a variable. */
  lemma HalfTypedString()
    ensures Lex("'crea", 0) == [Part(Text, "'"), Part(Variable, "crea")]
  {
    var s := "'crea";
    ClosingQuoteFinds(s, 1);
    assert MatchAt(s, 0).None?;
    assert KeywordFrom(s, 1, 4).None?;
    assert KeywordFrom(s, 1, 0).None?;
    WordEndIsMaximal(s, 1);
    assert MatchAt(s, 1) == Some(Match(1, 5, Variable));
    assert Exec(s, 0) == Some(Match(1, 5, Variable));
    assert Exec(s, 5).None?;
    assert Lex(s, 5) == [];
    assert s[0..1] == "'" && s[1..5] == "crea";
    assert Lex(s, 0) == [Part(Text, s[0..1])] + [Part(Variable, s[1..5])] + [];
  }
}
