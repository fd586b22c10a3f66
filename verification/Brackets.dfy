/** The bracket matchers of core/tools/cpplint.py.  They scan line by line, forwards and
    backwards; both are proved against one relation on the concatenated text. */
module Brackets {

  // ----- nesting depth

  function Delta(c: char, open: char, close: char): int {
    if c == open then 1 else if c == close then -1 else 0
  }

  /** Opening minus closing characters in s[i..j]. */
  function Depth(s: string, i: nat, j: nat, open: char, close: char): int
    requires i <= j <= |s|
  {
    if i == j then 0 else Depth(s, i, j - 1, open, close) + Delta(s[j - 1], open, close)
  }

  lemma {:induction false} DepthSplit(s: string, i: nat, j: nat, k: nat, open: char, close: char)
    requires i <= j <= k <= |s|
    ensures Depth(s, i, k, open, close) == Depth(s, i, j, open, close) + Depth(s, j, k, open, close)
  {
    if j < k {
      DepthSplit(s, i, j, k - 1, open, close);
    }
  }

  /** The bracket at q is the one that closes the bracket at p: the text from p on is never
      balanced before q and is balanced just after it. */
  ghost predicate Matches(s: string, p: nat, q: nat, open: char, close: char) {
    && p < q < |s| && s[p] == open && s[q] == close
    && Depth(s, p, q + 1, open, close) == 0
    && forall j :: p < j <= q ==> Depth(s, p, j, open, close) > 0
  }

  /** Read backwards from end, the text is unbalanced at every place of from..to. */
  ghost predicate OpenFrom(s: string, from: nat, to: nat, end: nat, open: char, close: char)
    requires to <= end <= |s|
  {
    forall j :: from <= j < to ==> Depth(s, j, end, open, close) < 0
  }

  /** The same relation from the other end. */
  lemma MatchesBackwards(s: string, p: nat, q: nat, open: char, close: char)
    requires p < q < |s| && s[p] == open && s[q] == close
    ensures Matches(s, p, q, open, close) <==>
            Depth(s, p, q + 1, open, close) == 0 && OpenFrom(s, p + 1, q + 1, q + 1, open, close)
  {
    forall j | p < j <= q
      ensures Depth(s, p, q + 1, open, close) == Depth(s, p, j, open, close) + Depth(s, j, q + 1, open, close)
    {
      DepthSplit(s, p, j, q + 1, open, close);
    }
    if Depth(s, p, q + 1, open, close) == 0 && Matches(s, p, q, open, close) {
      var end := q + 1;
      forall j | p + 1 <= j < end ensures Depth(s, j, end, open, close) < 0 {
        assert Depth(s, p, j, open, close) > 0;
      }
    }
  }

  lemma MatchesIsOneToOne(s: string, p: nat, q: nat, p': nat, q': nat, open: char, close: char)
    requires open != close && Matches(s, p, q, open, close) && Matches(s, p', q', open, close)
    ensures p == p' <==> q == q'
  {
    MatchesBackwards(s, p, q, open, close);
    MatchesBackwards(s, p', q', open, close);
  }

  // ----- the same relation as a grammar

  /** s[i..j] is made of other characters and of brackets around balanced text. */
  ghost predicate Balanced(s: string, i: nat, j: nat, open: char, close: char)
    requires i <= j <= |s|
    decreases j - i
  {
    || i == j
    || (s[i] != open && s[i] != close && Balanced(s, i + 1, j, open, close))
    || (s[i] == open && exists k :: i < k < j && Pairs(s, i, k, j, open, close))
  }

  /** The bracket at i is closed at k, and both what is inside and what follows is balanced. */
  ghost predicate Pairs(s: string, i: nat, k: nat, j: nat, open: char, close: char)
    requires i < k < j <= |s|
    decreases j - i - 1
  {
    s[k] == close && Balanced(s, i + 1, k, open, close) && Balanced(s, k + 1, j, open, close)
  }

  ghost predicate NeverBelow(s: string, i: nat, j: nat, open: char, close: char)
    requires i <= j <= |s|
  {
    forall k :: i <= k <= j ==> Depth(s, i, k, open, close) >= 0
  }

  lemma FirstDelta(s: string, i: nat, j: nat, open: char, close: char)
    requires i < j <= |s|
    ensures Depth(s, i, j, open, close) == Delta(s[i], open, close) + Depth(s, i + 1, j, open, close)
  {
    DepthSplit(s, i, i + 1, j, open, close);
    assert Depth(s, i, i + 1, open, close) == Depth(s, i, i, open, close) + Delta(s[i], open, close);
  }

  /** Balanced text has depth 0 in all and nowhere less. */
  lemma {:induction false} BalancedIsEven(s: string, i: nat, j: nat, open: char, close: char)
    requires i <= j <= |s| && open != close && Balanced(s, i, j, open, close)
    ensures Depth(s, i, j, open, close) == 0 && NeverBelow(s, i, j, open, close)
    decreases j - i
  {
    if i < j {
      if s[i] != open {
        BalancedIsEven(s, i + 1, j, open, close);
        forall k | i < k <= j ensures Depth(s, i, k, open, close) == Depth(s, i + 1, k, open, close) {
          FirstDelta(s, i, k, open, close);
        }
      } else {
        var m :| i < m < j && Pairs(s, i, m, j, open, close);
        BalancedIsEven(s, i + 1, m, open, close);
        BalancedIsEven(s, m + 1, j, open, close);
        forall k | i < k <= m ensures Depth(s, i, k, open, close) == 1 + Depth(s, i + 1, k, open, close) {
          FirstDelta(s, i, k, open, close);
        }
        forall k | m < k <= j ensures Depth(s, i, k, open, close) == Depth(s, m + 1, k, open, close) {
          DepthSplit(s, i, m + 1, k, open, close);
        }
      }
    }
  }

  /** The first place from k on where the depth counted from i is back at 0. */
  lemma {:induction false} FirstReturn(s: string, i: nat, k: nat, j: nat, open: char, close: char) returns (m: nat)
    requires i <= k <= j <= |s| && Depth(s, i, j, open, close) == 0
    ensures k <= m <= j && Depth(s, i, m, open, close) == 0
    ensures forall l :: k <= l < m ==> Depth(s, i, l, open, close) != 0
    decreases j - k
  {
    m := k;
    if Depth(s, i, k, open, close) != 0 {
      m := FirstReturn(s, i, k + 1, j, open, close);
    }
  }

  /** Text of depth 0 in all and nowhere less is balanced. */
  lemma {:induction false} EvenIsBalanced(s: string, i: nat, j: nat, open: char, close: char)
    requires i <= j <= |s| && open != close
    requires Depth(s, i, j, open, close) == 0 && NeverBelow(s, i, j, open, close)
    ensures Balanced(s, i, j, open, close)
    decreases j - i
  {
    if i < j {
      assert Depth(s, i, i + 1, open, close) == Delta(s[i], open, close) >= 0;
      if s[i] != open {
        var h := i + 1;
        forall k | h <= k <= j ensures Depth(s, h, k, open, close) >= 0 {
          FirstDelta(s, i, k, open, close);
        }
        FirstDelta(s, i, j, open, close);
        EvenIsBalanced(s, i + 1, j, open, close);
      } else {
        var m := FirstReturn(s, i, i + 1, j, open, close);
        ReturnPairs(s, i, m, j, open, close);
        EvenIsBalanced(s, i + 1, m - 1, open, close);
        EvenIsBalanced(s, m, j, open, close);
        assert Pairs(s, i, m - 1, j, open, close);
      }
    }
  }

  /** Between a bracket and the first return to depth 0, and behind that, the text is even. */
  lemma ReturnPairs(s: string, i: nat, m: nat, j: nat, open: char, close: char)
    requires i < m <= j <= |s| && open != close && s[i] == open
    requires Depth(s, i, m, open, close) == 0 == Depth(s, i, j, open, close) && NeverBelow(s, i, j, open, close)
    requires forall l :: i + 1 <= l < m ==> Depth(s, i, l, open, close) != 0
    ensures i < m - 1 && s[m - 1] == close
    ensures Depth(s, i + 1, m - 1, open, close) == 0 && NeverBelow(s, i + 1, m - 1, open, close)
    ensures Depth(s, m, j, open, close) == 0 && NeverBelow(s, m, j, open, close)
  {
    assert Depth(s, i, i + 1, open, close) == Depth(s, i, i, open, close) + 1;
    assert Depth(s, i, m - 1, open, close) > 0;
    var h := i + 1;
    forall k | h <= k <= m - 1 ensures Depth(s, h, k, open, close) >= 0 {
      FirstDelta(s, i, k, open, close);
      assert Depth(s, i, k, open, close) >= 0;
    }
    FirstDelta(s, i, m - 1, open, close);
    forall k | m <= k <= j ensures Depth(s, m, k, open, close) == Depth(s, i, k, open, close) >= 0 {
      DepthSplit(s, i, m, k, open, close);
    }
  }

  /** One bracket closes another exactly when the text between them is balanced. */
  lemma MatchesIsBalanced(s: string, p: nat, q: nat, open: char, close: char)
    requires p < q < |s| && open != close
    ensures Matches(s, p, q, open, close) <==> s[p] == open && s[q] == close && Balanced(s, p + 1, q, open, close)
  {
    if s[p] == open && s[q] == close {
      forall k | p < k <= q + 1 ensures Depth(s, p, k, open, close) == 1 + Depth(s, p + 1, k, open, close) {
        FirstDelta(s, p, k, open, close);
      }
      if Balanced(s, p + 1, q, open, close) {
        BalancedIsEven(s, p + 1, q, open, close);
      }
      if Matches(s, p, q, open, close) {
        var h := p + 1;
        forall k | h <= k <= q ensures Depth(s, h, k, open, close) >= 0 {
          assert Depth(s, p, k, open, close) > 0;
        }
        EvenIsBalanced(s, p + 1, q, open, close);
      }
    }
  }

  // ----- lines and the text they make up

  function Start(lines: seq<string>, n: nat): nat
    requires n <= |lines|
  {
    if n == 0 then 0 else Start(lines, n - 1) + |lines[n - 1]|
  }

  ghost function Text(lines: seq<string>, n: nat): (t: string)
    requires n <= |lines|
    ensures |t| == Start(lines, n)
  {
    if n == 0 then "" else Text(lines, n - 1) + lines[n - 1]
  }

  lemma {:induction false} TextAt(lines: seq<string>, m: nat, n: nat, i: nat)
    requires n < m <= |lines| && i < |lines[n]|
    ensures Start(lines, n) + i < Start(lines, m)
    ensures Text(lines, m)[Start(lines, n) + i] == lines[n][i]
  {
    if n + 1 < m {
      TextAt(lines, m - 1, n, i);
    }
  }

  lemma {:induction false} StartMonotone(lines: seq<string>, m: nat, n: nat)
    requires m <= n <= |lines|
    ensures Start(lines, m) <= Start(lines, n)
  {
    if m < n {
      StartMonotone(lines, m, n - 1);
    }
  }

  lemma PlaceIsUnique(lines: seq<string>, m: nat, i: nat, n: nat, j: nat)
    requires m < |lines| && i < |lines[m]| && n < |lines| && j < |lines[n]|
    requires Start(lines, m) + i == Start(lines, n) + j
    ensures m == n && i == j
  {
    if m < n {
      StartMonotone(lines, m + 1, n);
    } else if n < m {
      StartMonotone(lines, n + 1, m);
    }
  }

  lemma {:induction false} DepthInLine(lines: seq<string>, n: nat, i: nat, j: nat, open: char, close: char)
    requires n < |lines| && i <= j <= |lines[n]|
    ensures Start(lines, n) + j <= Start(lines, |lines|)
    ensures Depth(Text(lines, |lines|), Start(lines, n) + i, Start(lines, n) + j, open, close)
         == Depth(lines[n], i, j, open, close)
  {
    StartMonotone(lines, n + 1, |lines|);
    if i < j {
      DepthInLine(lines, n, i, j - 1, open, close);
      TextAt(lines, |lines|, n, j - 1);
    }
  }

  // ----- one line

  /** What a forward scan of one line reports: the end of the expression, or -1 and the
      depth at the end of the line.  As long as the depth starts out positive, or goes up
      from 0 at once, it has stayed positive up to there. */
  ghost predicate EndFound(line: string, from: nat, depth: int, open: char, close: char, end: int, newDepth: int) {
    var stop := if end > -1 then end else |line|;
    && -1 <= end <= |line| && from <= stop
    && (end > -1 ==> from < end && newDepth == 0 && line[end - 1] == close)
    && newDepth == depth + Depth(line, from, stop, open, close)
    && (depth > 0 || (depth == 0 && from < |line| && line[from] == open) ==>
          forall j :: from < j <= stop && j != end ==> depth + Depth(line, from, j, open, close) > 0)
  }

  method FindEndOfExpressionInLine(line: string, startpos: nat, depth: int, open: char, close: char)
    returns (end: int, newDepth: int)
    requires startpos <= |line| && open != close
    ensures EndFound(line, startpos, depth, open, close, end, newDepth)
    ensures forall j :: startpos < j <= |line| && (end > -1 ==> j < end) && line[j - 1] == close
                        ==> depth + Depth(line, startpos, j, open, close) != 0
  {
    newDepth := depth;
    for i := startpos to |line|
      invariant newDepth == depth + Depth(line, startpos, i, open, close)
      invariant forall j :: startpos < j <= i && line[j - 1] == close ==> depth + Depth(line, startpos, j, open, close) != 0
      invariant depth > 0 || (depth == 0 && startpos < |line| && line[startpos] == open) ==>
                  forall j :: startpos < j <= i ==> depth + Depth(line, startpos, j, open, close) > 0
    {
      if line[i] == open {
        newDepth := newDepth + 1;
      } else if line[i] == close {
        newDepth := newDepth - 1;
        if newDepth == 0 {
          return i + 1, 0;
        }
      }
    }
    end := -1;
  }

  ghost predicate PositiveBackwards(line: string, from: nat, end: nat, depth: int, open: char, close: char)
    requires end <= |line|
  {
    forall j :: from <= j < end ==> depth - Depth(line, j, end, open, close) > 0
  }

  /** What a backward scan of line[..end] reports. */
  ghost predicate StartFound(line: string, end: nat, depth: int, open: char, close: char, start: int, newDepth: int) {
    && end <= |line| && -1 <= start < end + (if start == -1 then 1 else 0)
    && (start > -1 ==> newDepth == 0 && line[start] == open)
    && newDepth == depth - Depth(line, if start > -1 then start else 0, end, open, close)
    && (depth > 0 || (depth == 0 && end > 0 && line[end - 1] == close) ==>
          PositiveBackwards(line, start + 1, end, depth, open, close))
  }

  /** endpos is -1 for an empty line. */
  method FindStartOfExpressionInLine(line: string, endpos: int, depth: int, open: char, close: char)
    returns (start: int, newDepth: int)
    requires -1 <= endpos < |line| && open != close
    ensures StartFound(line, endpos + 1, depth, open, close, start, newDepth)
    ensures forall j :: 0 <= j <= endpos && start < j && line[j] == open
                        ==> depth - Depth(line, j, endpos + 1, open, close) != 0
  {
    newDepth := depth;
    var i := endpos;
    while i > -1
      invariant -1 <= i <= endpos
      invariant newDepth == depth - Depth(line, i + 1, endpos + 1, open, close)
      invariant forall j :: i < j <= endpos && line[j] == open ==> depth - Depth(line, j, endpos + 1, open, close) != 0
      invariant depth > 0 || (depth == 0 && endpos >= 0 && line[endpos] == close) ==>
                  PositiveBackwards(line, i + 1, endpos + 1, depth, open, close)
    {
      DepthSplit(line, i, i + 1, endpos + 1, open, close);
      if line[i] == close {
        newDepth := newDepth + 1;
      } else if line[i] == open {
        newDepth := newDepth - 1;
        if newDepth == 0 {
          return i, 0;
        }
      }
      i := i - 1;
    }
    start := -1;
  }

  // ----- whole files

  const OPENING := "({[<"
  const CLOSING := ")}]>"

  function Partner(c: char): char {
    match c
    case '(' => ')'
    case '[' => ']'
    case '{' => '}'
    case '<' => '>'
    case ')' => '('
    case ']' => '['
    case '}' => '{'
    case '>' => '<'
    case _ => c
  }

  /** The bracket at (m, i) is closed by the one at (n, j). */
  ghost predicate ClosedBy(lines: seq<string>, m: nat, i: nat, n: nat, j: nat) {
    && m < |lines| && i < |lines[m]| && n < |lines| && j < |lines[n]|
    && lines[m][i] in OPENING
    && Matches(Text(lines, |lines|), Start(lines, m) + i, Start(lines, n) + j, lines[m][i], Partner(lines[m][i]))
  }

  /** The four pairs of brackets. */
  predicate IsPair(a: char, b: char) {
    (a == '(' && b == ')') || (a == '[' && b == ']') || (a == '{' && b == '}') || (a == '<' && b == '>')
  }

  /** Two places are partners exactly when they hold a pair of brackets with balanced text
      between them, lines and all. */
  lemma ClosedByExactly(lines: seq<string>, m: nat, i: nat, n: nat, j: nat)
    requires m < |lines| && i < |lines[m]| && n < |lines| && j < |lines[n]|
    ensures var p, q, text := Start(lines, m) + i, Start(lines, n) + j, Text(lines, |lines|);
            p < |text| && q < |text| &&
            (ClosedBy(lines, m, i, n, j) <==>
             IsPair(lines[m][i], lines[n][j]) && p < q && Balanced(text, p + 1, q, lines[m][i], lines[n][j]))
  {
    var p, q, text := Start(lines, m) + i, Start(lines, n) + j, Text(lines, |lines|);
    TextAt(lines, |lines|, m, i);
    TextAt(lines, |lines|, n, j);
    PartnerIsPair(lines[m][i], lines[n][j]);
    if p < q && lines[m][i] in OPENING {
      MatchesIsBalanced(text, p, q, lines[m][i], Partner(lines[m][i]));
    }
  }

  lemma PartnerIsPair(a: char, b: char)
    ensures IsPair(a, b) <==> a in OPENING && b == Partner(a)
    ensures a in OPENING ==> Partner(a) != a
  {
    assert OPENING[0] == '(' && OPENING[1] == '{' && OPENING[2] == '[' && OPENING[3] == '<';
  }

  method CloseExpression(lines: seq<string>, linenum: nat, pos: nat)
    returns (line: string, endLine: nat, endPos: int)
    requires linenum < |lines| && pos < |lines[linenum]|
    ensures endPos > -1 ==> endPos > 0 && ClosedBy(lines, linenum, pos, endLine, endPos - 1) && line == lines[endLine]
    ensures endPos <= -1 ==> endPos == -1 && endLine == |lines|
    ensures endPos <= -1 ==> line == if lines[linenum][pos] in OPENING then lines[|lines| - 1] else lines[linenum]
    ensures endPos <= -1 ==> forall n: nat, j: nat :: !ClosedBy(lines, linenum, pos, n, j)
  {
    line := lines[linenum];
    var open := line[pos];
    if open !in OPENING {
      return line, |lines|, -1;
    }
    var close := Partner(open);
    OpenAtOnce(lines, linenum, pos);
    var end, depth := FindEndOfExpressionInLine(line, pos, 0, open, close);
    ForwardOverLine(lines, linenum, pos, linenum, pos, 0, end, depth);
    if end > -1 {
      return line, linenum, end;
    }
    var n := linenum;
    while n < |lines| - 1
      invariant linenum <= n < |lines| && line == lines[n]
      invariant OpenUpTo(lines, linenum, pos, Start(lines, n + 1), depth) && depth > 0
    {
      n := n + 1;
      line := lines[n];
      ghost var before := depth;
      end, depth := FindEndOfExpressionInLine(line, 0, depth, open, close);
      ForwardOverLine(lines, linenum, pos, n, 0, before, end, depth);
      if end > -1 {
        return line, n, end;
      }
    }
    NeverClosed(lines, linenum, pos, depth);
    return line, |lines|, -1;
  }

  /** From the bracket at (m, i) on, the text is open at every place up to k. */
  ghost predicate OpenUpTo(lines: seq<string>, m: nat, i: nat, k: nat, depth: int)
    requires m < |lines| && i < |lines[m]|
  {
    var open := lines[m][i];
    var p, text := Start(lines, m) + i, Text(lines, |lines|);
    && p <= k <= |text| && Depth(text, p, k, open, Partner(open)) == depth
    && forall j :: p < j <= k ==> Depth(text, p, j, open, Partner(open)) > 0
  }

  lemma OpenAtOnce(lines: seq<string>, m: nat, i: nat)
    requires m < |lines| && i < |lines[m]|
    ensures OpenUpTo(lines, m, i, Start(lines, m) + i, 0)
  {
    TextAt(lines, |lines|, m, i);
  }

  /** Depths from p on, read off line n from k on. */
  lemma DepthsInLine(lines: seq<string>, p: nat, n: nat, k: nat, open: char, close: char)
    requires n < |lines| && k <= |lines[n]| && p <= Start(lines, n) + k
    ensures Start(lines, n) + |lines[n]| <= Start(lines, |lines|)
    ensures forall j :: k <= j <= |lines[n]| ==>
              Depth(Text(lines, |lines|), p, Start(lines, n) + j, open, close)
              == Depth(Text(lines, |lines|), p, Start(lines, n) + k, open, close) + Depth(lines[n], k, j, open, close)
  {
    StartMonotone(lines, n + 1, |lines|);
    forall j | k <= j <= |lines[n]|
      ensures Depth(Text(lines, |lines|), p, Start(lines, n) + j, open, close)
              == Depth(Text(lines, |lines|), p, Start(lines, n) + k, open, close) + Depth(lines[n], k, j, open, close)
    {
      DepthInLine(lines, n, k, j, open, close);
      DepthSplit(Text(lines, |lines|), p, Start(lines, n) + k, Start(lines, n) + j, open, close);
    }
  }

  lemma OpenInLine(lines: seq<string>, m: nat, i: nat, n: nat, k: nat, depth: int, stop: nat)
    requires m <= n < |lines| && i < |lines[m]| && k <= stop <= |lines[n]|
    requires OpenUpTo(lines, m, i, Start(lines, n) + k, depth)
    requires forall j :: k < j <= stop ==> depth + Depth(lines[n], k, j, lines[m][i], Partner(lines[m][i])) > 0
    ensures OpenUpTo(lines, m, i, Start(lines, n) + stop,
                     depth + Depth(lines[n], k, stop, lines[m][i], Partner(lines[m][i])))
  {
    var open, close := lines[m][i], Partner(lines[m][i]);
    var p, text, s := Start(lines, m) + i, Text(lines, |lines|), Start(lines, n);
    DepthsInLine(lines, p, n, k, open, close);
    forall j | s + k < j <= s + stop ensures Depth(text, p, j, open, close) > 0 {
      assert depth + Depth(lines[n], k, j - s, open, close) > 0;
      assert Depth(text, p, s + (j - s), open, close) > 0;
    }
  }

  lemma ClosesThere(lines: seq<string>, m: nat, i: nat, n: nat, j: nat, depth: int)
    requires m <= n < |lines| && i < |lines[m]| && j < |lines[n]| && lines[m][i] in OPENING
    requires lines[n][j] == Partner(lines[m][i]) && OpenUpTo(lines, m, i, Start(lines, n) + j, depth)
    requires Start(lines, n) + j < Start(lines, |lines|)
    requires Depth(Text(lines, |lines|), Start(lines, m) + i, Start(lines, n) + j + 1, lines[m][i], Partner(lines[m][i])) == 0
    ensures ClosedBy(lines, m, i, n, j)
  {
    TextAt(lines, |lines|, m, i);
    TextAt(lines, |lines|, n, j);
    assert Start(lines, m) + i != Start(lines, n) + j;
  }

  lemma FoundInLine(lines: seq<string>, m: nat, i: nat, n: nat, k: nat, depth: int, end: nat)
    requires m <= n < |lines| && i < |lines[m]| && k <= |lines[n]| && lines[m][i] in OPENING
    requires OpenUpTo(lines, m, i, Start(lines, n) + k, depth)
    requires depth > 0 || (depth == 0 && m == n && i == k)
    requires EndFound(lines[n], k, depth, lines[m][i], Partner(lines[m][i]), end, 0)
    ensures end > 0 && ClosedBy(lines, m, i, n, end - 1)
  {
    OpenInLine(lines, m, i, n, k, depth, end - 1);
    DepthsInLine(lines, Start(lines, m) + i, n, k, lines[m][i], Partner(lines[m][i]));
    ClosesThere(lines, m, i, n, end - 1, depth + Depth(lines[n], k, end - 1, lines[m][i], Partner(lines[m][i])));
  }

  /** A scan of line n from k on either finds the closing bracket or keeps the text open. */
  lemma ForwardOverLine(lines: seq<string>, m: nat, i: nat, n: nat, k: nat, depth: int, end: int, newDepth: int)
    requires m <= n < |lines| && i < |lines[m]| && k <= |lines[n]| && lines[m][i] in OPENING
    requires OpenUpTo(lines, m, i, Start(lines, n) + k, depth)
    requires depth > 0 || (depth == 0 && m == n && i == k)
    requires EndFound(lines[n], k, depth, lines[m][i], Partner(lines[m][i]), end, newDepth)
    ensures end > -1 ==> ClosedBy(lines, m, i, n, end - 1)
    ensures end == -1 ==> OpenUpTo(lines, m, i, Start(lines, n + 1), newDepth) && newDepth > 0
  {
    if end > -1 {
      FoundInLine(lines, m, i, n, k, depth, end);
    } else {
      OpenInLine(lines, m, i, n, k, depth, |lines[n]|);
    }
  }

  lemma NeverClosed(lines: seq<string>, m: nat, i: nat, depth: int)
    requires m < |lines| && i < |lines[m]|
    requires OpenUpTo(lines, m, i, Start(lines, |lines|), depth)
    ensures forall n: nat, j: nat :: !ClosedBy(lines, m, i, n, j)
  {
    forall n: nat, j: nat | n < |lines| && j < |lines[n]| ensures !ClosedBy(lines, m, i, n, j) {
      TextAt(lines, |lines|, n, j);
    }
  }

  // ----- the way back

  method ReverseCloseExpression(lines: seq<string>, linenum: nat, pos: nat)
    returns (line: string, startLine: nat, startPos: int)
    requires linenum < |lines| && pos < |lines[linenum]|
    ensures startPos > -1 ==> ClosedBy(lines, startLine, startPos, linenum, pos) && line == lines[startLine]
    ensures startPos <= -1 ==> startPos == -1 && startLine == 0
    ensures startPos <= -1 ==> line == if lines[linenum][pos] in CLOSING then lines[0] else lines[linenum]
    ensures startPos <= -1 ==> forall n: nat, j: nat :: !ClosedBy(lines, n, j, linenum, pos)
  {
    line := lines[linenum];
    var close := line[pos];
    if close !in CLOSING {
      ClosedByPartner(lines, linenum, pos);
      return line, 0, -1;
    }
    var open := Partner(close);
    OpenBackAtOnce(lines, linenum, pos);
    var start, depth := FindStartOfExpressionInLine(line, pos, 0, open, close);
    BackwardOverLine(lines, linenum, pos, linenum, pos + 1, 0, start, depth);
    if start > -1 {
      return line, linenum, start;
    }
    var n := linenum;
    while n > 0
      invariant 0 <= n <= linenum && line == lines[n]
      invariant OpenDownTo(lines, linenum, pos, Start(lines, n), depth) && depth > 0
    {
      n := n - 1;
      line := lines[n];
      ghost var before := depth;
      start, depth := FindStartOfExpressionInLine(line, |line| - 1, depth, open, close);
      BackwardOverLine(lines, linenum, pos, n, |line|, before, start, depth);
      if start > -1 {
        return line, n, start;
      }
    }
    NeverOpened(lines, linenum, pos, depth);
    return line, 0, -1;
  }

  /** Up to the bracket at (n, j), the text is open backwards from every place from k on. */
  ghost predicate OpenDownTo(lines: seq<string>, n: nat, j: nat, k: nat, depth: int)
    requires n < |lines| && j < |lines[n]|
  {
    var close := lines[n][j];
    var end, text := Start(lines, n) + j + 1, Text(lines, |lines|);
    && k <= end <= |text| && Depth(text, k, end, Partner(close), close) == -depth
    && OpenFrom(text, k, end, end, Partner(close), close)
  }

  lemma OpenBackAtOnce(lines: seq<string>, n: nat, j: nat)
    requires n < |lines| && j < |lines[n]|
    ensures OpenDownTo(lines, n, j, Start(lines, n) + j + 1, 0)
  {
    TextAt(lines, |lines|, n, j);
  }

  lemma DepthsBackInLine(lines: seq<string>, end: nat, m: nat, k: nat, open: char, close: char)
    requires m < |lines| && k <= |lines[m]| && Start(lines, m) + k <= end <= Start(lines, |lines|)
    ensures forall i :: 0 <= i <= k ==>
              Depth(Text(lines, |lines|), Start(lines, m) + i, end, open, close)
              == Depth(lines[m], i, k, open, close) + Depth(Text(lines, |lines|), Start(lines, m) + k, end, open, close)
  {
    forall i | 0 <= i <= k
      ensures Depth(Text(lines, |lines|), Start(lines, m) + i, end, open, close)
              == Depth(lines[m], i, k, open, close) + Depth(Text(lines, |lines|), Start(lines, m) + k, end, open, close)
    {
      DepthInLine(lines, m, i, k, open, close);
      DepthSplit(Text(lines, |lines|), Start(lines, m) + i, Start(lines, m) + k, end, open, close);
    }
  }

  lemma OpenBackInLine(lines: seq<string>, n: nat, j: nat, m: nat, k: nat, depth: int, stop: nat)
    requires m <= n < |lines| && j < |lines[n]| && stop <= k <= |lines[m]|
    requires OpenDownTo(lines, n, j, Start(lines, m) + k, depth)
    requires PositiveBackwards(lines[m], stop, k, depth, Partner(lines[n][j]), lines[n][j])
    ensures OpenDownTo(lines, n, j, Start(lines, m) + stop,
                       depth - Depth(lines[m], stop, k, Partner(lines[n][j]), lines[n][j]))
  {
    var open, close := Partner(lines[n][j]), lines[n][j];
    var end, text, s := Start(lines, n) + j + 1, Text(lines, |lines|), Start(lines, m);
    DepthsBackInLine(lines, end, m, k, open, close);
    forall i | s + stop <= i < s + k ensures Depth(text, i, end, open, close) < 0 {
      assert depth - Depth(lines[m], i - s, k, open, close) > 0;
      assert Depth(text, s + (i - s), end, open, close) < 0;
    }
  }

  /** A scan of line m from k down either finds the opening bracket or keeps the text open. */
  lemma BackwardOverLine(lines: seq<string>, n: nat, j: nat, m: nat, k: nat, depth: int, start: int, newDepth: int)
    requires m <= n < |lines| && j < |lines[n]| && k <= |lines[m]| && lines[n][j] in CLOSING
    requires OpenDownTo(lines, n, j, Start(lines, m) + k, depth)
    requires depth > 0 || (depth == 0 && m == n && k == j + 1)
    requires StartFound(lines[m], k, depth, Partner(lines[n][j]), lines[n][j], start, newDepth)
    ensures start > -1 ==> ClosedBy(lines, m, start, n, j)
    ensures start == -1 ==> OpenDownTo(lines, n, j, Start(lines, m), newDepth) && newDepth > 0
  {
    var end := Start(lines, n) + j + 1;
    OpenBackInLine(lines, n, j, m, k, depth, start + 1);
    if start > -1 {
      DepthsBackInLine(lines, end, m, k, Partner(lines[n][j]), lines[n][j]);
      TextAt(lines, |lines|, m, start);
      TextAt(lines, |lines|, n, j);
      assert Start(lines, m) + start != Start(lines, n) + j;
      MatchesBackwards(Text(lines, |lines|), Start(lines, m) + start, end - 1, Partner(lines[n][j]), lines[n][j]);
    }
  }

  lemma ClosedByPartner(lines: seq<string>, n: nat, j: nat)
    requires n < |lines| && j < |lines[n]|
    ensures forall m: nat, i: nat :: ClosedBy(lines, m, i, n, j) ==>
              lines[n][j] in CLOSING && lines[m][i] == Partner(lines[n][j])
  {
    TextAt(lines, |lines|, n, j);
  }

  lemma NeverOpened(lines: seq<string>, n: nat, j: nat, depth: int)
    requires n < |lines| && j < |lines[n]| && lines[n][j] in CLOSING
    requires OpenDownTo(lines, n, j, 0, depth)
    ensures forall m: nat, i: nat :: !ClosedBy(lines, m, i, n, j)
  {
    ClosedByPartner(lines, n, j);
    forall m: nat, i: nat | m < |lines| && i < |lines[m]| ensures !ClosedBy(lines, m, i, n, j) {
      TextAt(lines, |lines|, m, i);
    }
  }

  // ----- both ways

  /** The relation that both scans compute pairs places one to one. */
  lemma ClosedByIsOneToOne(lines: seq<string>, m: nat, i: nat, n: nat, j: nat, m': nat, i': nat, n': nat, j': nat)
    requires ClosedBy(lines, m, i, n, j) && ClosedBy(lines, m', i', n', j') 
    ensures (m == m' && i == i') <==> (n == n' && j == j')
  {
    ClosedByPartner(lines, n, j);
    ClosedByPartner(lines, n', j');
    if m == m' && i == i' {
      MatchesIsOneToOne(Text(lines, |lines|), Start(lines, m) + i, Start(lines, n) + j, Start(lines, m') + i',
                        Start(lines, n') + j', lines[m][i], lines[n][j]);
      PlaceIsUnique(lines, n, j, n', j');
    } else if n == n' && j == j' {
      MatchesIsOneToOne(Text(lines, |lines|), Start(lines, m) + i, Start(lines, n) + j, Start(lines, m') + i',
                        Start(lines, n') + j', lines[m][i], lines[n][j]);
      PlaceIsUnique(lines, m, i, m', i');
    }
  }

  /** Forwards and back again. */
  method CloseThenReverse(lines: seq<string>, linenum: nat, pos: nat) returns (found: bool, startLine: nat,
                          startPos: int)
    requires linenum < |lines| && pos < |lines[linenum]|
    ensures found ==> startLine == linenum && startPos == pos
    ensures found <==> exists n: nat, j: nat :: ClosedBy(lines, linenum, pos, n, j)
  {
    var line, n, end := CloseExpression(lines, linenum, pos);
    found := end > -1;
    startLine, startPos := 0, -1;
    if found {
      line, startLine, startPos := ReverseCloseExpression(lines, n, end - 1);
      if startPos > -1 {
        ClosedByIsOneToOne(lines, linenum, pos, n, end - 1, startLine, startPos, n, end - 1);
      }
    }
  }

  /** Backwards and forth again: the position after the bracket comes back. */
  method ReverseThenClose(lines: seq<string>, linenum: nat, pos: nat) returns (found: bool, endLine: nat, endPos: int)
    requires linenum < |lines| && pos < |lines[linenum]|
    ensures found ==> endLine == linenum && endPos == pos + 1
    ensures found <==> exists m: nat, i: nat :: ClosedBy(lines, m, i, linenum, pos)
  {
    var line, m, start := ReverseCloseExpression(lines, linenum, pos);
    found := start > -1;
    endLine, endPos := 0, -1;
    if found {
      line, endLine, endPos := CloseExpression(lines, m, start);
      if endPos > -1 {
        ClosedByIsOneToOne(lines, m, start, linenum, pos, m, start, endLine, endPos - 1);
      }
    }
  }
}
