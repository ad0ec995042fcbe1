/**
 * The markup scanner of the extended print job: one left-to-right pass of
 * the regular expression `\$([A-Z0-9_]+)\((.*?)\)` (Python `re`, no flags)
 * over the job text, splitting it into literal text runs and directives.
 */
module Markup {
  import opened Options
  import opened PyStr
  import opened Seqs

  // ---------------------------------------------------------------------------
  // The pattern, stated declaratively
  // ---------------------------------------------------------------------------

  /** The class `[A-Z0-9_]`. */
  predicate IsNameChar(c: char) {
    ('A' <= c <= 'Z') || ('0' <= c <= '9') || c == '_'
  }

  /** What `[A-Z0-9_]+` matches. */
  predicate ValidName(name: string) {
    |name| > 0 && forall k :: 0 <= k < |name| ==> IsNameChar(name[k])
  }

  /** What `.*?` may match before the closing `)`: no `)` (the match is lazy) and no newline (`.` excludes it). */
  predicate ValidArgText(a: string) {
    forall k :: 0 <= k < |a| ==> a[k] != ')' && a[k] != '\n'
  }

  /** The text of the directive `$NAME(ARGS)`. */
  function Directive(name: string, argText: string): string {
    "$" + name + "(" + argText + ")"
  }

  /** One match of the pattern: where it lies in the text and its two groups. */
  datatype Match = Match(start: nat, end: nat, name: string, argText: string)

  /** `m` is a match of the pattern in `s`: the text between its bounds is a well-formed directive. */
  predicate IsMatch(s: string, m: Match) {
    && m.start <= m.end <= |s|
    && s[m.start..m.end] == Directive(m.name, m.argText)
    && ValidName(m.name)
    && ValidArgText(m.argText)
  }

  // ---------------------------------------------------------------------------
  // The pattern, as the regex engine runs it at one position
  // ---------------------------------------------------------------------------

  /** End of the run of name characters that starts at `i`. */
  function NameEnd(s: string, i: nat): (j: nat)
    requires i <= |s|
    ensures i <= j <= |s|
    decreases |s| - i
  {
    if i < |s| && IsNameChar(s[i]) then NameEnd(s, i + 1) else i
  }

  /** `NameEnd` stops at the first character outside `[A-Z0-9_]`. */
  lemma {:induction false} NameEndSound(s: string, i: nat)
    requires i <= |s|
    ensures forall k :: i <= k < NameEnd(s, i) ==> IsNameChar(s[k])
    ensures NameEnd(s, i) == |s| || !IsNameChar(s[NameEnd(s, i)])
    decreases |s| - i
  {
    if i < |s| && IsNameChar(s[i]) {
      NameEndSound(s, i + 1);
    }
  }

  /** Index of the first `)` or newline at or after `i`, or `|s|`. */
  function ArgEnd(s: string, i: nat): (k: nat)
    requires i <= |s|
    ensures i <= k <= |s|
    decreases |s| - i
  {
    if i < |s| && s[i] != ')' && s[i] != '\n' then ArgEnd(s, i + 1) else i
  }

  /** `ArgEnd` stops at the first `)` or newline. */
  lemma {:induction false} ArgEndSound(s: string, i: nat)
    requires i <= |s|
    ensures forall q :: i <= q < ArgEnd(s, i) ==> s[q] != ')' && s[q] != '\n'
    ensures ArgEnd(s, i) == |s| || s[ArgEnd(s, i)] == ')' || s[ArgEnd(s, i)] == '\n'
    decreases |s| - i
  {
    if i < |s| && s[i] != ')' && s[i] != '\n' {
      ArgEndSound(s, i + 1);
    }
  }

  /**
   * The match of the pattern anchored at `i`, if any. The greedy name run
   * must be followed by `(`, since `(` is not a name character; the lazy
   * argument run stops at the first `)`, and fails at a newline.
   */
  function MatchAt(s: string, i: nat): (r: Option<Match>)
    requires i <= |s|
    ensures r.Some? ==> r.value.start == i < r.value.end <= |s|
  {
    if i < |s| && s[i] == '$' then
      var j := NameEnd(s, i + 1);
      if j > i + 1 && j < |s| && s[j] == '(' then
        var k := ArgEnd(s, j + 1);
        if k < |s| && s[k] == ')' then Some(Match(i, k + 1, s[i + 1..j], s[j + 1..k]))
        else None
      else None
    else None
  }

  /** What the engine finds at `i` is a match of the pattern. */
  lemma MatchAtSound(s: string, i: nat)
    requires i <= |s|
    ensures MatchAt(s, i).Some? ==> IsMatch(s, MatchAt(s, i).value)
  {
    if MatchAt(s, i).Some? {
      var j := NameEnd(s, i + 1);
      var k := ArgEnd(s, j + 1);
      NameEndSound(s, i + 1);
      ArgEndSound(s, j + 1);
      MatchAtFound(s, i, j, k);
      CheckedIsMatch(s, i, j, k);
    }
  }

  /** Text that passes each of the engine's checks is a match of the pattern. */
  lemma CheckedIsMatch(s: string, i: nat, j: nat, k: nat)
    requires i + 1 < j < k < |s|
    requires s[i] == '$' && s[j] == '(' && s[k] == ')'
    requires forall q :: i + 1 <= q < j ==> IsNameChar(s[q])
    requires forall q :: j + 1 <= q < k ==> s[q] != ')' && s[q] != '\n'
    ensures IsMatch(s, Match(i, k + 1, s[i + 1..j], s[j + 1..k]))
  {
    assert s[i..k + 1] == [s[i]] + s[i + 1..j] + [s[j]] + s[j + 1..k] + [s[k]];
  }

  /** Where the parts of a directive lie in its text. */
  lemma DirectiveParts(name: string, argText: string)
    ensures var d := Directive(name, argText);
      && |d| == |name| + |argText| + 3
      && d[0] == '$' && d[1..1 + |name|] == name && d[1 + |name|] == '('
      && d[2 + |name|..|d| - 1] == argText && d[|d| - 1] == ')'
  {
  }

  lemma {:induction false} NameEndExact(s: string, i: nat, j: nat)
    requires i <= j < |s|
    requires forall q :: i <= q < j ==> IsNameChar(s[q])
    requires !IsNameChar(s[j])
    ensures NameEnd(s, i) == j
    decreases j - i
  {
    if i < j {
      NameEndExact(s, i + 1, j);
    }
  }

  lemma {:induction false} ArgEndExact(s: string, i: nat, k: nat)
    requires i <= k < |s|
    requires forall q :: i <= q < k ==> s[q] != ')' && s[q] != '\n'
    requires s[k] == ')'
    ensures ArgEnd(s, i) == k
    decreases k - i
  {
    if i < k {
      ArgEndExact(s, i + 1, k);
    }
  }

  /** The engine finds every match anchored at `i`: a match of the pattern there is unique. */
  lemma MatchAtComplete(s: string, m: Match)
    requires IsMatch(s, m)
    ensures MatchAt(s, m.start) == Some(m)
  {
    var i := m.start;
    var j := i + 1 + |m.name|;
    var k := m.end - 1;
    MatchLayout(s, m, j, k);
    NameEndExact(s, i + 1, j);
    ArgEndExact(s, j + 1, k);
    MatchAtFound(s, i, j, k);
  }

  /** Where the parts of a match lie in the text. */
  lemma MatchLayout(s: string, m: Match, j: nat, k: nat)
    requires IsMatch(s, m)
    requires j == m.start + 1 + |m.name| && k + 1 == m.end
    ensures m.start + 1 < j < k < |s|
    ensures s[m.start] == '$' && s[j] == '(' && s[k] == ')'
    ensures s[m.start + 1..j] == m.name && s[j + 1..k] == m.argText
    ensures forall q :: m.start + 1 <= q < j ==> IsNameChar(s[q])
    ensures !IsNameChar(s[j])
    ensures forall q :: j + 1 <= q < k ==> s[q] != ')' && s[q] != '\n'
  {
    var i, n, a := m.start, m.name, m.argText;
    DirectiveParts(n, a);
    SliceParts(s, i, m.end, Directive(n, a), 0, 1 + |n|, |n| + |a| + 2);
    assert s[i + 1..j] == n;
    assert s[j + 1..k] == a;
  }

  /** The engine's answer when each of its checks succeeds. */
  lemma MatchAtFound(s: string, i: nat, j: nat, k: nat)
    requires i + 1 < j < k < |s|
    requires s[i] == '$' && NameEnd(s, i + 1) == j && s[j] == '('
    requires ArgEnd(s, j + 1) == k && s[k] == ')'
    ensures MatchAt(s, i) == Some(Match(i, k + 1, s[i + 1..j], s[j + 1..k]))
  {
  }

  /** Characters and slices of `s[lo..hi] == d`, read back in `s`. */
  lemma SliceParts(s: string, lo: nat, hi: nat, d: string, x: nat, y: nat, z: nat)
    requires lo <= hi <= |s| && s[lo..hi] == d
    requires x < y < z < |d|
    ensures s[lo + x] == d[x] && s[lo + y] == d[y] && s[lo + z] == d[z]
    ensures s[lo + x + 1..lo + y] == d[x + 1..y]
    ensures s[lo + y + 1..lo + z] == d[y + 1..z]
    ensures forall q :: lo + x < q < lo + y ==> s[q] == d[q - lo]
    ensures forall q :: lo + y < q < lo + z ==> s[q] == d[q - lo]
  {
    forall q | lo <= q < hi
      ensures s[q] == d[q - lo]
    {
      assert s[lo..hi][q - lo] == s[q];
    }
    assert s[lo + x + 1..lo + y] == d[x + 1..y];
    assert s[lo + y + 1..lo + z] == d[y + 1..z];
  }

  /** A match lies in a slice of the text exactly when it lies, shifted, in the text. */
  function Shift(m: Match, d: nat): Match {
    Match(d + m.start, d + m.end, m.name, m.argText)
  }

  lemma IsMatchInSlice(s: string, lo: nat, hi: nat, m: Match)
    requires lo <= hi <= |s|
    requires m.end <= hi - lo
    ensures IsMatch(s[lo..hi], m) <==> IsMatch(s, Shift(m, lo))
  {
    if m.start <= m.end {
      assert s[lo..hi][m.start..m.end] == s[m.start + lo..m.end + lo];
    }
  }

  // ---------------------------------------------------------------------------
  // re.finditer
  // ---------------------------------------------------------------------------

  /** The leftmost match starting at or after `i`: `pattern.search(s, i)`. */
  function FindMatch(s: string, i: nat): (r: Option<Match>)
    requires i <= |s|
    ensures r.Some? ==> i <= r.value.start < r.value.end <= |s|
    decreases |s| - i
  {
    if i == |s| then None
    else if MatchAt(s, i).Some? then MatchAt(s, i)
    else FindMatch(s, i + 1)
  }

  /** What `FindMatch` returns is the engine's answer at the position it stops at. */
  lemma {:induction false} FindMatchFound(s: string, i: nat)
    requires i <= |s|
    ensures FindMatch(s, i).Some? ==> MatchAt(s, FindMatch(s, i).value.start) == FindMatch(s, i)
    decreases |s| - i
  {
    if i < |s| && MatchAt(s, i).None? {
      FindMatchFound(s, i + 1);
    }
  }

  /** The engine finds no match at any position `FindMatch` passes over. */
  lemma {:induction false} FindMatchFirst(s: string, i: nat)
    requires i <= |s|
    ensures var r := FindMatch(s, i);
      forall p :: i <= p < |s| && (r.Some? ==> p < r.value.start) ==> MatchAt(s, p).None?
    decreases |s| - i
  {
    if i < |s| && MatchAt(s, i).None? {
      FindMatchFirst(s, i + 1);
    }
  }

  /** No match of the pattern starts before the one `FindMatch` returns. */
  lemma FindMatchLeftmost(s: string, i: nat, m: Match)
    requires i <= |s|
    requires IsMatch(s, m) && i <= m.start
    ensures FindMatch(s, i).Some?
    ensures FindMatch(s, i).value.start <= m.start
    ensures FindMatch(s, i).value.start == m.start ==> FindMatch(s, i).value == m
  {
    MatchAtComplete(s, m);
    FindMatchFirst(s, i);
    FindMatchFound(s, i);
  }

  function ShiftOption(r: Option<Match>, d: nat): Option<Match> {
    if r.Some? then Some(Shift(r.value, d)) else None
  }

  /** The engine's answer at a position of the end of a text does not depend on what precedes it. */
  lemma MatchAtSuffix(s: string, d: nat, i: nat)
    requires d + i <= |s|
    ensures MatchAt(s, d + i) == ShiftOption(MatchAt(s[d..], i), d)
  {
    if MatchAt(s, d + i).Some? {
      MatchInSuffix(s, d, i);
    } else if MatchAt(s[d..], i).Some? {
      MatchFromSuffix(s, d, i);
    }
  }

  /** A match the engine finds in the end of a text is found, shifted back, in the suffix. */
  lemma MatchInSuffix(s: string, d: nat, i: nat)
    requires d + i <= |s| && MatchAt(s, d + i).Some?
    ensures MatchAt(s, d + i) == ShiftOption(MatchAt(s[d..], i), d)
  {
    var m := MatchAt(s, d + i).value;
    var m0 := Match(i, m.end - d, m.name, m.argText);
    MatchShiftedBack(s, d, m, m0);
    assert Shift(m0, d) == m;
  }

  lemma MatchShiftedBack(s: string, d: nat, m: Match, m0: Match)
    requires d <= m.start <= |s| && MatchAt(s, m.start) == Some(m)
    requires m0 == Match(m.start - d, m.end - d, m.name, m.argText)
    ensures MatchAt(s[d..], m0.start) == Some(m0)
  {
    assert s[d..|s|] == s[d..];
    assert Shift(m0, d) == m;
    MatchAtSound(s, m.start);
    IsMatchInSlice(s, d, |s|, m0);
    MatchAtComplete(s[d..], m0);
  }

  /** A match the engine finds in a suffix is found, shifted, in the whole text. */
  lemma MatchFromSuffix(s: string, d: nat, i: nat)
    requires d + i <= |s| && MatchAt(s[d..], i).Some?
    ensures MatchAt(s, d + i) == ShiftOption(MatchAt(s[d..], i), d)
  {
    var m := MatchAt(s[d..], i).value;
    assert s[d..|s|] == s[d..];
    MatchAtSound(s[d..], i);
    IsMatchInSlice(s, d, |s|, m);
    MatchAtComplete(s, Shift(m, d));
  }

  /** Searching the end of a text finds the same matches as searching that end alone. */
  lemma {:induction false} FindMatchSuffix(s: string, d: nat, i: nat)
    requires d + i <= |s|
    ensures FindMatch(s, d + i) == ShiftOption(FindMatch(s[d..], i), d)
    decreases |s| - d - i
  {
    if d + i < |s| {
      if MatchAt(s[d..], i).Some? {
        FindMatchSuffixHit(s, d, i);
      } else {
        FindMatchSuffix(s, d, i + 1);
        FindMatchSuffixMiss(s, d, i);
      }
    } else {
      FindMatchSuffixEnd(s, d, i);
    }
  }

  /** Both searches start at the end of the text. */
  lemma FindMatchSuffixEnd(s: string, d: nat, i: nat)
    requires d + i == |s|
    ensures FindMatch(s, d + i) == ShiftOption(FindMatch(s[d..], i), d)
  {
    assert i == |s[d..]|;
  }

  /** The search step that stops at a match. */
  lemma FindMatchSuffixHit(s: string, d: nat, i: nat)
    requires d + i < |s| && MatchAt(s[d..], i).Some?
    ensures FindMatch(s, d + i) == ShiftOption(FindMatch(s[d..], i), d)
  {
    MatchAtSuffix(s, d, i);
    FindMatchUnfold(s, d + i);
    FindMatchUnfold(s[d..], i);
  }

  /** The search step that moves on. */
  lemma FindMatchSuffixMiss(s: string, d: nat, i: nat)
    requires d + i < |s| && MatchAt(s[d..], i).None?
    requires FindMatch(s, d + (i + 1)) == ShiftOption(FindMatch(s[d..], i + 1), d)
    ensures FindMatch(s, d + i) == ShiftOption(FindMatch(s[d..], i), d)
  {
    MatchAtSuffix(s, d, i);
    FindMatchUnfold(s, d + i);
    FindMatchUnfold(s[d..], i);
    assert d + i + 1 == d + (i + 1);
  }

  /** The same, for a text written as a concatenation. */
  lemma FindMatchShift(a: string, b: string, i: nat)
    requires i <= |b|
    ensures FindMatch(a + b, |a| + i) == ShiftOption(FindMatch(b, i), |a|)
  {
    assert (a + b)[|a|..] == b;
    FindMatchSuffix(a + b, |a|, i);
  }

  /** One step of the search. */
  lemma FindMatchUnfold(s: string, i: nat)
    requires i < |s|
    ensures FindMatch(s, i) == if MatchAt(s, i).Some? then MatchAt(s, i) else FindMatch(s, i + 1)
  {
  }

  // ---------------------------------------------------------------------------
  // Segments: the scan of `_print_job_extended`
  // ---------------------------------------------------------------------------

  /**
   * A piece of the job text: literal text, or a directive with its name and
   * the text between its parentheses, as the pattern's two groups hold them.
   */
  datatype Segment =
    | TextRun(content: string)
    | Invocation(name: string, argText: string)
  {
    /** The directive's argument list, as the scanner hands it to the interpreter. */
    function Args(): seq<string>
      requires Invocation?
    {
      SplitArgs(argText)
    }
  }

  /**
   * `[arg.strip() for arg in args_str.split(",")] if args_str else []`:
   * nothing for an empty argument text, otherwise one argument per comma
   * plus one, each the stripped piece of the text between two commas, so
   * without surrounding whitespace and without a comma.
   */
  function SplitArgs(argText: string): (args: seq<string>)
    ensures args == [] <==> argText == []
    ensures argText != [] ==> |args| == multiset(argText)[','] + 1
    ensures argText != [] ==>
              && |args| == |Split(argText, ',')|
              && forall k :: 0 <= k < |args| ==> args[k] == Strip(Split(argText, ',')[k])
    ensures forall k :: 0 <= k < |args| ==> Stripped(args[k]) && ',' !in args[k]
  {
    if argText == [] then []
    else
      var pieces := Split(argText, ',');
      seq(|pieces|, k requires 0 <= k < |pieces| => StripNoComma(pieces[k]))
  }

  /** Stripping a piece that holds no comma leaves no comma. */
  function StripNoComma(piece: string): (r: string)
    requires ',' !in piece
    ensures r == Strip(piece) && ',' !in r
  {
    StripKeepsOut(piece, ',');
    Strip(piece)
  }

  /** The segment for a literal run: none when the run is empty (`if pre_text:`). */
  function Literal(t: string): (r: seq<Segment>)
    ensures t == [] <==> r == []
  {
    if t == [] then [] else [TextRun(t)]
  }

  /**
   * The segments of `s[pos..]`, in order: the text before each match, then
   * the match, then whatever follows the last match; the scan resumes
   * after each match (`last_pos = match.end()`).
   */
  function ScanFrom(s: string, pos: nat): seq<Segment>
    requires pos <= |s|
    decreases |s| - pos
  {
    match FindMatch(s, pos)
    case None => Literal(s[pos..])
    case Some(m) => Literal(s[pos..m.start]) + [Invocation(m.name, m.argText)] + ScanFrom(s, m.end)
  }

  function Scan(s: string): seq<Segment> {
    ScanFrom(s, 0)
  }

  // ---------------------------------------------------------------------------
  // Total coverage
  // ---------------------------------------------------------------------------

  /** The source text of a segment. */
  function Span(seg: Segment): string {
    match seg
    case TextRun(t) => t
    case Invocation(name, a) => Directive(name, a)
  }

  /** The segments' source texts, concatenated in order. */
  function Render(segs: seq<Segment>): string {
    if segs == [] then [] else Span(segs[0]) + Render(segs[1..])
  }

  lemma {:induction false} RenderAppend(x: seq<Segment>, y: seq<Segment>)
    ensures Render(x + y) == Render(x) + Render(y)
  {
    if x != [] {
      assert (x + y)[1..] == x[1..] + y;
      RenderAppend(x[1..], y);
    } else {
      assert x + y == y;
    }
  }

  lemma RenderLiteral(t: string)
    ensures Render(Literal(t)) == t
  {
    if t != [] {
      assert [TextRun(t)][1..] == [];
    }
  }

  lemma RenderOne(seg: Segment)
    ensures Render([seg]) == Span(seg)
  {
    assert [seg][1..] == [];
  }

  /** The rendering of one step of the scan: the literal, the directive's text, then the rest. */
  lemma RenderStep(pre: string, inv: Segment, rest: seq<Segment>)
    ensures Render(Literal(pre) + [inv] + rest) == pre + Span(inv) + Render(rest)
  {
    RenderAppend(Literal(pre) + [inv], rest);
    RenderAppend(Literal(pre), [inv]);
    RenderLiteral(pre);
    RenderOne(inv);
  }

  /** The scan of `s[pos..]` covers it exactly: no gap, no overlap, nothing reordered. */
  lemma {:induction false} ScanFromCovers(s: string, pos: nat)
    requires pos <= |s|
    ensures Render(ScanFrom(s, pos)) == s[pos..]
    decreases |s| - pos
  {
    var r := FindMatch(s, pos);
    if r.None? {
      RenderLiteral(s[pos..]);
    } else {
      var m := r.value;
      var inv := Invocation(m.name, m.argText);
      ScanFromStep(s, pos, m);
      FindMatchFound(s, pos);
      MatchAtSound(s, m.start);
      assert Span(inv) == s[m.start..m.end];
      ScanFromCovers(s, m.end);
      RenderStep(s[pos..m.start], inv, ScanFrom(s, m.end));
      ThreeSlices(s, pos, m.start, m.end);
    }
  }

  /** Rendering the scan of a job text gives the job text back. */
  lemma ScanCovers(s: string)
    ensures Render(Scan(s)) == s
  {
    ScanFromCovers(s, 0);
  }

  // ---------------------------------------------------------------------------
  // Shape of the scan
  // ---------------------------------------------------------------------------

  /** A literal run is never empty and holds no directive; a directive has a valid name and argument text. */
  predicate WellFormedSegment(seg: Segment) {
    match seg
    case TextRun(t) => t != [] && FindMatch(t, 0).None?
    case Invocation(name, a) => ValidName(name) && ValidArgText(a)
  }

  /** Every segment well formed, and no two literal runs side by side. */
  predicate WellFormed(segs: seq<Segment>) {
    && (forall k :: 0 <= k < |segs| ==> WellFormedSegment(segs[k]))
    && (forall k :: 0 < k < |segs| && segs[k].TextRun? ==> segs[k - 1].Invocation?)
  }

  /** Text in which the engine finds no match at any position holds no directive on its own either. */
  lemma NoMatchInGap(s: string, lo: nat, hi: nat)
    requires lo <= hi <= |s|
    requires forall p :: lo <= p < hi ==> MatchAt(s, p).None?
    ensures FindMatch(s[lo..hi], 0).None?
  {
    var t := s[lo..hi];
    var r := FindMatch(t, 0);
    if r.Some? {
      FindMatchFound(t, 0);
      MatchAtSound(t, r.value.start);
      IsMatchInSlice(s, lo, hi, r.value);
      MatchAtComplete(s, Shift(r.value, lo));
      assert false;
    }
  }

  lemma WellFormedJoin(pre: seq<Segment>, inv: Segment, rest: seq<Segment>)
    requires |pre| <= 1 && WellFormed(pre)
    requires inv.Invocation? && WellFormedSegment(inv)
    requires WellFormed(rest)
    ensures WellFormed(pre + [inv] + rest)
  {
    var segs := pre + [inv] + rest;
    forall k | 0 <= k < |segs|
      ensures WellFormedSegment(segs[k])
      ensures 0 < k && segs[k].TextRun? ==> segs[k - 1].Invocation?
    {
      if k > |pre| {
        assert segs[k] == rest[k - |pre| - 1];
        if k > |pre| + 1 {
          assert segs[k - 1] == rest[k - |pre| - 2];
        }
      }
    }
  }

  lemma {:induction false} ScanFromWellFormed(s: string, pos: nat)
    requires pos <= |s|
    ensures WellFormed(ScanFrom(s, pos))
    decreases |s| - pos
  {
    FindMatchFirst(s, pos);
    FindMatchFound(s, pos);
    match FindMatch(s, pos)
    case None =>
      NoMatchInGap(s, pos, |s|);
      assert s[pos..|s|] == s[pos..];
    case Some(m) =>
      NoMatchInGap(s, pos, m.start);
      MatchAtSound(s, m.start);
      ScanFromWellFormed(s, m.end);
      WellFormedJoin(Literal(s[pos..m.start]), Invocation(m.name, m.argText), ScanFrom(s, m.end));
  }

  /** Every literal run of a scan is non-empty and directive-free, every directive is well formed, runs never touch. */
  lemma ScanWellFormed(s: string)
    ensures WellFormed(Scan(s))
  {
    ScanFromWellFormed(s, 0);
  }

  // ---------------------------------------------------------------------------
  // Scanning a concatenation
  // ---------------------------------------------------------------------------

  /** The scan of the end of a text does not depend on what precedes it. */
  lemma {:induction false} ScanFromSuffix(s: string, d: nat, i: nat)
    requires d + i <= |s|
    ensures ScanFrom(s, d + i) == ScanFrom(s[d..], i)
    decreases |s| - d - i
  {
    var r := FindMatch(s[d..], i);
    if r.None? {
      ScanSuffixLast(s, d, i);
    } else {
      ScanFromSuffix(s, d, r.value.end);
      ScanSuffixStep(s, d, i, r.value);
    }
  }

  /** The last run of literal text is the same in the text and in its suffix. */
  lemma ScanSuffixLast(s: string, d: nat, i: nat)
    requires d + i <= |s| && FindMatch(s[d..], i).None?
    ensures ScanFrom(s, d + i) == ScanFrom(s[d..], i)
  {
    var b := s[d..];
    FindMatchSuffix(s, d, i);
    ScanFromLast(s, d + i);
    ScanFromLast(b, i);
    assert s[d + i..] == b[i..];
  }

  /** A step of the scan is the same in the text and in its suffix, given that the rest is. */
  lemma ScanSuffixStep(s: string, d: nat, i: nat, m: Match)
    requires d + i <= |s| && FindMatch(s[d..], i) == Some(m)
    requires ScanFrom(s, d + m.end) == ScanFrom(s[d..], m.end)
    ensures ScanFrom(s, d + i) == ScanFrom(s[d..], i)
  {
    var b := s[d..];
    FindMatchSuffix(s, d, i);
    ScanShiftedStep(s, d, i, m);
    ScanFromStep(b, i, m);
    Glue(ScanFrom(s, d + i), Literal(b[i..m.start]), Invocation(m.name, m.argText),
         ScanFrom(s, d + m.end), ScanFrom(b, m.end));
  }

  /** One step of the scan of `s` from inside its suffix `s[d..]`, stated with the suffix's slice. */
  lemma ScanShiftedStep(s: string, d: nat, i: nat, m: Match)
    requires d + i <= |s|
    requires FindMatch(s, d + i) == Some(Shift(m, d))
    ensures d + m.end <= |s|
    ensures ScanFrom(s, d + i) ==
            Literal(s[d..][i..m.start]) + [Invocation(m.name, m.argText)] + ScanFrom(s, d + m.end)
  {
    assert s[d + i..d + m.start] == s[d..][i..m.start];
    ScanStepAt(s, d + i, d + m.start, d + m.end, m.name, m.argText, s[d..][i..m.start]);
  }

  /** The same, for a text written as a concatenation. */
  lemma ScanFromShift(a: string, b: string, i: nat)
    requires i <= |b|
    ensures ScanFrom(a + b, |a| + i) == ScanFrom(b, i)
  {
    assert (a + b)[|a|..] == b;
    ScanFromSuffix(a + b, |a|, i);
  }

  lemma ScanStepAt(s: string, pos: nat, start: nat, end: nat, name: string, argText: string, pre: string)
    requires pos <= |s|
    requires FindMatch(s, pos) == Some(Match(start, end, name, argText))
    requires pos <= start && s[pos..start] == pre
    ensures end <= |s|
    ensures ScanFrom(s, pos) == Literal(pre) + [Invocation(name, argText)] + ScanFrom(s, end)
  {
    ScanFromStep(s, pos, Match(start, end, name, argText));
  }

  /** A directive at the front of a text is scanned as one segment, then the rest alone. */
  lemma ScanDirectiveFirst(name: string, argText: string, rest: string)
    requires ValidName(name) && ValidArgText(argText)
    ensures Scan(Directive(name, argText) + rest) ==
            [Invocation(name, argText)] + Scan(rest)
  {
    var d := Directive(name, argText);
    var s := d + rest;
    var m := Match(0, |d|, name, argText);
    assert s[0..|d|] == d;
    MatchAtComplete(s, m);
    assert FindMatch(s, 0) == Some(m);
    ScanFromShift(d, rest, 0);
    assert s[0..0] == [];
  }

  /** Text without `$` holds no match. */
  lemma {:induction false} NoDollarNoMatch(s: string, i: nat)
    requires i <= |s|
    requires forall p :: i <= p < |s| ==> s[p] != '$'
    ensures FindMatch(s, i).None?
    decreases |s| - i
  {
    if i < |s| {
      NoDollarNoMatch(s, i + 1);
    }
  }

  /** Searching from the front of `t + b` skips over a `$`-free `t`. */
  lemma {:induction false} SkipDollarFree(t: string, b: string, i: nat)
    requires i <= |t|
    requires '$' !in t
    ensures FindMatch(t + b, i) == FindMatch(t + b, |t|)
    decreases |t| - i
  {
    if i < |t| {
      assert (t + b)[i] == t[i];
      SkipDollarFree(t, b, i + 1);
    }
  }

  /** One step of the scan: the literal before the next match, the match, and the scan after it. */
  lemma ScanFromStep(s: string, pos: nat, m: Match)
    requires pos <= |s|
    requires FindMatch(s, pos) == Some(m)
    ensures ScanFrom(s, pos) == Literal(s[pos..m.start]) + [Invocation(m.name, m.argText)] + ScanFrom(s, m.end)
  {
  }

  /** A directive at the front of a text is matched there. */
  lemma DirectiveMatchesFirst(name: string, argText: string, rest: string)
    requires ValidName(name) && ValidArgText(argText)
    ensures MatchAt(Directive(name, argText) + rest, 0) == Some(Match(0, |Directive(name, argText)|, name, argText))
  {
    var d := Directive(name, argText);
    assert (d + rest)[0..|d|] == d;
    MatchAtComplete(d + rest, Match(0, |d|, name, argText));
  }

  /**
   * A `$`-free literal at the front of a text is scanned as one run, when
   * what follows is nothing or starts with a directive.
   */
  lemma ScanLiteralFirst(t: string, rest: string)
    requires t != [] && '$' !in t
    requires rest == [] || MatchAt(rest, 0).Some?
    ensures Scan(t + rest) == [TextRun(t)] + Scan(rest)
  {
    if rest == [] {
      ScanLiteralAlone(t);
      assert t + rest == t;
      ScanFromLast(rest, 0);
    } else {
      ScanLiteralBeforeMatch(t, rest, MatchAt(rest, 0).value);
    }
  }

  lemma ScanLiteralAlone(t: string)
    requires t != [] && '$' !in t
    ensures Scan(t) == [TextRun(t)]
  {
    NoDollarNoMatch(t, 0);
    ScanFromLast(t, 0);
    assert t[0..] == t;
  }

  /** Searching from the front of a `$`-free literal finds the match that follows it. */
  lemma FindMatchAfterLiteral(t: string, rest: string, m: Match)
    requires '$' !in t
    requires rest != [] && MatchAt(rest, 0) == Some(m)
    ensures m.end <= |rest|
    ensures FindMatch(t + rest, 0) == Some(Match(|t|, |t| + m.end, m.name, m.argText))
  {
    FindMatchUnfold(rest, 0);
    SkipDollarFree(t, rest, 0);
    FindMatchShift(t, rest, 0);
    ShiftFront(m, |t|);
  }

  lemma ShiftFront(m: Match, d: nat)
    requires m.start == 0
    ensures ShiftOption(Some(m), d) == Some(Match(d, d + m.end, m.name, m.argText))
  {
  }

  lemma ScanLiteralBeforeMatch(t: string, rest: string, m: Match)
    requires t != [] && '$' !in t
    requires rest != [] && MatchAt(rest, 0) == Some(m)
    ensures Scan(t + rest) == [TextRun(t)] + Scan(rest)
  {
    var inv := Invocation(m.name, m.argText);
    var after := ScanFrom(rest, m.end);
    FindMatchAfterLiteral(t, rest, m);
    ScanAfterLiteral(t, rest, m);
    ScanAtMatch(rest, m);
    Prepend(Scan(t + rest), Scan(rest), [TextRun(t)], [inv], after);
  }

  lemma ScanAfterLiteral(t: string, rest: string, m: Match)
    requires t != [] && m.end <= |rest|
    requires FindMatch(t + rest, 0) == Some(Match(|t|, |t| + m.end, m.name, m.argText))
    ensures Scan(t + rest) == [TextRun(t)] + [Invocation(m.name, m.argText)] + ScanFrom(rest, m.end)
  {
    var inv := Invocation(m.name, m.argText);
    ScanLiteralStep(t, rest, |t| + m.end, m.name, m.argText);
    ScanFromShift(t, rest, m.end);
    Glue(Scan(t + rest), [TextRun(t)], inv, ScanFrom(t + rest, |t| + m.end), ScanFrom(rest, m.end));
  }

  /** The first step of the scan, when the text starts with a `$`-free literal followed by a match. */
  lemma ScanLiteralStep(t: string, rest: string, end: nat, name: string, argText: string)
    requires t != []
    requires FindMatch(t + rest, 0) == Some(Match(|t|, end, name, argText))
    ensures end <= |t + rest|
    ensures Scan(t + rest) == [TextRun(t)] + [Invocation(name, argText)] + ScanFrom(t + rest, end)
  {
    assert (t + rest)[0..|t|] == t;
    ScanStepAt(t + rest, 0, |t|, end, name, argText, t);
  }

  lemma ScanAtMatch(s: string, m: Match)
    requires MatchAt(s, 0) == Some(m)
    ensures m.end <= |s|
    ensures Scan(s) == [Invocation(m.name, m.argText)] + ScanFrom(s, m.end)
  {
    FindMatchUnfold(s, 0);
    ScanStepAt(s, 0, 0, m.end, m.name, m.argText, []);
  }

  /** The last step of the scan: the text after the last match. */
  lemma ScanFromLast(s: string, pos: nat)
    requires pos <= |s|
    requires FindMatch(s, pos).None?
    ensures ScanFrom(s, pos) == Literal(s[pos..])
  {
  }
}
