/**
 * The two print jobs: the extended job (`_print_job_extended`), which
 * scans the markup and interprets each directive, and the simple job
 * (`_print_job`), which prints lines at one size. Each opens its own
 * connection to the printer and returns the calls it sent.
 */
module Jobs {
  import opened Options
  import opened PyStr
  import opened Escpos
  import opened Markup
  import opened Commands
  import opened Seqs

  // ---------------------------------------------------------------------------
  // Interpreting segments
  // ---------------------------------------------------------------------------

  function OutcomeOps(o: Outcome): (r: seq<Op>)
    ensures o.Emitted? ==> r == [o.op]
    ensures !o.Emitted? <==> r == []
  {
    if o.Emitted? then [o.op] else []
  }

  function OutcomeWarnings(o: Outcome): (r: seq<Warning>)
    ensures o.Warned? ==> r == [o.warning]
    ensures !o.Warned? <==> r == []
  {
    if o.Warned? then [o.warning] else []
  }

  /** The outcome of a directive segment. */
  function SegmentOutcome(seg: Segment): Outcome
    requires seg.Invocation?
  {
    Command(seg.name, seg.Args())
  }

  /** The calls one segment sends: a literal run is sent as it is (`p.text(...)`). */
  function SegmentOps(seg: Segment): seq<Op> {
    match seg
    case TextRun(t) => [Text(t)]
    case Invocation(_, _) => OutcomeOps(SegmentOutcome(seg))
  }

  function SegmentWarnings(seg: Segment): seq<Warning> {
    match seg
    case TextRun(_) => []
    case Invocation(_, _) => OutcomeWarnings(SegmentOutcome(seg))
  }

  /** The calls a sequence of segments sends, segment after segment: at most one each. */
  function Interpret(segs: seq<Segment>): (r: seq<Op>)
    ensures |r| <= |segs|
  {
    if segs == [] then [] else SegmentOps(segs[0]) + Interpret(segs[1..])
  }

  /** The warnings a sequence of segments logs, segment after segment: at most one each, none for literal text. */
  function Diagnostics(segs: seq<Segment>): (r: seq<Warning>)
    ensures |r| <= |segs|
    ensures (forall k :: 0 <= k < |segs| ==> segs[k].TextRun?) ==> r == []
  {
    if segs == [] then [] else SegmentWarnings(segs[0]) + Diagnostics(segs[1..])
  }

  /**
   * Interpretation is segment by segment: the calls and warnings of two
   * runs of segments are those of the first followed by those of the second.
   */
  lemma InterpretAppend(x: seq<Segment>, y: seq<Segment>)
    ensures Interpret(x + y) == Interpret(x) + Interpret(y)
    ensures Diagnostics(x + y) == Diagnostics(x) + Diagnostics(y)
  {
    OpsAppend(x, y);
    WarningsAppend(x, y);
  }

  lemma {:induction false} OpsAppend(x: seq<Segment>, y: seq<Segment>)
    ensures Interpret(x + y) == Interpret(x) + Interpret(y)
  {
    if x == [] {
      assert x + y == y;
    } else {
      assert (x + y)[0] == x[0];
      assert (x + y)[1..] == x[1..] + y;
      OpsAppend(x[1..], y);
    }
  }

  lemma {:induction false} WarningsAppend(x: seq<Segment>, y: seq<Segment>)
    ensures Diagnostics(x + y) == Diagnostics(x) + Diagnostics(y)
  {
    if x == [] {
      assert x + y == y;
    } else {
      assert (x + y)[0] == x[0];
      assert (x + y)[1..] == x[1..] + y;
      WarningsAppend(x[1..], y);
    }
  }

  lemma InterpretOne(seg: Segment)
    ensures Interpret([seg]) == SegmentOps(seg)
    ensures Diagnostics([seg]) == SegmentWarnings(seg)
  {
    assert [seg][1..] == [];
  }

  /**
   * A directive that fails or is unknown costs only itself: the segments
   * around it are interpreted as if it were not there, and its warning is
   * logged in its place.
   */
  lemma DirectiveDropped(x: seq<Segment>, inv: Segment, y: seq<Segment>)
    requires inv.Invocation? && !SegmentOutcome(inv).Emitted?
    ensures Interpret(x + [inv] + y) == Interpret(x) + Interpret(y)
    ensures Diagnostics(x + [inv] + y) == Diagnostics(x) + OutcomeWarnings(SegmentOutcome(inv)) + Diagnostics(y)
  {
    InterpretAppend(x + [inv], y);
    InterpretAppend(x, [inv]);
    InterpretOne(inv);
    var w := OutcomeWarnings(SegmentOutcome(inv));
    assert Interpret([inv]) == [] && Diagnostics([inv]) == w;
    calc {
      Interpret(x + [inv] + y);
      Interpret(x + [inv]) + Interpret(y);
      Interpret(x) + [] + Interpret(y);
      { assert Interpret(x) + [] == Interpret(x); }
      Interpret(x) + Interpret(y);
    }
    calc {
      Diagnostics(x + [inv] + y);
      Diagnostics(x + [inv]) + Diagnostics(y);
      Diagnostics(x) + w + Diagnostics(y);
    }
  }

  /** The calls the extended job sends for a job text. */
  function JobOps(text: string): seq<Op> {
    Interpret(Scan(text))
  }

  /** The warnings the extended job logs for a job text. */
  function JobWarnings(text: string): seq<Warning> {
    Diagnostics(Scan(text))
  }

  // ---------------------------------------------------------------------------
  // The extended job
  // ---------------------------------------------------------------------------

  /** `_execute_command(p, cmd, args)`: sends the command's call, if any, and returns its warning. */
  method ExecuteCommand(p: Printer, name: string, args: seq<string>) returns (warning: Option<Warning>)
    requires p.open
    modifies p
    ensures p.open
    ensures p.ops == old(p.ops) + OutcomeOps(Command(name, args))
    ensures ToSeq(warning) == OutcomeWarnings(Command(name, args))
  {
    var outcome := Command(name, args);
    match outcome
    case Emitted(op) =>
      p.Apply(op);
      warning := None;
    case Skipped =>
      warning := None;
    case Warned(w) =>
      warning := Some(w);
  }

  /** The call a literal run sends: none when it is empty (`if pre_text:`). */
  function LiteralOps(t: string): (r: seq<Op>)
    ensures t == [] <==> r == []
  {
    if t == [] then [] else [Text(t)]
  }

  /** The calls and warnings of one step of the scan: the literal before the match, then the directive. */
  lemma InterpretStep(s: string, pos: nat, m: Match)
    requires pos <= |s|
    requires FindMatch(s, pos) == Some(m)
    ensures Interpret(ScanFrom(s, pos)) ==
            LiteralOps(s[pos..m.start]) + OutcomeOps(Command(m.name, SplitArgs(m.argText))) + Interpret(ScanFrom(s, m.end))
    ensures Diagnostics(ScanFrom(s, pos)) ==
            OutcomeWarnings(Command(m.name, SplitArgs(m.argText))) + Diagnostics(ScanFrom(s, m.end))
  {
    var pre := Literal(s[pos..m.start]);
    var seg := Invocation(m.name, m.argText);
    var rest := ScanFrom(s, m.end);
    ScanFromStep(s, pos, m);
    InterpretAppend(pre + [seg], rest);
    InterpretAppend(pre, [seg]);
    InterpretOne(seg);
    if pre != [] {
      InterpretOne(pre[0]);
      assert Interpret(pre) == LiteralOps(s[pos..m.start]);
      assert Diagnostics(pre) == [];
    }
    assert Diagnostics(pre) + SegmentWarnings(seg) == SegmentWarnings(seg);
  }

  /** The calls and warnings of the last step of the scan: the text after the last match. */
  lemma InterpretLast(s: string, pos: nat)
    requires pos <= |s|
    requires FindMatch(s, pos).None?
    ensures Interpret(ScanFrom(s, pos)) == LiteralOps(s[pos..])
    ensures Diagnostics(ScanFrom(s, pos)) == []
  {
    if s[pos..] != [] {
      InterpretOne(TextRun(s[pos..]));
    }
  }

  /** What is left to send and log after one turn of the scanner loop. */
  lemma LoopStep(text: string, lastPos: nat, m: Match, sent: seq<Op>, warned: seq<Warning>)
    requires lastPos <= |text|
    requires FindMatch(text, lastPos) == Some(m)
    requires sent + Interpret(ScanFrom(text, lastPos)) == JobOps(text)
    requires warned + Diagnostics(ScanFrom(text, lastPos)) == JobWarnings(text)
    ensures sent + LiteralOps(text[lastPos..m.start]) + OutcomeOps(Command(m.name, SplitArgs(m.argText)))
            + Interpret(ScanFrom(text, m.end)) == JobOps(text)
    ensures warned + OutcomeWarnings(Command(m.name, SplitArgs(m.argText)))
            + Diagnostics(ScanFrom(text, m.end)) == JobWarnings(text)
  {
    InterpretStep(text, lastPos, m);
    var outcome := Command(m.name, SplitArgs(m.argText));
    Regroup(sent, LiteralOps(text[lastPos..m.start]), OutcomeOps(outcome), Interpret(ScanFrom(text, m.end)));
    Regroup(warned, [], OutcomeWarnings(outcome), Diagnostics(ScanFrom(text, m.end)));
  }

  /** One turn of the scanner loop: the non-empty text before the match, then the directive. */
  method SendMatch(p: Printer, text: string, lastPos: nat, m: Match) returns (warning: Option<Warning>)
    requires p.open
    requires lastPos <= m.start <= |text|
    modifies p
    ensures p.open
    ensures p.ops == old(p.ops) + LiteralOps(text[lastPos..m.start]) + OutcomeOps(Command(m.name, SplitArgs(m.argText)))
    ensures ToSeq(warning) == OutcomeWarnings(Command(m.name, SplitArgs(m.argText)))
  {
    var preText := text[lastPos..m.start];
    if preText != [] {
      p.Apply(Text(preText));
    }
    var args := SplitArgs(m.argText);
    warning := ExecuteCommand(p, m.name, args);
  }

  /**
   * `_print_job_extended(host, port, text)`: walks the matches left to
   * right, sending the non-empty text before each, then the directive's
   * call; then the non-empty text after the last match; then closes.
   */
  method PrintJobExtended(host: string, port: int, text: string) returns (sent: seq<Op>, warnings: seq<Warning>)
    ensures sent == JobOps(text)
    ensures warnings == JobWarnings(text)
  {
    var p := new Printer(host, port);
    warnings := [];
    var lastPos := 0;
    var next := FindMatch(text, lastPos);
    while next.Some?
      invariant lastPos <= |text|
      invariant next == FindMatch(text, lastPos)
      invariant p.open
      invariant p.ops + Interpret(ScanFrom(text, lastPos)) == JobOps(text)
      invariant warnings + Diagnostics(ScanFrom(text, lastPos)) == JobWarnings(text)
      decreases |text| - lastPos
    {
      var m := next.value;
      ghost var sentBefore, warnedBefore := p.ops, warnings;
      var w := SendMatch(p, text, lastPos, m);
      warnings := warnings + ToSeq(w);
      LoopStep(text, lastPos, m, sentBefore, warnedBefore);
      lastPos := m.end;
      next := FindMatch(text, lastPos);
    }
    InterpretLast(text, lastPos);
    var remaining := text[lastPos..];
    if remaining != [] {
      p.Apply(Text(remaining));
    }
    assert p.ops == JobOps(text);
    assert warnings + [] == warnings;
    p.Close();
    sent := p.ops;
  }

  // ---------------------------------------------------------------------------
  // The simple job
  // ---------------------------------------------------------------------------

  /** One text call per line, in order, each line ending in a newline. */
  function LineTexts(lines: seq<string>): (r: seq<Op>)
    ensures |r| == |lines|
    ensures forall k :: 0 <= k < |lines| ==> r[k] == Text(lines[k] + "\n")
  {
    seq(|lines|, k requires 0 <= k < |lines| => Text(lines[k] + "\n"))
  }

  /**
   * The calls of the simple job: the size, each line in order with its
   * newline, the feed only when lines are asked for, the cut only when
   * asked for.
   */
  function SimpleJob(lines: seq<string>, size: int, cut: bool, feedLines: int): (r: seq<Op>)
    ensures |r| == 1 + |lines| + (if feedLines > 0 then 1 else 0) + (if cut then 1 else 0)
    ensures r[0] == SetSize(size, size)
    ensures forall k :: 0 <= k < |lines| ==> r[1 + k] == Text(lines[k] + "\n")
    ensures feedLines > 0 ==> r[1 + |lines|] == Text(NewLines(feedLines)) && |NewLines(feedLines)| == feedLines
    ensures cut <==> r[|r| - 1] == Cut
  {
    [SetSize(size, size)] + LineTexts(lines)
    + (if feedLines > 0 then [Text(NewLines(feedLines))] else [])
    + (if cut then [Cut] else [])
  }

  /** `_print_job(host, port, text, size, cut, feed_lines)`. */
  method PrintJob(host: string, port: int, lines: seq<string>, size: int, cut: bool, feedLines: int)
    returns (sent: seq<Op>)
    ensures sent == SimpleJob(lines, size, cut, feedLines)
  {
    var p := new Printer(host, port);
    p.Apply(SetSize(size, size));
    for i := 0 to |lines|
      invariant p.open
      invariant p.ops == [SetSize(size, size)] + LineTexts(lines[..i])
    {
      p.Apply(Text(lines[i] + "\n"));
      assert LineTexts(lines[..i + 1]) == LineTexts(lines[..i]) + [Text(lines[i] + "\n")];
    }
    assert lines[..|lines|] == lines;
    if feedLines > 0 {
      p.Apply(Text(NewLines(feedLines)));
    }
    if cut {
      p.Apply(Cut);
    }
    p.Close();
    sent := p.ops;
  }

  // ---------------------------------------------------------------------------
  // Writing calls as markup
  // ---------------------------------------------------------------------------

  /** An argument the scanner hands back unchanged: no comma, no `)`, no newline, no surrounding whitespace. */
  predicate PlainArg(x: string) {
    Stripped(x) && ',' !in x && ')' !in x && '\n' !in x
  }

  predicate AllPlain(args: seq<string>) {
    forall k :: 0 <= k < |args| ==> PlainArg(args[k])
  }

  /** The calls markup can ask for: text without `$`, and every other call whose text arguments are plain. */
  predicate Writable(op: Op) {
    match op
    case Text(t) => t != [] && '$' !in t
    case SetAlign(a) => a in Alignments
    case Barcode(data, kind, _, _) => PlainArg(data) && PlainArg(kind)
    case Qr(data, _) => PlainArg(data)
    case _ => true
  }

  /** The command name that asks for a call other than text. */
  function CommandName(op: Op): string
    requires !op.Text?
  {
    match op
    case SetSize(_, _) => "SIZE"
    case SetAlign(_) => "ALIGN"
    case SetBold(_) => "BOLD"
    case SetInvert(_) => "INVERT"
    case Cut => "CUT"
    case Barcode(_, _, _, _) => "BARCODE"
    case Qr(_, _) => "QR"
  }

  function BoolText(b: bool): string {
    if b then "true" else "false"
  }

  /** The argument list that asks for a call other than text. */
  function CommandArgs(op: Op): seq<string>
    requires !op.Text?
  {
    match op
    case SetSize(w, h) => [IntToString(w), IntToString(h)]
    case SetAlign(a) => [a]
    case SetBold(b) => [BoolText(b)]
    case SetInvert(b) => [BoolText(b)]
    case Cut => []
    case Barcode(data, kind, w, h) => [data, kind, IntToString(w), IntToString(h)]
    case Qr(data, size) => [data, IntToString(size)]
  }

  /** The text between the parentheses of a directive: the arguments joined with commas. */
  function ArgText(args: seq<string>): string {
    if args == [] then [] else Join(args, ',')
  }

  /** The markup for one call: the text itself, or `$NAME(arg,...)`. */
  function Spell(op: Op): string {
    if op.Text? then op.text else Directive(CommandName(op), ArgText(CommandArgs(op)))
  }

  function SpellAll(ops: seq<Op>): string {
    if ops == [] then [] else Spell(ops[0]) + SpellAll(ops[1..])
  }

  /** Markup for a sequence of calls: every call writable, no two text calls side by side (they would merge). */
  predicate WritableAll(ops: seq<Op>) {
    && (forall k :: 0 <= k < |ops| ==> Writable(ops[k]))
    && (forall k :: 0 < k < |ops| && ops[k].Text? ==> !ops[k - 1].Text?)
  }

  /** Plain arguments joined with commas split back into themselves. */
  lemma {:induction false} SplitJoined(args: seq<string>)
    requires |args| > 0
    requires forall k :: 0 <= k < |args| ==> Stripped(args[k]) && ',' !in args[k]
    ensures Split(Join(args, ','), ',') == args
  {
    if |args| == 1 {
      SplitNoSeparator(args[0], ',');
    } else {
      SplitJoined(args[1..]);
      SplitJoinedStep(args);
    }
  }

  lemma SplitJoinedStep(args: seq<string>)
    requires |args| > 1 && ',' !in args[0]
    requires Split(Join(args[1..], ','), ',') == args[1..]
    ensures Split(Join(args, ','), ',') == args
  {
    SplitAtSeparator(args[0], ',', Join(args[1..], ','));
    assert [args[0]] + args[1..] == args;
  }

  /** Arguments that are already stripped are left alone by `strip()`. */
  lemma StrippedUnchanged(args: seq<string>)
    requires forall k :: 0 <= k < |args| ==> Stripped(args[k])
    ensures forall k :: 0 <= k < |args| ==> Strip(args[k]) == args[k]
  {
    forall k | 0 <= k < |args|
      ensures Strip(args[k]) == args[k]
    {
      assert Stripped(args[k]);
    }
  }

  lemma {:induction false} JoinValidArgText(args: seq<string>)
    requires |args| > 0
    requires forall k :: 0 <= k < |args| ==> ')' !in args[k] && '\n' !in args[k]
    ensures ValidArgText(Join(args, ','))
  {
    if |args| > 1 {
      JoinValidArgText(args[1..]);
      var j := Join(args, ',');
      var a0 := args[0];
      forall q | 0 <= q < |j|
        ensures j[q] != ')' && j[q] != '\n'
      {
        if q < |a0| {
          assert j[q] == a0[q];
        } else if q > |a0| {
          assert j[q] == Join(args[1..], ',')[q - |a0| - 1];
        }
      }
    }
  }

  lemma IntArgPlain(n: int)
    ensures PlainArg(IntToString(n))
    ensures ParseInt(IntToString(n)) == Some(n)
  {
    ParseIntToString(n);
    IntTextHasNoDelimiter(n);
  }

  /** The text of an integer holds no comma, no `)` and no newline. */
  lemma IntTextHasNoDelimiter(n: int)
    ensures ',' !in IntToString(n) && ')' !in IntToString(n) && '\n' !in IntToString(n)
  {
    IntToStringIsPlain(n);
  }

  /**
   * Plain arguments joined with commas are a valid argument text that the
   * scanner splits back into them; the one list it cannot give back is a
   * single empty argument, since `$NAME()` has no arguments at all.
   */
  lemma SpellArgs(args: seq<string>)
    requires AllPlain(args)
    requires args != [[]]
    ensures ValidArgText(ArgText(args))
    ensures SplitArgs(ArgText(args)) == args
  {
    if args != [] {
      JoinValidArgText(args);
      JoinNonEmpty(args);
      SplitArgsJoined(args);
    }
  }

  lemma JoinNonEmpty(args: seq<string>)
    requires args != [] && args != [[]]
    ensures Join(args, ',') != []
  {
    if |args| == 1 {
      assert args == [args[0]];
    } else {
      assert Join(args, ',')[|args[0]|] == ',';
    }
  }

  lemma SplitArgsJoined(args: seq<string>)
    requires args != []
    requires AllPlain(args)
    requires Join(args, ',') != []
    ensures SplitArgs(Join(args, ',')) == args
  {
    SplitJoined(args);
    StrippedUnchanged(args);
    var r := SplitArgs(Join(args, ','));
    assert |r| == |args|;
    forall k | 0 <= k < |args|
      ensures r[k] == args[k]
    {
    }
  }

  lemma SpellSize(w: int, h: int)
    ensures Command("SIZE", [IntToString(w), IntToString(h)]) == Emitted(SetSize(w, h))
  {
    var args := [IntToString(w), IntToString(h)];
    IntArgPlain(w);
    IntArgPlain(h);
    assert ParseInt(args[0]) == Some(w) && ParseInt(args[1]) == Some(h);
    SizeRule(args);
  }

  lemma SpellBarcode(data: string, kind: string, w: int, h: int)
    ensures Command("BARCODE", [data, kind, IntToString(w), IntToString(h)]) == Emitted(Barcode(data, kind, w, h))
  {
    var args := [data, kind, IntToString(w), IntToString(h)];
    IntArgPlain(w);
    IntArgPlain(h);
    assert ParseInt(args[2]) == Some(w) && ParseInt(args[3]) == Some(h);
    BarcodeRule(args);
  }

  lemma SpellQr(data: string, size: int)
    ensures Command("QR", [data, IntToString(size)]) == Emitted(Qr(data, size))
  {
    IntArgPlain(size);
  }

  lemma SpellFlags(b: bool)
    ensures Command("BOLD", [BoolText(b)]) == Emitted(SetBold(b))
    ensures Command("INVERT", [BoolText(b)]) == Emitted(SetInvert(b))
  {
    assert Lower("true") == "true";
    assert Lower("false") == "false";
  }

  /** Asking for the spelled arguments of a call sends that call. */
  lemma SpellCommandSends(op: Op)
    requires Writable(op) && !op.Text?
    ensures Command(CommandName(op), CommandArgs(op)) == Emitted(op)
  {
    match op {
      case SetSize(w, h) => SpellSize(w, h);
      case SetAlign(a) =>
        assert Lower(a) == a;
        AlignRule([a]);
      case SetBold(b) => SpellFlags(b);
      case SetInvert(b) => SpellFlags(b);
      case Cut => CutRule([]);
      case Barcode(data, kind, w, h) => SpellBarcode(data, kind, w, h);
      case Qr(data, size) => SpellQr(data, size);
    }
  }

  /** The spelled arguments of a writable call are plain, and not a single empty one. */
  lemma SpellCommandPlain(op: Op)
    requires Writable(op) && !op.Text?
    ensures AllPlain(CommandArgs(op))
    ensures CommandArgs(op) != [[]]
  {
    match op {
      case SetSize(w, h) =>
        IntArgPlain(w); IntArgPlain(h);
        PlainDisplay([IntToString(w), IntToString(h)]);
      case SetAlign(a) =>
        AlignmentPlain(a);
        PlainDisplay([a]);
      case SetBold(b) =>
        BoolPlain(b);
        PlainDisplay([BoolText(b)]);
      case SetInvert(b) =>
        BoolPlain(b);
        PlainDisplay([BoolText(b)]);
      case Cut =>
      case Barcode(data, kind, w, h) =>
        IntArgPlain(w); IntArgPlain(h);
        PlainDisplay([data, kind, IntToString(w), IntToString(h)]);
      case Qr(data, size) =>
        IntArgPlain(size);
        PlainDisplay([data, IntToString(size)]);
    }
  }

  lemma PlainDisplay(args: seq<string>)
    requires |args| <= 4
    requires |args| > 0 ==> PlainArg(args[0])
    requires |args| > 1 ==> PlainArg(args[1])
    requires |args| > 2 ==> PlainArg(args[2])
    requires |args| > 3 ==> PlainArg(args[3])
    ensures AllPlain(args)
  {
  }

  lemma AlignmentPlain(a: string)
    requires a in Alignments
    ensures PlainArg(a) && a != []
  {
  }

  lemma BoolPlain(b: bool)
    ensures PlainArg(BoolText(b)) && BoolText(b) != []
  {
  }

  lemma CommandNameValid(op: Op)
    requires !op.Text?
    ensures ValidName(CommandName(op))
  {
    var n := CommandName(op);
    assert forall k :: 0 <= k < |n| ==> IsNameChar(n[k]);
  }

  /** The arguments spelled for a call are scanned back unchanged, and asking for them sends that call. */
  lemma SpellCommand(op: Op)
    requires Writable(op) && !op.Text?
    ensures ValidName(CommandName(op))
    ensures ValidArgText(ArgText(CommandArgs(op)))
    ensures SplitArgs(ArgText(CommandArgs(op))) == CommandArgs(op)
    ensures Command(CommandName(op), CommandArgs(op)) == Emitted(op)
  {
    SpellCommandPlain(op);
    SpellArgs(CommandArgs(op));
    SpellCommandSends(op);
    CommandNameValid(op);
  }

  /** A directive at the front of a text is interpreted on its own, before the rest. */
  lemma InterpretDirective(name: string, argText: string, rest: string)
    requires ValidName(name) && ValidArgText(argText)
    ensures Interpret(Scan(Directive(name, argText) + rest)) ==
            OutcomeOps(Command(name, SplitArgs(argText))) + Interpret(Scan(rest))
    ensures Diagnostics(Scan(Directive(name, argText) + rest)) ==
            OutcomeWarnings(Command(name, SplitArgs(argText))) + Diagnostics(Scan(rest))
  {
    var seg := Invocation(name, argText);
    ScanDirectiveFirst(name, argText, rest);
    InterpretAppend([seg], Scan(rest));
    InterpretOne(seg);
  }

  /** The markup for a call other than text is interpreted as that call, without a warning. */
  lemma InterpretSpelledCommand(op: Op, rest: string)
    requires Writable(op) && !op.Text?
    ensures Interpret(Scan(Spell(op) + rest)) == [op] + Interpret(Scan(rest))
    ensures Diagnostics(Scan(Spell(op) + rest)) == Diagnostics(Scan(rest))
  {
    SpellCommand(op);
    InterpretDirective(CommandName(op), ArgText(CommandArgs(op)), rest);
  }

  /** Literal text followed by nothing or by a directive is sent as one text call. */
  lemma InterpretSpelledText(t: string, rest: string)
    requires t != [] && '$' !in t
    requires rest == [] || MatchAt(rest, 0).Some?
    ensures Interpret(Scan(t + rest)) == [Text(t)] + Interpret(Scan(rest))
    ensures Diagnostics(Scan(t + rest)) == Diagnostics(Scan(rest))
  {
    ScanLiteralFirst(t, rest);
    InterpretAppend([TextRun(t)], Scan(rest));
    InterpretOne(TextRun(t));
  }

  /** The markup for a non-empty call sequence that starts with a call other than text starts with a match. */
  lemma SpellAllStartsWithMatch(ops: seq<Op>)
    requires ops != [] && Writable(ops[0]) && !ops[0].Text?
    ensures MatchAt(SpellAll(ops), 0).Some?
  {
    var op := ops[0];
    SpellCommand(op);
    DirectiveMatchesFirst(CommandName(op), ArgText(CommandArgs(op)), SpellAll(ops[1..]));
  }

  /** Scanning and interpreting the markup for a call sequence sends exactly that sequence and logs nothing. */
  lemma {:induction false} SpellRoundTrip(ops: seq<Op>)
    requires WritableAll(ops)
    ensures JobOps(SpellAll(ops)) == ops
    ensures JobWarnings(SpellAll(ops)) == []
  {
    if ops == [] {
      assert Scan([]) == [];
    } else {
      WritableAllTail(ops);
      SpellRoundTrip(ops[1..]);
      SpellStep(ops);
      assert ops == [ops[0]] + ops[1..];
    }
  }

  /** The markup for the first call is interpreted as that call, before the markup for the others. */
  lemma SpellStep(ops: seq<Op>)
    requires ops != [] && WritableAll(ops)
    ensures JobOps(SpellAll(ops)) == [ops[0]] + JobOps(SpellAll(ops[1..]))
    ensures JobWarnings(SpellAll(ops)) == JobWarnings(SpellAll(ops[1..]))
  {
    var op, tail := ops[0], ops[1..];
    var rest := SpellAll(tail);
    WritableAllTail(ops);
    assert SpellAll(ops) == Spell(op) + rest;
    if op.Text? {
      if tail != [] {
        SpellAllStartsWithMatch(tail);
      }
      InterpretSpelledText(op.text, rest);
    } else {
      InterpretSpelledCommand(op, rest);
    }
  }

  lemma WritableAllTail(ops: seq<Op>)
    requires ops != [] && WritableAll(ops)
    ensures Writable(ops[0]) && WritableAll(ops[1..])
    ensures |ops| > 1 ==> ops[1..][0] == ops[1] && Writable(ops[1])
    ensures ops[0].Text? && |ops| > 1 ==> !ops[1].Text?
  {
    var tail := ops[1..];
    assert forall k :: 0 <= k < |tail| ==> tail[k] == ops[k + 1];
  }

  // ---------------------------------------------------------------------------
  // Examples
  // ---------------------------------------------------------------------------

  /** The empty job sends nothing and logs nothing. */
  lemma EmptyJob()
    ensures Scan("") == [] && JobOps("") == [] && JobWarnings("") == []
  {
  }

  /** A directive between two literal runs is scanned as three segments. */
  lemma ScanLiteralDirectiveLiteral(t1: string, name: string, argText: string, t2: string)
    requires t1 != [] && '$' !in t1 && t2 != [] && '$' !in t2
    requires ValidName(name) && ValidArgText(argText)
    ensures Scan(t1 + Directive(name, argText) + t2) == [TextRun(t1), Invocation(name, argText), TextRun(t2)]
  {
    var d := Directive(name, argText);
    assert t1 + d + t2 == t1 + (d + t2);
    DirectiveMatchesFirst(name, argText, t2);
    ScanLiteralFirst(t1, d + t2);
    ScanDirectiveFirst(name, argText, t2);
    assert t2 + "" == t2;
    ScanLiteralFirst(t2, "");
    assert Scan("") == [];
  }

  /** A directive between two literal runs: the first literal, the directive's call if any, the second literal. */
  lemma InterpretLiteralDirectiveLiteral(t1: string, name: string, argText: string, t2: string)
    requires t1 != [] && '$' !in t1 && t2 != [] && '$' !in t2
    requires ValidName(name) && ValidArgText(argText)
    ensures JobOps(t1 + Directive(name, argText) + t2) ==
            [Text(t1)] + OutcomeOps(Command(name, SplitArgs(argText))) + [Text(t2)]
    ensures JobWarnings(t1 + Directive(name, argText) + t2) == OutcomeWarnings(Command(name, SplitArgs(argText)))
  {
    ScanLiteralDirectiveLiteral(t1, name, argText, t2);
    InterpretThree(TextRun(t1), Invocation(name, argText), TextRun(t2));
  }

  lemma InterpretThree(a: Segment, b: Segment, c: Segment)
    ensures Interpret([a, b, c]) == SegmentOps(a) + SegmentOps(b) + SegmentOps(c)
    ensures Diagnostics([a, b, c]) == SegmentWarnings(a) + SegmentWarnings(b) + SegmentWarnings(c)
  {
    assert [a, b, c] == [a] + [b, c];
    InterpretCons(a, [b, c]);
    assert [b, c] == [b] + [c];
    InterpretCons(b, [c]);
    InterpretOne(c);
    Assoc(SegmentOps(a), SegmentOps(b), SegmentOps(c));
    Assoc(SegmentWarnings(a), SegmentWarnings(b), SegmentWarnings(c));
  }

  lemma InterpretCons(seg: Segment, rest: seq<Segment>)
    ensures Interpret([seg] + rest) == SegmentOps(seg) + Interpret(rest)
    ensures Diagnostics([seg] + rest) == SegmentWarnings(seg) + Diagnostics(rest)
  {
    assert ([seg] + rest)[0] == seg;
    assert ([seg] + rest)[1..] == rest;
  }

  /** An unknown directive between two literals: both literals are sent, the directive only logs. */
  lemma UnknownCommandExample()
    ensures Scan("A$FOO(1)B") == [TextRun("A"), Invocation("FOO", "1"), TextRun("B")]
    ensures JobOps("A$FOO(1)B") == [Text("A"), Text("B")]
    ensures JobWarnings("A$FOO(1)B") == [UnknownCommand("FOO")]
  {
    var s := "A" + Directive("FOO", "1") + "B";
    assert s == "A$FOO(1)B";
    assert ValidName("FOO") && ValidArgText("1");
    ScanLiteralDirectiveLiteral("A", "FOO", "1", "B");
    InterpretLiteralDirectiveLiteral("A", "FOO", "1", "B");
    var o := Command("FOO", SplitArgs("1"));
    assert "FOO" !in KnownCommands;
    assert o == Warned(UnknownCommand("FOO"));
    assert OutcomeOps(o) == [];
    assert [Text("A")] + [] + [Text("B")] == [Text("A"), Text("B")];
  }

  /** Literal text and directives, sent in the order they are written. */
  lemma MixedExample()
    ensures JobOps("Hello $BOLD(true)World$CUT()") == [Text("Hello "), SetBold(true), Text("World"), Cut]
    ensures JobWarnings("Hello $BOLD(true)World$CUT()") == []
  {
    MixedMarkup();
    MixedWritable();
    SpellRoundTrip([Text("Hello "), SetBold(true), Text("World"), Cut]);
  }

  lemma MixedMarkup()
    ensures SpellAll([Text("Hello "), SetBold(true), Text("World"), Cut]) == "Hello $BOLD(true)World$CUT()"
  {
    SpellFour(Text("Hello "), SetBold(true), Text("World"), Cut);
    SpellBoldOn();
    SpellCut();
    MixedText();
  }

  lemma MixedText()
    ensures "Hello " + "$BOLD(true)" + "World" + "$CUT()" == "Hello $BOLD(true)World$CUT()"
  {
    assert "Hello " + "$BOLD(true)" == "Hello $BOLD(true)";
    assert "Hello $BOLD(true)" + "World" == "Hello $BOLD(true)World";
  }

  lemma SpellFour(a: Op, b: Op, c: Op, d: Op)
    ensures SpellAll([a, b, c, d]) == Spell(a) + Spell(b) + Spell(c) + Spell(d)
  {
    assert [a, b, c, d][1..] == [b, c, d];
    assert [b, c, d][1..] == [c, d];
    assert [c, d][1..] == [d];
    SpellAllUnfold([a, b, c, d]);
    SpellAllUnfold([b, c, d]);
    SpellAllUnfold([c, d]);
    SpellAllUnfold([d]);
    Nest4(Spell(a), Spell(b), Spell(c), Spell(d));
  }

  lemma SpellAllUnfold(ops: seq<Op>)
    requires ops != []
    ensures SpellAll(ops) == Spell(ops[0]) + SpellAll(ops[1..])
  {
  }

  lemma SpellBoldOn()
    ensures Spell(SetBold(true)) == "$BOLD(true)"
  {
  }

  lemma SpellCut()
    ensures Spell(Cut) == "$CUT()"
  {
  }

  lemma MixedWritable()
    ensures WritableAll([Text("Hello "), SetBold(true), Text("World"), Cut])
  {
  }

  lemma OneArgument(x: string)
    requires x != [] && PlainArg(x)
    ensures SplitArgs(x) == [x]
  {
    assert Join([x], ',') == x;
    SplitArgsJoined([x]);
  }

  lemma ShortBarcodeSkipped()
    ensures Command("BARCODE", SplitArgs("123")) == Skipped
  {
    assert PlainArg("123");
    OneArgument("123");
    BarcodeRule(["123"]);
  }

  /** A barcode without its type sends nothing, and the source logs nothing for it either. */
  lemma ShortBarcodeExample()
    ensures JobOps("$BARCODE(123)") == []
    ensures JobWarnings("$BARCODE(123)") == []
  {
    var d := Directive("BARCODE", "123");
    assert d + "" == "$BARCODE(123)";
    assert ValidName("BARCODE") && ValidArgText("123");
    InterpretDirective("BARCODE", "123", "");
    ShortBarcodeSkipped();
    assert Scan("") == [];
  }
}
