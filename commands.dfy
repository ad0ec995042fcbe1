/**
 * The command interpreter of the extended print job (`_execute_command`):
 * a directive's name and argument list become at most one printer call,
 * with defaults for missing arguments, or a logged warning.
 */
module Commands {
  import opened Options
  import opened PyStr
  import opened Escpos

  /**
   * A warning the interpreter logs: `Unknown command: NAME`, or
   * `Failed to execute command NAME(ARGS): ...` when an `int()` raises.
   */
  datatype Warning =
    | UnknownCommand(name: string)
    | CommandFailed(name: string, args: seq<string>)

  /** What one directive does: send one call, send nothing, or log a warning and send nothing. */
  datatype Outcome =
    | Emitted(op: Op)
    | Skipped
    | Warned(warning: Warning)

  /** The values `ALIGN` accepts, once lower-cased. */
  const Alignments: seq<string> := ["left", "center", "right"]

  /** The command names the interpreter knows. */
  const KnownCommands: seq<string> :=
    ["SIZE", "ALIGN", "BOLD", "INVERT", "FEED", "CUT", "BARCODE", "QR"]

  /** The commands that convert an argument with `int()`. */
  const NumericCommands: seq<string> := ["SIZE", "FEED", "BARCODE", "QR"]

  /**
   * `n` fits a `Py_ssize_t` on a 64-bit platform. Repeating a string `n`
   * times (`"\n" * n`) raises `OverflowError` for any other integer.
   */
  predicate FitsIndex(n: int) {
    -0x8000_0000_0000_0000 <= n < 0x8000_0000_0000_0000
  }

  /** `name` is the command that sends calls of the kind of `op`. */
  predicate Sends(name: string, op: Op) {
    match op
    case SetSize(_, _) => name == "SIZE"
    case SetAlign(a) => name == "ALIGN" && a in Alignments
    case SetBold(_) => name == "BOLD"
    case SetInvert(_) => name == "INVERT"
    case Text(t) => name == "FEED" && FitsIndex(|t|) && forall k :: 0 <= k < |t| ==> t[k] == '\n'
    case Cut => name == "CUT"
    case Barcode(_, _, _, _) => name == "BARCODE"
    case Qr(_, _) => name == "QR"
  }

  /** `int(args[i]) if len(args) > i else default`, where `None` stands for `int()` raising. */
  function IntArg(args: seq<string>, i: nat, default: int): (r: Option<int>)
    ensures |args| <= i ==> r == Some(default)
    ensures |args| > i ==> r == ParseInt(args[i])
  {
    if |args| > i then ParseInt(args[i]) else Some(default)
  }

  /** `args[0].lower() == "true" if len(args) > 0 else True`: on by default, otherwise only for `true` in any case. */
  function Flag(args: seq<string>): (on: bool)
    ensures args == [] ==> on
    ensures args != [] ==> (on <==> Lower(args[0]) == "true")
  {
    if |args| > 0 then Lower(args[0]) == "true" else true
  }

  /**
   * The interpretation of the directive `$name(args)`. Only the numeric
   * commands can fail: because an argument is not an integer, or because
   * a `FEED` count does not fit a `Py_ssize_t`; an unknown name is the
   * only other warning; every call it sends is of the kind its name
   * stands for.
   */
  function Command(name: string, args: seq<string>): (r: Outcome)
    ensures r.Emitted? ==> Sends(name, r.op)
    ensures r == Warned(UnknownCommand(name)) <==> name !in KnownCommands
    ensures r.Warned? ==> r == Warned(UnknownCommand(name)) || r == Warned(CommandFailed(name, args))
    ensures r == Warned(CommandFailed(name, args)) ==>
              && name in NumericCommands
              && ((exists k :: 0 <= k < |args| && ParseInt(args[k]).None?)
                  || (name == "FEED" && |args| > 0 && ParseInt(args[0]).Some? && !FitsIndex(ParseInt(args[0]).value)))
  {
    var failed := Warned(CommandFailed(name, args));
    if name == "SIZE" then
      var w := IntArg(args, 0, 1);
      if w.None? then failed
      else
        var h := IntArg(args, 1, w.value);
        if h.None? then failed else Emitted(SetSize(w.value, h.value))
    else if name == "ALIGN" then
      var align := if |args| > 0 then Lower(args[0]) else "left";
      if align in Alignments then Emitted(SetAlign(align)) else Skipped
    else if name == "BOLD" then
      Emitted(SetBold(Flag(args)))
    else if name == "INVERT" then
      Emitted(SetInvert(Flag(args)))
    else if name == "FEED" then
      var lines := IntArg(args, 0, 1);
      if lines.None? || !FitsIndex(lines.value) then failed else Emitted(Text(NewLines(lines.value)))
    else if name == "CUT" then
      Emitted(Cut)
    else if name == "BARCODE" then
      if |args| >= 2 then
        var width := IntArg(args, 2, 3);
        var height := IntArg(args, 3, 100);
        if width.None? || height.None? then failed
        else Emitted(Barcode(args[0], args[1], width.value, height.value))
      else Skipped
    else if name == "QR" then
      if |args| >= 1 then
        var size := IntArg(args, 1, 3);
        if size.None? then failed else Emitted(Qr(args[0], size.value))
      else Skipped
    else
      Warned(UnknownCommand(name))
  }

  // ---------------------------------------------------------------------------
  // The rules, command by command
  // ---------------------------------------------------------------------------

  /** `SIZE`: width 1 by default, height equal to the width by default; a non-integer is a warning. */
  lemma SizeRule(args: seq<string>)
    ensures args == [] ==> Command("SIZE", args) == Emitted(SetSize(1, 1))
    ensures |args| == 1 && ParseInt(args[0]).Some? ==>
              Command("SIZE", args) == Emitted(SetSize(ParseInt(args[0]).value, ParseInt(args[0]).value))
    ensures |args| >= 2 && ParseInt(args[0]).Some? && ParseInt(args[1]).Some? ==>
              Command("SIZE", args) == Emitted(SetSize(ParseInt(args[0]).value, ParseInt(args[1]).value))
    ensures |args| >= 1 && (ParseInt(args[0]).None? || (|args| >= 2 && ParseInt(args[1]).None?)) ==>
              Command("SIZE", args) == Warned(CommandFailed("SIZE", args))
  {
  }

  /** `ALIGN`: `left` by default; a value outside left, center and right (any case) sends nothing and logs nothing. */
  lemma AlignRule(args: seq<string>)
    ensures args == [] ==> Command("ALIGN", args) == Emitted(SetAlign("left"))
    ensures args != [] && Lower(args[0]) in Alignments ==>
              Command("ALIGN", args) == Emitted(SetAlign(Lower(args[0])))
    ensures args != [] && Lower(args[0]) !in Alignments ==> Command("ALIGN", args) == Skipped
  {
  }

  /** `BOLD` and `INVERT`: on unless an argument is given that is not `true` in any case. */
  lemma FlagRule(args: seq<string>)
    ensures Command("BOLD", args) == Emitted(SetBold(args == [] || Lower(args[0]) == "true"))
    ensures Command("INVERT", args) == Emitted(SetInvert(args == [] || Lower(args[0]) == "true"))
  {
  }

  /**
   * `FEED`: one line by default; `n` lines are `n` newlines of text, none
   * when `n <= 0`; a non-integer, or a count outside `Py_ssize_t`, is a warning.
   */
  lemma FeedRule(args: seq<string>)
    ensures args == [] ==> Command("FEED", args) == Emitted(Text("\n"))
    ensures args != [] && ParseInt(args[0]).Some? && FitsIndex(ParseInt(args[0]).value) ==>
              Command("FEED", args) == Emitted(Text(NewLines(ParseInt(args[0]).value)))
    ensures args != [] && (ParseInt(args[0]).None? || !FitsIndex(ParseInt(args[0]).value)) ==>
              Command("FEED", args) == Warned(CommandFailed("FEED", args))
  {
    assert NewLines(1) == "\n";
  }

  /** A `FEED` count that does not fit a `Py_ssize_t`, written out, is a failure and sends nothing. */
  lemma FeedOverflow(n: int)
    requires !FitsIndex(n)
    ensures Command("FEED", [IntToString(n)]) == Warned(CommandFailed("FEED", [IntToString(n)]))
  {
    ParseIntToString(n);
  }

  /** `CUT`: always a cut, whatever the arguments. */
  lemma CutRule(args: seq<string>)
    ensures Command("CUT", args) == Emitted(Cut)
  {
  }

  /** `BARCODE`: nothing without data and type; width 3 and height 100 by default. */
  lemma BarcodeRule(args: seq<string>)
    ensures |args| < 2 ==> Command("BARCODE", args) == Skipped
    ensures |args| >= 2 ==>
              var width := if |args| > 2 then ParseInt(args[2]) else Some(3);
              var height := if |args| > 3 then ParseInt(args[3]) else Some(100);
              Command("BARCODE", args) ==
                if width.Some? && height.Some? then Emitted(Barcode(args[0], args[1], width.value, height.value))
                else Warned(CommandFailed("BARCODE", args))
  {
  }

  /** `QR`: nothing without data; size 3 by default. */
  lemma QrRule(args: seq<string>)
    ensures args == [] ==> Command("QR", args) == Skipped
    ensures |args| == 1 ==> Command("QR", args) == Emitted(Qr(args[0], 3))
    ensures |args| >= 2 && ParseInt(args[1]).Some? ==>
              Command("QR", args) == Emitted(Qr(args[0], ParseInt(args[1]).value))
    ensures |args| >= 2 && ParseInt(args[1]).None? ==>
              Command("QR", args) == Warned(CommandFailed("QR", args))
  {
  }

  /** `ALIGN(Center)` selects centring; `ALIGN(up)` is dropped without a warning. */
  lemma AlignExamples()
    ensures Command("ALIGN", ["Center"]) == Emitted(SetAlign("center"))
    ensures Command("ALIGN", ["up"]) == Skipped
  {
    assert Lower("Center") == "center";
    assert Lower("up") == "up";
  }
}
