/**
 * common/progargs.hpp and common/progargs.cpp: the command line `program input output
 * operation [values]` checked and turned into the program's parameters. Every failure prints
 * `Error: ` and a message to the error stream and exits with status -1; here it is an error
 * value holding that message.
 */
module ProgArgs {
  import opened Decimal
  import opened Results
  import opened MaxLevelAos
  import opened MaxLevelSoa

  const MIN_ARGS_REQUIRED: int := 4
  const MAX_LEVEL_CUT_FREQ_WIDTH_INDEX: int := 4
  /** The height index as written, the same as the width's. */
  const HEIGHT_INDEX_AS_WRITTEN: int := 4
  /** The height index the usage `resize width height` calls for. */
  const HEIGHT_INDEX: int := 5
  const ARGS_REQUIRED_MAXLEVEL_CUTFREQ: int := 5
  const ARGS_REQUIRED_RESIZE: int := 6
  const MAX_LEVEL_UPPER_LIMIT: int := 65535

  /** A `ProgramArgs` value; the numeric fields are -1 until an operation sets them. */
  datatype Args = Args(inputFile: string, outputFile: string, operation: string, maxLevel: int, width: int, height: int)

  /** An `OperationData`: the operation's name, the whole argument vector and the first extra index. */
  datatype OperationData = OperationData(operation: string, argsvector: seq<string>, index: int)

  /** The `ProgramArgs` object `parseArgs` fills in. */
  class ProgramArgs {
    var inputFile: string
    var outputFile: string
    var operation: string
    var maxLevel: int
    var width: int
    var height: int

    function Value(): Args
      reads this
    {
      Args(inputFile, outputFile, operation, maxLevel, width, height)
    }

    /** `ProgramArgs args;`: empty strings and the -1 defaults. */
    constructor ()
      ensures Value() == Args("", "", "", -1, -1, -1)
    {
      inputFile, outputFile, operation := "", "", "";
      maxLevel, width, height := -1, -1, -1;
    }
  }

  /** A result with its value dropped. */
  function AsOutcome<T>(r: Result<T>): (o: Outcome)
    ensures o.Pass? <==> r.Ok?
    ensures r.Err? ==> o == Fail(r.message)
  {
    if r.Ok? then Pass else Fail(r.message)
  }

  /**
   * `std::stoi` in base 10: spaces, an optional sign and the longest run of digits. `None` when
   * it throws, `invalid_argument` for no digits and `out_of_range` for a value beyond `int`.
   */
  function Stoi(s: string): (r: Option<int>)
    ensures r.Some? ==> IsInt(r.value)
  {
    match ScanNumber(s, 0)
    case NoDigits => None
    case Number(v, _) => if IsInt(v) then Some(v) else None
  }

  /** `std::stoi` reads back what `std::to_string` writes, for every `int`. */
  lemma StoiOfIntToString(x: int)
    requires IsInt(x)
    ensures Stoi(IntToString(x)) == Some(x)
  {
    var s := IntToString(x);
    if x >= 0 {
      ScanRenderedNat(s, 0, 0, x);
      assert s[0..|s|] == s;
    } else {
      ScanNegative(-x);
    }
  }

  /** A '-' and a rendered natural scan as the negated natural. */
  lemma ScanNegative(n: nat)
    requires n >= 1
    ensures ScanNumber("-" + NatToString(n), 0) == Number(-(n as int), |NatToString(n)| + 1)
  {
    var digits := NatToString(n);
    var s := "-" + digits;
    assert s[0] == '-' && !IsSpace(s[0]);
    SkipSpacesAt(s, 0, 0);
    DigitsEndAt(s, 1, |s|) by {
      assert forall k | 1 <= k < |s| :: s[k] == digits[k - 1];
    }
    assert s[1..|s|] == digits;
    DigitsValueOfNatToString(n);
  }

  /** The arguments from `index` on; none when `static_cast<size_t>(index)` is past the end. */
  function ExtraArguments(data: OperationData): (extra: seq<string>)
    ensures 0 <= data.index <= |data.argsvector| ==> |extra| == |data.argsvector| - data.index
  {
    if 0 <= data.index <= |data.argsvector| then data.argsvector[data.index..] else []
  }

  /** Arguments written one after the other, each followed by a space. */
  function Spaced(arguments: seq<string>): string {
    if arguments == [] then "" else Spaced(arguments[..|arguments| - 1]) + arguments[|arguments| - 1] + " "
  }

  /** Listing two runs of arguments lists the first, then the second. */
  lemma {:induction false} SpacedAppend(a: seq<string>, b: seq<string>)
    ensures Spaced(a + b) == Spaced(a) + Spaced(b)
    decreases |b|
  {
    if b == [] {
      assert a + b == a;
    } else {
      var c := b[..|b| - 1];
      assert (a + b)[..|a + b| - 1] == a + c;
      SpacedAppend(a, c);
    }
  }

  /** The message `printExtraArgumentsError` prints after `Error: `. */
  function ExtraArgumentsMessage(data: OperationData): string {
    "Invalid extra arguments for " + data.operation + ": " + Spaced(ExtraArguments(data))
  }

  /** `printExtraArgumentsError`: the message, built one extra argument at a time. */
  method ExtraArgumentsError(data: OperationData) returns (message: string)
    ensures message == ExtraArgumentsMessage(data)
  {
    message := "Invalid extra arguments for " + data.operation + ": ";
    if data.index < 0 || data.index > |data.argsvector| {
      return;
    }
    ghost var head := message;
    var argv := data.argsvector;
    for i := data.index to |argv|
      invariant message == head + Spaced(argv[data.index..i])
    {
      ListedNext(argv, data.index, i);
      message := message + argv[i] + " ";
    }
    assert argv[data.index..|argv|] == ExtraArguments(data);
  }

  /** Listing one more argument appends it and a space. */
  lemma ListedNext(argv: seq<string>, start: nat, i: nat)
    requires start <= i < |argv|
    ensures Spaced(argv[start..i + 1]) == Spaced(argv[start..i]) + argv[i] + " "
  {
    var prefix := argv[start..i + 1];
    assert prefix[..|prefix| - 1] == argv[start..i];
  }

  /** A single extra argument is listed with a space after it. */
  lemma OneExtraArgument(operation: string, argsvector: seq<string>)
    requires |argsvector| == MIN_ARGS_REQUIRED + 1
    ensures ExtraArgumentsMessage(OperationData(operation, argsvector, MIN_ARGS_REQUIRED)) ==
            "Invalid extra arguments for " + operation + ": " + argsvector[4] + " "
  {
    var extra := argsvector[4..];
    assert ExtraArguments(OperationData(operation, argsvector, MIN_ARGS_REQUIRED)) == extra;
    assert extra[..|extra| - 1] == [];
    assert Spaced(extra) == Spaced([]) + extra[0] + " ";
  }

  /** `validateArgsExtra`: the vector must end at `index`. */
  function ValidateArgsExtra(data: OperationData): (o: Outcome)
    ensures 0 <= data.index <= INT_MAX ==> (o.Pass? <==> |data.argsvector| == data.index)
    ensures o.Fail? ==> o.message == ExtraArgumentsMessage(data)
  {
    if |data.argsvector| != SizeT(data.index) then Fail(ExtraArgumentsMessage(data)) else Pass
  }

  /**
   * `validateArgsCount`, which only runs when the count is wrong: the message gives the number
   * of arguments after the operation, whichever of its two branches writes it.
   */
  function ArgsCountError(data: OperationData): (message: string)
    ensures message == "Invalid number of extra arguments for " + data.operation + ": " +
                       IntToString(|data.argsvector| - MIN_ARGS_REQUIRED)
  {
    var extraArgs := |data.argsvector| - MIN_ARGS_REQUIRED;
    if extraArgs != 0 then "Invalid number of extra arguments for " + data.operation + ": " + IntToString(extraArgs)
    else "Invalid number of extra arguments for " + data.operation + ": 0"
  }

  /** What `validateMaxLevel` makes of the vector: the maximum value, or the message it exits with. */
  function ValidateMaxLevelF(argv: seq<string>): (r: Result<int>)
    ensures r.Ok? ==> |argv| == ARGS_REQUIRED_MAXLEVEL_CUTFREQ && Stoi(argv[4]) == Some(r.value)
    ensures r.Ok? ==> !RefusedAos(r.value) && !RefusedSoa(r.value)
    ensures |argv| == ARGS_REQUIRED_MAXLEVEL_CUTFREQ && Stoi(argv[4]).Some? ==>
              (r.Ok? <==> 1 <= Stoi(argv[4]).value <= MAX_LEVEL_UPPER_LIMIT)
  {
    if |argv| != ARGS_REQUIRED_MAXLEVEL_CUTFREQ then
      Err(ArgsCountError(OperationData("maxlevel", argv, MIN_ARGS_REQUIRED)))
    else
      match Stoi(argv[MAX_LEVEL_CUT_FREQ_WIDTH_INDEX])
      case None => Err("Invalid maxlevel: " + argv[MAX_LEVEL_CUT_FREQ_WIDTH_INDEX])
      case Some(level) =>
        if level <= 0 || level > MAX_LEVEL_UPPER_LIMIT then Err("Invalid maxlevel: " + IntToString(level))
        else Ok(level)
  }

  /** What `validateCutFreq` makes of the vector: the colour count, or the message it exits with. */
  function ValidateCutFreqF(argv: seq<string>): (r: Result<int>)
    ensures r.Ok? ==> |argv| == ARGS_REQUIRED_MAXLEVEL_CUTFREQ && Stoi(argv[4]) == Some(r.value)
    ensures |argv| == ARGS_REQUIRED_MAXLEVEL_CUTFREQ && Stoi(argv[4]).Some? ==>
              (r.Ok? <==> Stoi(argv[4]).value >= 1)
  {
    if |argv| != ARGS_REQUIRED_MAXLEVEL_CUTFREQ then
      Err(ArgsCountError(OperationData("cutfreq", argv, MIN_ARGS_REQUIRED)))
    else
      match Stoi(argv[MAX_LEVEL_CUT_FREQ_WIDTH_INDEX])
      case None => Err("Invalid cutfreq: " + argv[MAX_LEVEL_CUT_FREQ_WIDTH_INDEX])
      case Some(level) =>
        if level <= 0 then Err("Invalid cutfreq: " + IntToString(level)) else Ok(level)
  }

  /**
   * What `validateResize` makes of the vector when the height is read at `heightIndex`: width
   * and height, or the message it exits with. The width is checked before the height is read.
   */
  function ValidateResizeF(argv: seq<string>, heightIndex: int): (r: Result<(int, int)>)
    requires heightIndex == HEIGHT_INDEX_AS_WRITTEN || heightIndex == HEIGHT_INDEX
    ensures r.Ok? ==> |argv| == ARGS_REQUIRED_RESIZE && r.value.0 >= 1 && r.value.1 >= 1
    ensures r.Ok? ==> Stoi(argv[4]) == Some(r.value.0) && Stoi(argv[heightIndex]) == Some(r.value.1)
  {
    if |argv| != ARGS_REQUIRED_RESIZE then
      Err(ArgsCountError(OperationData("resize", argv, MIN_ARGS_REQUIRED)))
    else
      var parametersError := "Invalid resize parameters: " + argv[MAX_LEVEL_CUT_FREQ_WIDTH_INDEX] + ", " +
                             argv[heightIndex];
      match Stoi(argv[MAX_LEVEL_CUT_FREQ_WIDTH_INDEX])
      case None => Err(parametersError)
      case Some(width) =>
        if width <= 0 then Err("Invalid resize width: " + IntToString(width))
        else
          match Stoi(argv[heightIndex])
          case None => Err(parametersError)
          case Some(height) =>
            if height <= 0 then Err("Invalid resize height: " + IntToString(height)) else Ok((width, height))
  }

  /** The argument count each operation needs. */
  function ArgsRequired(operation: string): int {
    if operation == "maxlevel" || operation == "cutfreq" then ARGS_REQUIRED_MAXLEVEL_CUTFREQ
    else if operation == "resize" then ARGS_REQUIRED_RESIZE
    else MIN_ARGS_REQUIRED
  }

  /**
   * What `parseArgs` makes of the vector, with the height of `resize` read from its own
   * argument: the parameters, or the message the program exits with.
   */
  function ParseArgsF(argv: seq<string>): (r: Result<Args>)
    ensures r.Ok? ==> |argv| >= MIN_ARGS_REQUIRED && |argv| == ArgsRequired(argv[3])
    ensures r.Ok? ==> && r.value.inputFile == argv[1] && r.value.outputFile == argv[2] && r.value.operation == argv[3]
                      && argv[3] in ["info", "compress", "maxlevel", "resize", "cutfreq"]
    ensures r.Ok? && argv[3] == "maxlevel" ==> !RefusedAos(r.value.maxLevel) && !RefusedSoa(r.value.maxLevel)
    ensures r.Ok? && argv[3] == "cutfreq" ==> r.value.maxLevel >= 1
    ensures r.Ok? && argv[3] == "resize" ==> r.value.width >= 1 && r.value.height >= 1
    ensures r.Ok? && argv[3] != "maxlevel" && argv[3] != "cutfreq" ==> r.value.maxLevel == -1
    ensures r.Ok? && argv[3] != "resize" ==> r.value.width == -1 && r.value.height == -1
  {
    if |argv| < MIN_ARGS_REQUIRED then Err("Invalid number of arguments: " + NatToString(SizeT(|argv| - 1)))
    else
      var args := Args(argv[1], argv[2], argv[3], -1, -1, -1);
      if args.operation == "info" || args.operation == "compress" then
        match ValidateArgsExtra(OperationData(args.operation, argv, MIN_ARGS_REQUIRED))
        case Pass => Ok(args)
        case Fail(message) => Err(message)
      else if args.operation == "maxlevel" then
        var level :- ValidateMaxLevelF(argv);
        Ok(args.(maxLevel := level))
      else if args.operation == "resize" then
        var size :- ValidateResizeF(argv, HEIGHT_INDEX);
        Ok(args.(width := size.0, height := size.1))
      else if args.operation == "cutfreq" then
        var level :- ValidateCutFreqF(argv);
        Ok(args.(maxLevel := level))
      else
        Err("Unsupported operation: " + args.operation)
  }

  /** `validateMaxLevel`: stores the parsed value in `args.max_level`, then checks its range. */
  method ValidateMaxLevel(argv: seq<string>, args: ProgramArgs) returns (outcome: Outcome)
    modifies args
    ensures outcome == AsOutcome(ValidateMaxLevelF(argv))
    ensures ValidateMaxLevelF(argv).Ok? ==> args.Value() == old(args.Value()).(maxLevel := ValidateMaxLevelF(argv).value)
    ensures args.Value() == old(args.Value()).(maxLevel := args.maxLevel)
  {
    if |argv| != ARGS_REQUIRED_MAXLEVEL_CUTFREQ {
      return Fail(ArgsCountError(OperationData("maxlevel", argv, MIN_ARGS_REQUIRED)));
    }
    var parsed := Stoi(argv[MAX_LEVEL_CUT_FREQ_WIDTH_INDEX]);
    if parsed.None? {
      return Fail("Invalid maxlevel: " + argv[MAX_LEVEL_CUT_FREQ_WIDTH_INDEX]);
    }
    args.maxLevel := parsed.value;
    if args.maxLevel <= 0 || args.maxLevel > MAX_LEVEL_UPPER_LIMIT {
      return Fail("Invalid maxlevel: " + IntToString(args.maxLevel));
    }
    outcome := Pass;
  }

  /** `validateCutFreq`: stores the parsed value in `args.max_level`, then checks it is positive. */
  method ValidateCutFreq(argv: seq<string>, args: ProgramArgs) returns (outcome: Outcome)
    modifies args
    ensures outcome == AsOutcome(ValidateCutFreqF(argv))
    ensures ValidateCutFreqF(argv).Ok? ==> args.Value() == old(args.Value()).(maxLevel := ValidateCutFreqF(argv).value)
    ensures args.Value() == old(args.Value()).(maxLevel := args.maxLevel)
  {
    if |argv| != ARGS_REQUIRED_MAXLEVEL_CUTFREQ {
      return Fail(ArgsCountError(OperationData("cutfreq", argv, MIN_ARGS_REQUIRED)));
    }
    var parsed := Stoi(argv[MAX_LEVEL_CUT_FREQ_WIDTH_INDEX]);
    if parsed.None? {
      return Fail("Invalid cutfreq: " + argv[MAX_LEVEL_CUT_FREQ_WIDTH_INDEX]);
    }
    args.maxLevel := parsed.value;
    if args.maxLevel <= 0 {
      return Fail("Invalid cutfreq: " + IntToString(args.maxLevel));
    }
    outcome := Pass;
  }

  /** `validateResize`: stores the width, checks it, then stores and checks the height. */
  method ValidateResize(argv: seq<string>, args: ProgramArgs) returns (outcome: Outcome)
    modifies args
    ensures outcome == AsOutcome(ValidateResizeF(argv, HEIGHT_INDEX))
    ensures ValidateResizeF(argv, HEIGHT_INDEX).Ok? ==>
              var size := ValidateResizeF(argv, HEIGHT_INDEX).value;
              args.Value() == old(args.Value()).(width := size.0, height := size.1)
    ensures args.Value() == old(args.Value()).(width := args.width, height := args.height)
  {
    if |argv| != ARGS_REQUIRED_RESIZE {
      return Fail(ArgsCountError(OperationData("resize", argv, MIN_ARGS_REQUIRED)));
    }
    var parametersError := "Invalid resize parameters: " + argv[MAX_LEVEL_CUT_FREQ_WIDTH_INDEX] + ", " +
                           argv[HEIGHT_INDEX];
    var width := Stoi(argv[MAX_LEVEL_CUT_FREQ_WIDTH_INDEX]);
    if width.None? {
      return Fail(parametersError);
    }
    args.width := width.value;
    if args.width <= 0 {
      return Fail("Invalid resize width: " + IntToString(args.width));
    }
    var height := Stoi(argv[HEIGHT_INDEX]);
    if height.None? {
      return Fail(parametersError);
    }
    args.height := height.value;
    if args.height <= 0 {
      return Fail("Invalid resize height: " + IntToString(args.height));
    }
    outcome := Pass;
  }

  /** `parseArgs`: the three names, then the checks of the operation named. */
  method ParseArgs(argv: seq<string>) returns (r: Result<ProgramArgs>)
    ensures r.Err? ==> ParseArgsF(argv) == Err(r.message)
    ensures r.Ok? ==> fresh(r.value) && ParseArgsF(argv) == Ok(r.value.Value())
  {
    if |argv| < MIN_ARGS_REQUIRED {
      return Err("Invalid number of arguments: " + NatToString(SizeT(|argv| - 1)));
    }
    var args := new ProgramArgs();
    args.inputFile := argv[1];
    args.outputFile := argv[2];
    args.operation := argv[3];
    var outcome := Pass;
    if args.operation == "info" || args.operation == "compress" {
      outcome := ValidateArgsExtra(OperationData(args.operation, argv, MIN_ARGS_REQUIRED));
    } else if args.operation == "maxlevel" {
      outcome := ValidateMaxLevel(argv, args);
    } else if args.operation == "resize" {
      outcome := ValidateResize(argv, args);
    } else if args.operation == "cutfreq" {
      outcome := ValidateCutFreq(argv, args);
    } else {
      outcome := Fail("Unsupported operation: " + args.operation);
    }
    if outcome.Fail? {
      return Err(outcome.message);
    }
    r := Ok(args);
  }

  /**
   * A `maxlevel` command line whose value is written as `std::to_string` writes it is accepted
   * exactly when the value lies in 1..65535, and the value is read back unchanged.
   */
  lemma MaxLevelCommandLine(input: string, output: string, level: int)
    requires IsInt(level)
    ensures var r := ParseArgsF(["program", input, output, "maxlevel", IntToString(level)]);
      if 1 <= level <= MAX_LEVEL_UPPER_LIMIT then r == Ok(Args(input, output, "maxlevel", level, -1, -1))
      else r == Err("Invalid maxlevel: " + IntToString(level))
  {
    StoiOfIntToString(level);
  }

  /** A `cutfreq` command line is accepted exactly when its value is positive. */
  lemma CutFreqCommandLine(input: string, output: string, count: int)
    requires IsInt(count)
    ensures var r := ParseArgsF(["program", input, output, "cutfreq", IntToString(count)]);
      if count >= 1 then r == Ok(Args(input, output, "cutfreq", count, -1, -1))
      else r == Err("Invalid cutfreq: " + IntToString(count))
  {
    StoiOfIntToString(count);
  }

  /**
   * A `resize` command line gets the width from its first value and the height from its
   * second; a width that is not positive is reported before the height is looked at.
   */
  lemma ResizeCommandLine(input: string, output: string, width: int, height: int)
    requires IsInt(width) && IsInt(height)
    ensures var r := ParseArgsF(["program", input, output, "resize", IntToString(width), IntToString(height)]);
      if width <= 0 then r == Err("Invalid resize width: " + IntToString(width))
      else if height <= 0 then r == Err("Invalid resize height: " + IntToString(height))
      else r == Ok(Args(input, output, "resize", -1, width, height))
  {
    StoiOfIntToString(width);
    StoiOfIntToString(height);
  }

  /**
   * As written, the height is read from the width's argument, so every accepted `resize` has
   * a height equal to its width: `resize 640 480` gives 640 by 640, and `resize 10 -50` is
   * accepted as 10 by 10.
   */
  lemma ResizeAsWrittenReadsWidthTwice(argv: seq<string>)
    ensures ValidateResizeF(argv, HEIGHT_INDEX_AS_WRITTEN).Ok? ==>
              ValidateResizeF(argv, HEIGHT_INDEX_AS_WRITTEN).value.0 == ValidateResizeF(argv, HEIGHT_INDEX_AS_WRITTEN).value.1
    ensures ValidateResizeF(["program", "input.ppm", "output.ppm", "resize", "640", "480"], HEIGHT_INDEX_AS_WRITTEN) ==
            Ok((640, 640))
    ensures ValidateResizeF(["program", "input.ppm", "output.ppm", "resize", "10", "-50"], HEIGHT_INDEX_AS_WRITTEN) ==
            Ok((10, 10))
  {
    assert IntToString(640) == "640";
    assert IntToString(10) == "10";
    StoiOfIntToString(640);
    StoiOfIntToString(10);
  }
}
