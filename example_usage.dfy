/**
 * The grammar built by the library's example program, and what its
 * counters and leaf parse steps report. The converters are parameters: the
 * integer-range converter and the file opener are not part of this model.
 */
module ExampleUsage {
  import opened Tokens
  import opened Counting
  import opened Books
  import opened Composite

  /** Adds the three exclusive speed switches to an empty composite. */
  method AddSpeeds(speed: ComplexFlag) returns (cell: nat)
    requires speed.Valid() && speed.Pristine()
    modifies speed`flags, speed`flagInsertionOrder, speed`mandatoryFlagCount, speed`optionalFlagCount
    modifies speed`exclusiveFlags, speed`exclusiveMandatoryCount, speed`exclusiveOptionalCount
    modifies speed`groupCells, speed`groups
    ensures speed.Valid() && speed.Snapshot() == SpeedBooks()
  {
    assert speed.Snapshot() == Initial;
    var slow := speed.AddFlag(SwitchKind, "slow", Mandatory, "");
    var medium := speed.AddFlag(SwitchKind, "medium", Mandatory, "");
    var fast := speed.AddFlag(SwitchKind, "fast", Mandatory, "");
    cell := speed.MakeExclusive(Speeds);
    SpeedGrouping();
  }

  const Speeds: seq<string> := ["slow", "medium", "fast"]

  /** The bookkeeping of `--speed` before its three switches are grouped. */
  function SpeedFlags(): (b: Books)
    ensures b.policies == map["slow" := Mandatory, "medium" := Mandatory, "fast" := Mandatory]
    ensures b.mandatoryFlags == 3 && b.optionalFlags == 0
    ensures b.exclusiveMandatory == 0 && b.exclusiveOptional == 1
  {
    AddFlagTo(AddFlagTo(AddFlagTo(Initial, "slow", Mandatory), "medium", Mandatory), "fast", Mandatory)
  }

  /**
   * The bookkeeping of `--speed` after its three switches are grouped: one
   * group binding all three to group 0, and an exclusive mandatory count of
   * two, so that the three switches count as one mandatory flag.
   */
  function SpeedBooks(): (b: Books)
    ensures b.mandatoryFlags - b.exclusiveMandatory == 1
    ensures b.optionalFlags - b.exclusiveOptional == -1
  {
    Books(map["slow" := Mandatory, "medium" := Mandatory, "fast" := Mandatory], Speeds, [Speeds],
          map["slow" := 0, "medium" := 0, "fast" := 0], 3, 0, 2, 1)
  }

  /** Grouping the three mandatory switches yields `SpeedBooks()`. */
  lemma SpeedGrouping()
    ensures MakeExclusiveIn(SpeedFlags(), Speeds) == SpeedBooks()
  {
    var t := SpeedFlags().policies;
    CountUniform(Speeds, t, Mandatory);
    CountPartition(Speeds, t);
    assert Count(Speeds, t, Mandatory) == 3 && Count(Speeds, t, Optional) == 0;
    SpeedBinding();
  }

  /** Binding the three fresh names of `--speed` puts each in group 0. */
  lemma SpeedBinding()
    ensures Bind(map[], Speeds, 0) == map["slow" := 0, "medium" := 0, "fast" := 0]
  {
    assert Speeds[..2][..1] == ["slow"] && Speeds[..2] == ["slow", "medium"];
    assert Bind(map[], ["slow"], 0) == map["slow" := 0];
    assert Bind(map[], Speeds[..2], 0) == map["slow" := 0, "medium" := 0];
  }

  /**
   * The whole grammar of the example program: an optional `-p` with a
   * mandatory `number_watts` argument, a mandatory `--speed` with three
   * exclusive mandatory switches, and a mandatory `--file` with a mandatory
   * `file_path` argument. The root reports two mandatory flags and no
   * optional one (the single optional flag cancels the initial offset);
   * `--speed` reports one mandatory flag; `-p` and `--file` each have one
   * mandatory argument and no optional one.
   */
  method ExampleGrammar(watts: Converter<int>, open: Converter<string>)
    returns (mandatory: int, optional: int, speedMandatory: int, speedOptional: int,
             powerArgs: int, powerOptionalArgs: int, fileArgs: int, fileOptionalArgs: int)
    ensures mandatory == 2 && optional == 0
    ensures speedMandatory == 1 && speedOptional == -1
    ensures powerArgs == 1 && powerOptionalArgs == 0
    ensures fileArgs == 1 && fileOptionalArgs == 0
  {
    var parser := new ArgParser();
    var root := parser.root;
    speedMandatory, speedOptional, powerArgs, powerOptionalArgs, fileArgs, fileOptionalArgs := BuildGrammar(root, watts, open);
    mandatory := root.NumberMandatoryFlags();
    optional := root.NumberOptionalFlags();
  }

  /**
   * Adds `-p`, `--speed` and `--file`, in the example program's order, to an
   * empty root, and reports the counts of the three composites.
   */
  method BuildGrammar(root: ComplexFlag, watts: Converter<int>, open: Converter<string>)
    returns (speedMandatory: int, speedOptional: int,
             powerArgs: int, powerOptionalArgs: int, fileArgs: int, fileOptionalArgs: int)
    requires root.Valid() && root.Pristine()
    modifies root`flags, root`flagInsertionOrder, root`mandatoryFlagCount, root`optionalFlagCount
    ensures root.Valid() && root.Snapshot() == RootBooks()
    ensures speedMandatory == 1 && speedOptional == -1
    ensures powerArgs == 1 && powerOptionalArgs == 0
    ensures fileArgs == 1 && fileOptionalArgs == 0
  {
    assert root.Snapshot() == Initial;
    var power, speed, file;
    power, powerArgs, powerOptionalArgs := AddPower(root, watts);
    speed, speedMandatory, speedOptional := AddSpeed(root);
    file, fileArgs, fileOptionalArgs := AddFile(root, open);
  }

  /**
   * Adds the optional `-p` with its mandatory `number_watts` argument, and
   * reports the argument counts of `-p`.
   */
  method AddPower(root: ComplexFlag, watts: Converter<int>) returns (power: ComplexFlag, mandatory: int, optional: int)
    requires root.Valid() && "-p" !in root.flags
    modifies root`flags, root`flagInsertionOrder, root`mandatoryFlagCount, root`optionalFlagCount
    ensures root.Valid() && root.Snapshot() == AddFlagTo(old(root.Snapshot()), "-p", Optional)
    ensures fresh(power) && root.flags["-p"] == Complex(power)
    ensures mandatory == 1 && optional == 0
  {
    var added := root.AddFlag(ComplexKind, "-p", Optional, "Specify power output.");
    power := added.complex;
    power.PristineIsValid();
    var arg := power.AddArg("number_watts", Mandatory, "An integer representing the number of watts.", watts);
    mandatory := power.NumberMandatoryArgs();
    optional := power.NumberOptionalArgs();
  }

  /**
   * Adds the mandatory `--speed` with its three exclusive switches, and
   * reports the flag counts of `--speed`: the group counts as one mandatory
   * flag, and with no optional flag the optional count keeps its initial
   * offset of minus one.
   */
  method AddSpeed(root: ComplexFlag) returns (speed: ComplexFlag, mandatory: int, optional: int)
    requires root.Valid() && "--speed" !in root.flags
    modifies root`flags, root`flagInsertionOrder, root`mandatoryFlagCount, root`optionalFlagCount
    ensures root.Valid() && root.Snapshot() == AddFlagTo(old(root.Snapshot()), "--speed", Mandatory)
    ensures fresh(speed) && root.flags["--speed"] == Complex(speed)
    ensures mandatory == 1 && optional == -1
  {
    var added := root.AddFlag(ComplexKind, "--speed", Mandatory, "Specify the speed.");
    speed := added.complex;
    speed.PristineIsValid();
    mandatory, optional := SpeedGroup(speed);
  }

  /**
   * Three mandatory switches `slow`, `medium` and `fast` made mutually
   * exclusive count as one mandatory flag; with no optional flag the
   * optional count keeps its initial offset of minus one.
   */
  method SpeedGroup(speed: ComplexFlag) returns (mandatory: int, optional: int)
    requires speed.Valid() && speed.Pristine()
    modifies speed`flags, speed`flagInsertionOrder, speed`mandatoryFlagCount, speed`optionalFlagCount
    modifies speed`exclusiveFlags, speed`exclusiveMandatoryCount, speed`exclusiveOptionalCount
    modifies speed`groupCells, speed`groups
    ensures mandatory == 1 && optional == -1
  {
    var cell := AddSpeeds(speed);
    mandatory := speed.NumberMandatoryFlags();
    optional := speed.NumberOptionalFlags();
  }

  /**
   * Adds the mandatory `--file` with its mandatory `file_path` argument, and
   * reports the argument counts of `--file`. The source stores an opened
   * file stream; here the argument stores what the converter makes of the
   * path.
   */
  method AddFile(root: ComplexFlag, open: Converter<string>) returns (file: ComplexFlag, mandatory: int, optional: int)
    requires root.Valid() && "--file" !in root.flags
    modifies root`flags, root`flagInsertionOrder, root`mandatoryFlagCount, root`optionalFlagCount
    ensures root.Valid() && root.Snapshot() == AddFlagTo(old(root.Snapshot()), "--file", Mandatory)
    ensures fresh(file) && root.flags["--file"] == Complex(file)
    ensures mandatory == 1 && optional == 0
  {
    var added := root.AddFlag(ComplexKind, "--file", Mandatory, "Read the specified file.");
    file := added.complex;
    file.PristineIsValid();
    var arg := file.AddArg("file_path", Mandatory, "Path to an existing file.", open);
    mandatory := file.NumberMandatoryArgs();
    optional := file.NumberOptionalArgs();
  }

  /** The bookkeeping of the root after its three composites are added. */
  function RootBooks(): (b: Books)
    ensures b.mandatoryFlags - b.exclusiveMandatory == 2
    ensures b.optionalFlags - b.exclusiveOptional == 0
  {
    AddFlagTo(AddFlagTo(AddFlagTo(Initial, "-p", Optional), "--speed", Mandatory), "--file", Mandatory)
  }

  /**
   * Adding a switch under a name that already holds a composite returns that
   * composite, and the repeated name is counted again under the composite's
   * own policy.
   */
  method ReAddAsSwitch() returns (first: FlagRef, second: FlagRef, mandatory: int)
    ensures first.Complex? && second == first
    ensures mandatory == 2
  {
    var root := new ComplexFlag(Mandatory, "");
    assert root.Snapshot() == Initial;
    first := root.AddFlag(ComplexKind, "--speed", Mandatory, "Specify the speed.");
    second := root.AddFlag(SwitchKind, "--speed", Optional, "");
    assert root.Snapshot() == AddFlagTo(AddFlagTo(Initial, "--speed", Mandatory), "--speed", Optional);
    mandatory := root.NumberMandatoryFlags();
  }

  /**
   * A group that names the same switch twice: the second `addExclusive`
   * binds nothing new but still counts the switch, and `makeExclusive` takes
   * off only one, so the single mandatory switch is not counted at all.
   */
  method RepeatedInGroup() returns (mandatory: int)
    ensures mandatory == 0
  {
    var c := new ComplexFlag(Mandatory, "");
    assert c.Snapshot() == Initial;
    var a := c.AddFlag(SwitchKind, "a", Mandatory, "");
    assert c.Snapshot() == AddFlagTo(Initial, "a", Mandatory);
    var cell := c.MakeExclusive(["a", "a"]);
    RepeatedCounts();
    mandatory := c.NumberMandatoryFlags();
  }

  /** Grouping `a` with itself adds one to the exclusive mandatory counter. */
  lemma RepeatedCounts()
    ensures MakeExclusiveIn(AddFlagTo(Initial, "a", Mandatory), ["a", "a"]).exclusiveMandatory == 1
  {
    var t := AddFlagTo(Initial, "a", Mandatory).policies;
    assert t == map["a" := Mandatory];
    CountUniform(["a", "a"], t, Mandatory);
  }

  /**
   * A freshly constructed parser has consumed nothing, has no mandatory
   * flag and reports minus one optional flags.
   */
  method FreshParser() returns (consumed: int, mandatory: int, optional: int)
    ensures consumed == 0 && mandatory == 0 && optional == -1
  {
    var parser := new ArgParser();
    consumed := parser.GetNumberArgsSuccessfullyParsed();
    mandatory := parser.root.NumberMandatoryFlags();
    optional := parser.root.NumberOptionalFlags();
  }

  /**
   * A mandatory argument whose converter rejects the token reports a
   * conversion failure under the argument's own name, stays unparsed and
   * leaves the cursor where it was.
   */
  method RejectedWatts(convert: Converter<int>, raw: string) returns (next: Cursor, failure: Option<ConversionFailure>, parsed: bool)
    requires convert(raw).Failure?
    ensures failure == Some(FailedArgConversion("number_watts", convert(raw).error))
    ensures next == Cursor(0, 1) && !parsed
  {
    var watts := new Arg("number_watts", Mandatory, "An integer representing the number of watts.", convert);
    next, failure := watts.Parse([raw], Cursor(0, 1));
    parsed := watts.token.Parsed();
  }

  /**
   * An accepted token is consumed: the value read back is the converted
   * one, the cursor moves past it and the argument is parsed.
   */
  method AcceptedWatts(convert: Converter<int>, raw: string) returns (next: Cursor, value: int, parsed: bool)
    requires convert(raw).Success?
    ensures value == convert(raw).value
    ensures next == Cursor(1, 1) && parsed
  {
    var watts := new Arg("number_watts", Mandatory, "An integer representing the number of watts.", convert);
    var failure;
    next, failure := watts.Parse([raw], Cursor(0, 1));
    value := watts.Get();
    parsed := watts.token.AsBool();
  }

  /**
   * An optional argument whose converter rejects the token returns quietly:
   * no failure, unparsed, cursor unchanged.
   */
  method RejectedOptional(convert: Converter<int>, raw: string) returns (next: Cursor, failure: Option<ConversionFailure>, parsed: bool)
    requires convert(raw).Failure?
    ensures failure == None
    ensures next == Cursor(0, 1) && !parsed
  {
    var level := new Arg("level", Optional, "", convert);
    next, failure := level.Parse([raw], Cursor(0, 1));
    parsed := level.token.Parsed();
  }
}
