# auto-arg-parse: the grammar data model

auto-arg-parse is a small C++ command-line parsing library. A program builds
a grammar tree of tokens, all under one root, the `ArgParser`:

- switch flags (`Flag`);
- composite flags (`ComplexFlag`), which own named child flags, an ordered list of typed positional arguments (`Arg<T>`) and exclusivity groups over their child flags;
- the root `ArgParser` itself.

Each token carries a policy (mandatory or optional), a description and a "parsed" bit.

This project models the part of `src/autoArgParse/argParser.h` that can be
checked against its text:

- the parsed state of every token;
- the leaf parse steps of switches and arguments;
- the registration bookkeeping of a composite flag: its flag table, insertion order, argument list, exclusivity groups and six policy counters;
- the initial state of the root.

It also proves what the counters mean.

Files:

- `tokens.dfy` (module `Tokens`) has the following:
  - `Policy`;
  - the converter type `string -> Result<T, string>`;
  - the conversion failure;
  - the iterator pair as a `Cursor` of two indices into a `seq<string>`;
  - the classes `ParseToken`, `Flag` and `Arg<T>`.

  The C++ inheritance (`Flag` and `ArgBase` derive from `ParseToken`) becomes composition: every flag and argument owns a `const token: ParseToken`.
- `counting.dfy` (module `Counting`) defines, on plain values, the count of flags of a policy over an insertion order, and what a sequence of groups subtracts from it. It proves `GroupedUnits`: after grouping, the count of a policy equals the ungrouped flags of that policy plus one per group that has a member of that policy, when no name is added twice, no group repeats a name and no name is in two groups.
- `books.dfy` (module `Books`) captures the bookkeeping of one composite as a value, `Books`. It has the following:
  - the transitions `AddFlagTo` (what `add` does) and `MakeExclusiveIn` (what `makeExclusive` does);
  - the invariant `Consistent`, which says the counters agree with the tables;
  - lemmas that `Consistent` holds initially and that both transitions keep it.
- `complex_flag.dfy` (module `Composite`) holds two classes.
  - `ComplexFlag` has the source's fields:
    - the child-flag map, as `map<string, FlagRef>` where `FlagRef` is a switch or a nested composite;
    - the insertion order;
    - the exclusive map, as a group index per name;
    - one `bool` cell per group, standing for the shared `shared_ptr<bool>`;
    - the argument list;
    - the six counters.

    The flag-registration and grouping methods (`AddFlag`, `Register`, `MakeExclusive`, `OpenGroup`) are proved against the `Books` transition: their `ensures` say the new `Snapshot()` is `AddFlagTo` or `MakeExclusiveIn` of the old snapshot. The argument methods state the new argument list and counters directly, and the smaller helpers state their changes field by field. The accessors are stated in terms of the counting functions.
  - `ArgParser` is the root: a mandatory composite with an empty description and a consumed-token count.
- `example_usage.dfy` (module `ExampleUsage`) rebuilds the whole grammar of `src/exampleUsage.cpp` (lines 7-39) under one root, with its two arguments and its exclusive group, and proves the counts it yields. It also proves the outcomes of the argument parse step on accepted and rejected tokens.

## Model

| member | source | states |
|---|---|---|
| Tokens.ParseToken.constructor | src/autoArgParse/argParser.h:32-33 | a new token has the given policy and description and is not parsed |
| Tokens.ParseToken.Parsed | src/autoArgParse/argParser.h:39 | true exactly when the parsed bit is set |
| Tokens.ParseToken.AsBool | src/autoArgParse/argParser.h:41 | the bool conversion gives the same answer as `parsed()` |
| Tokens.Flag.constructor | src/autoArgParse/argParser.h:69 | a new switch owns a fresh, unparsed token with the given policy and description |
| Tokens.Flag.Parse | src/autoArgParse/argParser.h:63-66 | the switch becomes parsed and neither end of the cursor moves |
| Tokens.Arg.constructor | src/autoArgParse/argParser.h:115-117 | a new argument keeps its name and converter and owns a fresh, unparsed token |
| Tokens.Arg.Parse | src/autoArgParse/argParser.h:99-112 | on conversion success: the value is stored, `first` advances by one, the arg is parsed, no failure. On rejection: unparsed, cursor unchanged, and a `FailedArgConversion(name, message)` exactly when the arg is mandatory. `last` never moves |
| Tokens.Arg.Get | src/autoArgParse/argParser.h:119 | returns the stored value |
| Counting.Excess | src/autoArgParse/argParser.h:246-251 | what one group adds to an exclusive counter: all but one of its `k` members when `k > 0`; it is 0 exactly when `k <= 1`, so an empty group adds nothing |
| Counting.CountPartition | src/autoArgParse/argParser.h:197-201 | every added flag is counted under exactly one of the two policies |
| Counting.GroupedUnits | src/autoArgParse/argParser.h:183-189 | flag count minus what the groups subtract == ungrouped flags + groups with a member of that policy (distinct names, disjoint groups, groups within the flag table) |
| Books.Bind | src/autoArgParse/argParser.h:143 | binding a group keeps every earlier binding and binds each new name to the group; the keys become old keys plus the group's names |
| Books.InitialConsistent | src/autoArgParse/argParser.h:157-168 | the initial bookkeeping (all counters 0, exclusive optional 1, empty tables) is consistent |
| Books.AddFlagKeepsConsistent | src/autoArgParse/argParser.h:194-202 | registering a flag, new name or not, keeps the counters equal to the counts over the tables |
| Books.BindGroup | src/autoArgParse/argParser.h:141-143 | after a group is bound, every grouped name is bound to the first group that named it, and only grouped names are bound |
| Books.MakeExclusiveKeepsConsistent | src/autoArgParse/argParser.h:238-253 | grouping flags keeps each exclusive counter equal to the sum over groups of all-but-one members of its policy |
| Composite.CountArgsPartition | src/autoArgParse/argParser.h:219-223 | every argument is counted under exactly one policy |
| Composite.Settle | src/autoArgParse/argParser.h:246-251 | the conditional decrement raises a counter from its value before the group by `Excess` of what the group added |
| Composite.ComplexFlag.constructor | src/autoArgParse/argParser.h:157-168 | a new composite is empty, its counters are 0 except the exclusive optional counter (1), it satisfies the invariant and its token is unparsed |
| Composite.ComplexFlag.PristineIsValid | src/autoArgParse/argParser.h:157-168 | a composite in its initial state satisfies the invariant |
| Composite.ComplexFlag.NumberMandatoryArgs | src/autoArgParse/argParser.h:179 | the number of mandatory arguments in the list |
| Composite.ComplexFlag.NumberOptionalArgs | src/autoArgParse/argParser.h:181 | the number of optional arguments in the list |
| Composite.ComplexFlag.NumberMandatoryFlags | src/autoArgParse/argParser.h:183-185 | mandatory entries of the insertion order minus all but one mandatory member of each group |
| Composite.ComplexFlag.NumberOptionalFlags | src/autoArgParse/argParser.h:187-189 | the same for optional flags, minus one more (the counter's initial 1) |
| Composite.ComplexFlag.GroupCountsAsOneFlag | src/autoArgParse/argParser.h:183-189 | with distinct names and disjoint groups, these counts are the ungrouped flags of the policy plus the groups containing one, minus one for optional |
| Composite.ComplexFlag.AddFlag | src/autoArgParse/argParser.h:194-207 | the new snapshot is `AddFlagTo` of the old one: the name is appended to the order, the counter of the bound flag's policy goes up by one, and the other counters do not change. A new name gets a fresh, unparsed flag of the requested kind with the given policy and description. An existing name keeps its flag, which is returned whatever kind was asked for; only asking for a composite requires the bound flag to be one. The invariant is kept |
| Composite.ComplexFlag.Register | src/autoArgParse/argParser.h:195-202 | the state change of `add`, without the invariant, with the same requirement on the kind |
| Composite.ComplexFlag.BindFlag | src/autoArgParse/argParser.h:195-196 | inserts a new flag of the requested kind only when the name is unbound, and returns the bound flag, whatever its kind |
| Composite.ComplexFlag.CountFlag | src/autoArgParse/argParser.h:197-201 | exactly one flag counter goes up, chosen by policy |
| Composite.ComplexFlag.NewFlag | src/autoArgParse/argParser.h:196 | a fresh unparsed flag of the requested kind. A composite starts empty |
| Composite.ComplexFlag.AddArg | src/autoArgParse/argParser.h:213-226 | the argument is appended at the end of the list with earlier ones untouched. It is fresh and unparsed with the given name, policy, description and converter. Exactly one argument counter goes up, by policy. The invariant is kept |
| Composite.ComplexFlag.AppendArg | src/autoArgParse/argParser.h:215-223 | the state change of the argument `add`: appends the fresh argument and keeps the argument counters equal to the counts over the list |
| Composite.ComplexFlag.CountArg | src/autoArgParse/argParser.h:219-223 | exactly one argument counter goes up, chosen by policy |
| Composite.ComplexFlag.AddExclusive | src/autoArgParse/argParser.h:141-149 | an unbound name is bound to the group and a bound one keeps its group. The exclusive counter of the flag's policy goes up either way. Requires the name to be a child flag |
| Composite.ComplexFlag.AddAllExclusive | src/autoArgParse/argParser.h:244 | bindings become `Bind(old, names, group)`; each exclusive counter rises by the number of names of its policy |
| Composite.ComplexFlag.MakeExclusive | src/autoArgParse/argParser.h:238-253 | the new snapshot is `MakeExclusiveIn` of the old one, a fresh unset cell is appended, and the invariant is kept. Requires every name to be a child flag |
| Composite.ComplexFlag.OpenGroup | src/autoArgParse/argParser.h:240-251 | the state change of `makeExclusive`, without the invariant |
| Composite.ArgParser.constructor | src/autoArgParse/argParser.h:264-265 | the root is a fresh, empty, valid, mandatory composite with an empty description, and zero tokens are consumed |
| Composite.ArgParser.GetNumberArgsSuccessfullyParsed | src/autoArgParse/argParser.h:267-269 | returns the consumed-token count |
| ExampleUsage.ExampleGrammar | src/exampleUsage.cpp:7-39 | the whole example grammar under a fresh parser: the root reports 2 mandatory flags and 0 optional, `--speed` reports 1 and -1, `-p` and `--file` have one mandatory argument each and no optional one |
| ExampleUsage.BuildGrammar | src/exampleUsage.cpp:9-39 | adding `-p`, `--speed` and `--file` in that order leaves the root's bookkeeping at `RootBooks()` and the invariant kept, with the counts above for the three composites |
| ExampleUsage.AddPower | src/exampleUsage.cpp:10-17 | adding `-p` and its `number_watts` argument touches the root as `AddFlagTo` says, binds `-p` to the new composite and gives it one mandatory argument and no optional one |
| ExampleUsage.AddSpeed | src/exampleUsage.cpp:20-28 | adding `--speed` touches the root as `AddFlagTo` says, binds it to the new composite, and that composite reports 1 mandatory flag and -1 optional |
| ExampleUsage.SpeedGroup | src/exampleUsage.cpp:25-28 | three mandatory switches made exclusive in an empty composite count as one mandatory flag; the optional count is -1 |
| ExampleUsage.AddSpeeds | src/exampleUsage.cpp:25-28 | the bookkeeping after adding and grouping `slow`, `medium`, `fast` is `SpeedBooks()`, and the invariant holds |
| ExampleUsage.SpeedFlags | src/exampleUsage.cpp:25-27 | three mandatory switches give mandatory count 3 and optional count 0 |
| ExampleUsage.SpeedBooks | src/exampleUsage.cpp:25-28 | the bookkeeping of the grouped switches, as a value: its mandatory units are 1 and its optional units are -1 |
| ExampleUsage.SpeedGrouping | src/exampleUsage.cpp:28 | `makeExclusive("slow", "medium", "fast")` applied to the three switches yields exactly `SpeedBooks()`: one group, all three bound to it, exclusive mandatory count 2 |
| ExampleUsage.SpeedBinding | src/autoArgParse/argParser.h:143 | binding the three fresh names binds each to group 0 |
| ExampleUsage.AddFile | src/exampleUsage.cpp:30-39 | adding `--file` and its `file_path` argument touches the root as `AddFlagTo` says, binds `--file` to the new composite and gives it one mandatory argument and no optional one |
| ExampleUsage.RootBooks | src/exampleUsage.cpp:9-31 | the root's bookkeeping after its three composites gives 2 mandatory and 0 optional units |
| ExampleUsage.ReAddAsSwitch | src/autoArgParse/argParser.h:194-207 | asking for a switch under a name bound to a composite returns that composite, and the repeated name counts again under the composite's mandatory policy, giving 2 |
| ExampleUsage.RepeatedInGroup | src/autoArgParse/argParser.h:238-253 | a group naming one mandatory switch twice leaves the composite reporting 0 mandatory flags: the repeated `addExclusive` counts the switch again and only one is taken off |
| ExampleUsage.RepeatedCounts | src/autoArgParse/argParser.h:141-149 | grouping `a` with itself leaves the exclusive mandatory counter at 1 |
| ExampleUsage.FreshParser | src/autoArgParse/argParser.h:264-269 | a fresh parser has consumed 0 tokens, has 0 mandatory flags and reports -1 optional flags |
| ExampleUsage.RejectedWatts | src/autoArgParse/argParser.h:105-108 | a mandatory argument rejecting its token reports the failure under its own name and stays unparsed at the same cursor |
| ExampleUsage.AcceptedWatts | src/autoArgParse/argParser.h:99-104 | an accepted token is read back through `Get`, and the cursor moves past it |
| ExampleUsage.RejectedOptional | src/autoArgParse/argParser.h:105-110 | an optional argument rejecting its token reports nothing, stays unparsed and does not move |

## Left out

- The matching engine. The bodies of `ComplexFlag::parse`, `tryParseArg`, `tryParseFlag` and `ArgParser::validateArgs` (src/autoArgParse/argParser.h:135-139, 270-271) are in a file that is not part of this model. Because of that, nothing in the model ever sets a group cell to true or changes the consumed-token count.
- Usage and help printing is output formatting: `printUsageHelp`, `printUsageSummary`, `invokePrintFlag`, `printSuccessfullyParsed`, `printAllUsageInfo`.
- Concrete converters (`Converter<T>`, `IntRange`, `chain`, `ErrorMessage`) live in `argHandlers.h`, which is not part of this model. A converter is a function parameter that returns a value or a message. `throwFailedArgConversionException` becomes a returned `ConversionFailure`, because this model has no exceptions.
- The `add` overload that supplies the default converter (src/autoArgParse/argParser.h:232-236) is left out. Its only effect is to pass `Converter<T>()` to the other overload, and that converter is not part of this model.
- The read-only getters `getArgs`, `getFlags`, `getExclusiveFlags` and `getFlagInsertionOrder` are left out, because Dafny fields are readable directly.
- The `std::fstream` value of the example program's `file_path` argument is file I/O. `ExampleUsage.AddFile` gives the argument a `string` value and takes its converter as a parameter, so opening the file and its failure message are not modelled.
- Partial writes to the stored value by a converter that then throws are left out; the state they leave is unspecified.
- Ownership (`unique_ptr`, `shared_ptr`) is not modelled. The flags of a group share one cell through the group index. The insertion order holds names where the source holds `unordered_map` iterators. Under the C++ standard, an `insert` that rehashes invalidates every iterator into the map (pointers and references stay valid), so the source's `deque` of iterators (src/autoArgParse/argParser.h:124, 202) may hold invalidated iterators after later `add` calls. The list of names is what the code evidently intends.
- Flag kinds other than `Flag` and `ComplexFlag` are not modelled. The source's `add<FlagType>` accepts any subclass, but the model offers only the two kinds in `FlagKind`.
- Counters are unbounded integers, so the source's 32-bit `int` overflow is not modelled; it would need more than 2^31 registrations.
- Composite.ComplexFlag.AddFlag: asking for a composite under a name already bound to a plain switch is excluded. The source would `static_cast` the switch to `ComplexFlag*`, a downcast to the wrong type, which is undefined behaviour. The other direction is modelled: a composite asked for as a switch is returned as it is, as the source's identity cast to `Flag*` does.
- Composite.ComplexFlag.AddExclusive: requires the name to be a child flag. The source's `flags[flag]` would insert an empty pointer and dereference it.
- Tokens.Arg.Get: returns the stored value, not a reference, so writing through the reference is not modelled.
- The heterogeneous `ArgVector` of `unique_ptr<ArgBase>` becomes a list of `ArgSlot`s: each holds the argument as an untyped `object` plus copies of its name, policy and description. The invariant does not tie a slot's copied policy to the argument's own token; the tie holds when `AddArg` appends the slot, and nothing in the model changes either afterwards.
- Two readings the source's names invite do not match its code; the model follows the code.
  - The accessor names `numberMandatoryFlags` and `numberOptionalFlags` (src/autoArgParse/argParser.h:183-189) suggest a count of flags in which a group counts once. The code subtracts all but one member of each group from a running count, and the exclusive optional counter starts at 1 (line 166), so a fresh composite reports -1 optional flags. `GroupCountsAsOneFlag` proves the two readings agree, apart from that -1, when no name is added twice, no group names a flag twice and no name is in two groups. Without the middle condition the readings differ: `ExampleUsage.RepeatedInGroup` groups one mandatory switch with itself and the composite then reports 0 mandatory flags, not 1.
  - `get` (src/autoArgParse/argParser.h:119) has no guard on the parsed bit: it returns the stored value in every state, including before any successful parse.
