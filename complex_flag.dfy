/**
 * Composite flags: a flag that owns named child flags, an ordered list of
 * positional arguments, exclusivity groups over its child flags, and the
 * policy counters derived from them; and the grammar root, `ArgParser`.
 */
module Composite {
  import opened Tokens
  import opened Counting
  import opened Books

  /** Which kind of flag `AddFlag` creates. */
  datatype FlagKind = SwitchKind | ComplexKind

  /** An owned child flag: a switch or a nested composite. */
  datatype FlagRef = Switch(flag: Flag) | Complex(complex: ComplexFlag)

  function KindOf(r: FlagRef): FlagKind {
    match r
    case Switch(_) => SwitchKind
    case Complex(_) => ComplexKind
  }

  function TokenOf(r: FlagRef): ParseToken {
    match r
    case Switch(f) => f.token
    case Complex(c) => c.token
  }

  function PolicyOf(r: FlagRef): Policy {
    TokenOf(r).policy
  }

  /** An owned positional argument, with the declaration data of its base. */
  datatype ArgSlot = ArgSlot(arg: object, name: string, policy: Policy, description: string)

  /** The number of arguments of policy `p`. */
  function CountArgs(args: seq<ArgSlot>, p: Policy): (r: nat)
    ensures r <= |args|
  {
    if args == [] then 0
    else CountArgs(args[..|args| - 1], p) + (if args[|args| - 1].policy == p then 1 else 0)
  }

  /** Every argument is counted under exactly one of the two policies. */
  lemma {:induction false} CountArgsPartition(args: seq<ArgSlot>)
    ensures CountArgs(args, Mandatory) + CountArgs(args, Optional) == |args|
  {
    if args != [] {
      CountArgsPartition(args[..|args| - 1]);
    }
  }

  /**
   * The decrement `makeExclusive` applies to an exclusive counter that
   * moved from `previous` to `count` while the group was added: one less if
   * it moved, so the group adds all but one of its members.
   */
  function Settle(previous: int, count: int): (r: int)
    requires previous <= count
    ensures r == previous + Excess(count - previous)
  {
    if count != previous then count - 1 else count
  }

  class ComplexFlag {
    const token: ParseToken
    /** Child flags by name; a name is bound once and never rebound. */
    var flags: map<string, FlagRef>
    /** The names passed to `AddFlag`, in call order (for help output). */
    var flagInsertionOrder: seq<string>
    /** The exclusivity group each grouped child flag belongs to. */
    var exclusiveFlags: map<string, nat>
    /** One "a member already matched" cell per group, indexed by group. */
    var groupCells: seq<bool>
    /** The names passed to each `MakeExclusive` call, indexed by group. */
    ghost var groups: seq<seq<string>>
    /** Positional arguments, in declaration order. */
    var args: seq<ArgSlot>
    var mandatoryFlagCount: int
    var optionalFlagCount: int
    var exclusiveMandatoryCount: int
    var exclusiveOptionalCount: int
    var mandatoryArgCount: int
    var optionalArgCount: int

    /** The policy of every child flag. */
    ghost function PolicyTable(): (t: map<string, Policy>)
      reads this`flags
      ensures t.Keys == flags.Keys
      ensures forall n :: n in flags ==> t[n] == PolicyOf(flags[n])
    {
      map n | n in flags :: PolicyOf(flags[n])
    }

    /** The bookkeeping of this composite, as a value. */
    ghost function Snapshot(): Books
      reads this`flags, this`flagInsertionOrder, this`groups, this`exclusiveFlags
      reads this`mandatoryFlagCount, this`optionalFlagCount
      reads this`exclusiveMandatoryCount, this`exclusiveOptionalCount
    {
      Books(PolicyTable(), flagInsertionOrder, groups, exclusiveFlags,
            mandatoryFlagCount, optionalFlagCount, exclusiveMandatoryCount, exclusiveOptionalCount)
    }

    /** The argument counters count the arguments by policy. */
    ghost predicate ArgsCounted()
      reads this`args, this`mandatoryArgCount, this`optionalArgCount
    {
      && mandatoryArgCount == CountArgs(args, Mandatory)
      && optionalArgCount == CountArgs(args, Optional)
    }

    /**
     * The object invariant: the bookkeeping is consistent, there is one
     * cell per group, and the argument counters are right.
     */
    ghost predicate Valid()
      reads this
    {
      FlagsValid() && ArgsCounted()
    }

    /** The flag bookkeeping is consistent and there is one cell per group. */
    ghost predicate FlagsValid()
      reads this`flags, this`flagInsertionOrder, this`groups, this`exclusiveFlags
      reads this`mandatoryFlagCount, this`optionalFlagCount
      reads this`exclusiveMandatoryCount, this`exclusiveOptionalCount, this`groupCells
    {
      Consistent(Snapshot()) && |groupCells| == |groups|
    }

    /** The state of a freshly constructed composite. */
    ghost predicate Pristine()
      reads this
    {
      && flags == map[] && flagInsertionOrder == [] && exclusiveFlags == map[]
      && groupCells == [] && groups == [] && args == []
      && mandatoryFlagCount == 0 && optionalFlagCount == 0
      && exclusiveMandatoryCount == 0 && exclusiveOptionalCount == 1
      && mandatoryArgCount == 0 && optionalArgCount == 0
    }

    /** A composite in its initial state satisfies the invariant. */
    lemma PristineIsValid()
      requires Pristine()
      ensures Valid()
    {
      assert Snapshot() == Initial;
      InitialConsistent();
    }

    constructor (policy: Policy, description: string)
      ensures Valid() && Pristine()
      ensures fresh(token)
      ensures token.policy == policy && token.description == description
      ensures !token.parsed
    {
      token := new ParseToken(policy, description);
      flags, flagInsertionOrder, exclusiveFlags := map[], [], map[];
      groupCells, groups, args := [], [], [];
      mandatoryFlagCount, optionalFlagCount := 0, 0;
      exclusiveMandatoryCount, exclusiveOptionalCount := 0, 1;
      mandatoryArgCount, optionalArgCount := 0, 0;
    }

    function NumberMandatoryArgs(): (r: int)
      reads this
      requires Valid()
      ensures r == CountArgs(args, Mandatory)
    {
      mandatoryArgCount
    }

    function NumberOptionalArgs(): (r: int)
      reads this
      requires Valid()
      ensures r == CountArgs(args, Optional)
    {
      optionalArgCount
    }

    /** Mandatory child flags, less all but one mandatory member of each group. */
    function NumberMandatoryFlags(): (r: int)
      reads this
      requires Valid()
      ensures r == Count(flagInsertionOrder, PolicyTable(), Mandatory) - SumExcess(groups, PolicyTable(), Mandatory)
    {
      mandatoryFlagCount - exclusiveMandatoryCount
    }

    /** Optional child flags, less all but one optional member of each group, less one. */
    function NumberOptionalFlags(): (r: int)
      reads this
      requires Valid()
      ensures r == Count(flagInsertionOrder, PolicyTable(), Optional) - SumExcess(groups, PolicyTable(), Optional) - 1
    {
      optionalFlagCount - exclusiveOptionalCount
    }

    /**
     * When no name was added twice, no group repeats a name and no name was
     * put in two groups, a group counts as one flag: the mandatory count is
     * the ungrouped mandatory flags plus the groups with a mandatory member,
     * and the optional count is the same for optional flags, minus one.
     */
    lemma GroupCountsAsOneFlag()
      requires Valid()
      requires Distinct(flagInsertionOrder)
      requires Disjoint(groups)
      requires forall g :: g in groups ==> Distinct(g)
      ensures Covers(PolicyTable(), Select(flagInsertionOrder, exclusiveFlags.Keys, false))
      ensures GroupsCovered(PolicyTable(), groups)
      ensures NumberMandatoryFlags()
           == Count(Select(flagInsertionOrder, exclusiveFlags.Keys, false), PolicyTable(), Mandatory)
            + GroupsWith(groups, PolicyTable(), Mandatory)
      ensures NumberOptionalFlags()
           == Count(Select(flagInsertionOrder, exclusiveFlags.Keys, false), PolicyTable(), Optional)
            + GroupsWith(groups, PolicyTable(), Optional) - 1
    {
      GroupedUnits(flagInsertionOrder, PolicyTable(), groups, Mandatory);
      GroupedUnits(flagInsertionOrder, PolicyTable(), groups, Optional);
    }

    /**
     * Adds a child flag of the given kind under `name`. A name already bound
     * keeps its flag, and that flag is returned (a composite asked for as a
     * switch is returned as the composite it is); either way the name is
     * appended to the insertion order and the counter of the bound flag's
     * policy goes up by one (`AddFlagTo`).
     */
    method AddFlag(kind: FlagKind, name: string, policy: Policy, description: string) returns (added: FlagRef)
      requires Valid()
      requires name in flags && kind == ComplexKind ==> flags[name].Complex?
      modifies this`flags, this`flagInsertionOrder, this`mandatoryFlagCount, this`optionalFlagCount
      ensures Valid()
      ensures Snapshot() == AddFlagTo(old(Snapshot()), name, policy)
      ensures name !in old(flags) ==> KindOf(added) == kind
      ensures kind == ComplexKind ==> added.Complex?
      ensures name in old(flags) ==> flags == old(flags) && added == old(flags[name])
      ensures name !in old(flags) ==>
        && flags == old(flags)[name := added]
        && fresh(TokenOf(added))
        && PolicyOf(added) == policy
        && TokenOf(added).description == description
        && !TokenOf(added).parsed
      ensures name !in old(flags) && added.Switch? ==> fresh(added.flag)
      ensures name !in old(flags) && added.Complex? ==> fresh(added.complex) && added.complex.Pristine()
    {
      AddFlagKeepsConsistent(Snapshot(), name, policy);
      added := Register(kind, name, policy, description);
    }

    /**
     * The state change of `AddFlag`, without the invariant. It is a separate
     * method only to keep each proof small.
     */
    method Register(kind: FlagKind, name: string, policy: Policy, description: string) returns (added: FlagRef)
      requires name in flags && kind == ComplexKind ==> flags[name].Complex?
      modifies this`flags, this`flagInsertionOrder, this`mandatoryFlagCount, this`optionalFlagCount
      ensures Snapshot() == AddFlagTo(old(Snapshot()), name, policy)
      ensures name !in old(flags) ==> KindOf(added) == kind
      ensures kind == ComplexKind ==> added.Complex?
      ensures name in old(flags) ==> flags == old(flags) && added == old(flags[name])
      ensures name !in old(flags) ==>
        && flags == old(flags)[name := added]
        && fresh(TokenOf(added))
        && PolicyOf(added) == policy
        && TokenOf(added).description == description
        && !TokenOf(added).parsed
      ensures name !in old(flags) && added.Switch? ==> fresh(added.flag)
      ensures name !in old(flags) && added.Complex? ==> fresh(added.complex) && added.complex.Pristine()
    {
      ghost var before := Snapshot();
      added := BindFlag(kind, name, policy, description);
      CountFlag(PolicyOf(added));
      flagInsertionOrder := flagInsertionOrder + [name];
      assert Snapshot() == AddFlagTo(before, name, policy);
    }

    /** Counts one more child flag of policy `p`. */
    method CountFlag(p: Policy)
      modifies this`mandatoryFlagCount, this`optionalFlagCount
      ensures mandatoryFlagCount == old(mandatoryFlagCount) + (if p == Mandatory then 1 else 0)
      ensures optionalFlagCount == old(optionalFlagCount) + (if p == Optional then 1 else 0)
    {
      if p == Mandatory {
        mandatoryFlagCount := mandatoryFlagCount + 1;
      } else {
        optionalFlagCount := optionalFlagCount + 1;
      }
    }

    /**
     * Binds `name` to a new flag unless it is already bound, and returns the
     * flag it is bound to.
     */
    method BindFlag(kind: FlagKind, name: string, policy: Policy, description: string) returns (added: FlagRef)
      requires name in flags && kind == ComplexKind ==> flags[name].Complex?
      modifies this`flags
      ensures PolicyTable() == AddFlagTo(old(Snapshot()), name, policy).policies
      ensures name in flags && added == flags[name]
      ensures name !in old(flags) ==> KindOf(added) == kind
      ensures kind == ComplexKind ==> added.Complex?
      ensures name in old(flags) ==> flags == old(flags)
      ensures name !in old(flags) ==>
        && flags == old(flags)[name := added]
        && fresh(TokenOf(added))
        && PolicyOf(added) == policy
        && TokenOf(added).description == description
        && !TokenOf(added).parsed
      ensures name !in old(flags) && added.Switch? ==> fresh(added.flag)
      ensures name !in old(flags) && added.Complex? ==> fresh(added.complex) && added.complex.Pristine()
    {
      if name in flags {
        added := flags[name];
      } else {
        added := NewFlag(kind, policy, description);
        flags := flags[name := added];
      }
      assert PolicyTable() == AddFlagTo(old(Snapshot()), name, policy).policies;
    }

    /** Creates an unparsed flag of the given kind; a composite starts empty. */
    static method NewFlag(kind: FlagKind, policy: Policy, description: string) returns (added: FlagRef)
      ensures KindOf(added) == kind
      ensures fresh(TokenOf(added))
      ensures PolicyOf(added) == policy && TokenOf(added).description == description
      ensures !TokenOf(added).parsed
      ensures added.Switch? ==> fresh(added.flag)
      ensures added.Complex? ==> fresh(added.complex) && added.complex.Pristine()
    {
      if kind == SwitchKind {
        var f := new Flag(policy, description);
        added := Switch(f);
      } else {
        var c := new ComplexFlag(policy, description);
        added := Complex(c);
      }
    }

    /**
     * Appends a positional argument; arguments are matched in this order.
     * The counter of its policy goes up by one.
     */
    method AddArg<T(0)>(name: string, policy: Policy, description: string, convert: Converter<T>) returns (arg: Arg<T>)
      requires Valid()
      modifies this`args, this`mandatoryArgCount, this`optionalArgCount
      ensures Valid()
      ensures fresh(arg) && fresh(arg.token)
      ensures arg.name == name && arg.convert == convert
      ensures arg.token.policy == policy && arg.token.description == description && !arg.token.parsed
      ensures args == old(args) + [ArgSlot(arg, name, policy, description)]
      ensures policy == Mandatory ==>
        mandatoryArgCount == old(mandatoryArgCount) + 1 && optionalArgCount == old(optionalArgCount)
      ensures policy == Optional ==>
        optionalArgCount == old(optionalArgCount) + 1 && mandatoryArgCount == old(mandatoryArgCount)
    {
      arg := AppendArg(name, policy, description, convert);
    }

    /**
     * The state change of `AddArg`; it keeps the argument counters right. It
     * is a separate method only to keep each proof small.
     */
    method AppendArg<T(0)>(name: string, policy: Policy, description: string, convert: Converter<T>) returns (arg: Arg<T>)
      requires ArgsCounted()
      modifies this`args, this`mandatoryArgCount, this`optionalArgCount
      ensures ArgsCounted()
      ensures fresh(arg) && fresh(arg.token)
      ensures arg.name == name && arg.convert == convert
      ensures arg.token.policy == policy && arg.token.description == description && !arg.token.parsed
      ensures args == old(args) + [ArgSlot(arg, name, policy, description)]
      ensures policy == Mandatory ==>
        mandatoryArgCount == old(mandatoryArgCount) + 1 && optionalArgCount == old(optionalArgCount)
      ensures policy == Optional ==>
        optionalArgCount == old(optionalArgCount) + 1 && mandatoryArgCount == old(mandatoryArgCount)
    {
      arg := new Arg(name, policy, description, convert);
      args := args + [ArgSlot(arg, name, policy, description)];
      assert args[..|args| - 1] == old(args);
      CountArg(policy);
    }

    /** Counts one more argument of policy `p`. */
    method CountArg(p: Policy)
      modifies this`mandatoryArgCount, this`optionalArgCount
      ensures mandatoryArgCount == old(mandatoryArgCount) + (if p == Mandatory then 1 else 0)
      ensures optionalArgCount == old(optionalArgCount) + (if p == Optional then 1 else 0)
    {
      if p == Mandatory {
        mandatoryArgCount := mandatoryArgCount + 1;
      } else {
        optionalArgCount := optionalArgCount + 1;
      }
    }

    /**
     * Binds `name` to `group` unless it is already bound to a group, and
     * counts one more grouped flag of its policy either way.
     */
    method AddExclusive(name: string, group: nat)
      requires name in flags
      modifies this`exclusiveFlags, this`exclusiveMandatoryCount, this`exclusiveOptionalCount
      ensures exclusiveFlags == if name in old(exclusiveFlags) then old(exclusiveFlags)
                                else old(exclusiveFlags)[name := group]
      ensures PolicyOf(flags[name]) == Mandatory ==>
        exclusiveMandatoryCount == old(exclusiveMandatoryCount) + 1
        && exclusiveOptionalCount == old(exclusiveOptionalCount)
      ensures PolicyOf(flags[name]) == Optional ==>
        exclusiveOptionalCount == old(exclusiveOptionalCount) + 1
        && exclusiveMandatoryCount == old(exclusiveMandatoryCount)
    {
      if name !in exclusiveFlags {
        exclusiveFlags := exclusiveFlags[name := group];
      }
      if PolicyOf(flags[name]) == Mandatory {
        exclusiveMandatoryCount := exclusiveMandatoryCount + 1;
      } else {
        exclusiveOptionalCount := exclusiveOptionalCount + 1;
      }
    }

    /**
     * Applies `AddExclusive` to every name in turn: the bindings become
     * `Bind(old bindings, names, group)`, and each exclusive counter goes
     * up by the number of names of its policy.
     */
    method AddAllExclusive(names: seq<string>, group: nat)
      requires forall n :: n in names ==> n in flags
      modifies this`exclusiveFlags, this`exclusiveMandatoryCount, this`exclusiveOptionalCount
      ensures Covers(PolicyTable(), names)
      ensures exclusiveFlags == Bind(old(exclusiveFlags), names, group)
      ensures exclusiveMandatoryCount == old(exclusiveMandatoryCount) + Count(names, PolicyTable(), Mandatory)
      ensures exclusiveOptionalCount == old(exclusiveOptionalCount) + Count(names, PolicyTable(), Optional)
    {
      var i := 0;
      while i < |names|
        invariant 0 <= i <= |names|
        invariant exclusiveFlags == Bind(old(exclusiveFlags), names[..i], group)
        invariant exclusiveMandatoryCount == old(exclusiveMandatoryCount) + Count(names[..i], PolicyTable(), Mandatory)
        invariant exclusiveOptionalCount == old(exclusiveOptionalCount) + Count(names[..i], PolicyTable(), Optional)
      {
        AddExclusive(names[i], group);
        assert names[..i + 1][..i] == names[..i];
        assert names[..i + 1] == names[..i] + [names[i]];
        CountConcat(names[..i], [names[i]], PolicyTable(), Mandatory);
        CountConcat(names[..i], [names[i]], PolicyTable(), Optional);
        i := i + 1;
      }
      assert names[..i] == names;
    }

    /**
     * Makes the named child flags mutually exclusive (`MakeExclusiveIn`): a
     * fresh group with an unset cell, every name not yet grouped bound to
     * it, and each exclusive counter raised by all but one of the group's
     * members of its policy. Returns the group, which stands for the shared
     * cell.
     */
    method MakeExclusive(names: seq<string>) returns (group: nat)
      requires Valid()
      requires forall n :: n in names ==> n in flags
      modifies this`exclusiveFlags, this`exclusiveMandatoryCount, this`exclusiveOptionalCount
      modifies this`groupCells, this`groups
      ensures Valid()
      ensures Covers(old(Snapshot()).policies, names)
      ensures Snapshot() == MakeExclusiveIn(old(Snapshot()), names)
      ensures group == |old(groupCells)| && groupCells == old(groupCells) + [false]
    {
      ghost var before := Snapshot();
      assert Covers(before.policies, names);
      MakeExclusiveKeepsConsistent(before, names);
      group := OpenGroup(names);
    }

    /**
     * The state change of `MakeExclusive`: opens group number `|groups|`
     * with an unset cell, binds the names to it, and folds the size of the
     * group into the exclusive counters, decrementing each counter that the
     * group changed. It is a separate method only to keep each proof small.
     */
    method OpenGroup(names: seq<string>) returns (group: nat)
      requires |groupCells| == |groups|
      requires forall n :: n in names ==> n in flags
      modifies this`exclusiveFlags, this`exclusiveMandatoryCount, this`exclusiveOptionalCount
      modifies this`groupCells, this`groups
      ensures Covers(old(Snapshot()).policies, names)
      ensures Snapshot() == MakeExclusiveIn(old(Snapshot()), names)
      ensures group == |old(groupCells)| && groupCells == old(groupCells) + [false]
      ensures |groupCells| == |groups|
    {
      ghost var before := Snapshot();
      assert Covers(before.policies, names);
      var previousMandatory := exclusiveMandatoryCount;
      var previousOptional := exclusiveOptionalCount;
      group := |groupCells|;
      groupCells := groupCells + [false];
      AddAllExclusive(names, group);
      exclusiveMandatoryCount := Settle(previousMandatory, exclusiveMandatoryCount);
      exclusiveOptionalCount := Settle(previousOptional, exclusiveOptionalCount);
      groups := groups + [names];
      ghost var after := MakeExclusiveIn(before, names);
      assert Snapshot() == after;
    }
  }

  /**
   * The grammar root: a mandatory composite with an empty description, plus
   * the number of input tokens the last run consumed.
   */
  class ArgParser {
    const root: ComplexFlag
    var numberArgsSuccessfullyParsed: int

    constructor ()
      ensures fresh(root) && fresh(root.token)
      ensures root.Valid() && root.Pristine()
      ensures root.token.policy == Mandatory && root.token.description == "" && !root.token.parsed
      ensures numberArgsSuccessfullyParsed == 0
    {
      root := new ComplexFlag(Mandatory, "");
      numberArgsSuccessfullyParsed := 0;
    }

    function GetNumberArgsSuccessfullyParsed(): (r: int)
      reads this
      ensures r == numberArgsSuccessfullyParsed
    {
      numberArgsSuccessfullyParsed
    }
  }
}
