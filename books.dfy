/**
 * The bookkeeping of one composite flag, as a plain value: the policy of
 * every child flag, the insertion order, the exclusivity groups and their
 * bindings, and the four flag counters. `AddFlagTo` and `MakeExclusiveIn`
 * say what registering a flag and grouping flags do to it, and the lemmas
 * below show that both keep the counters equal to what the tables say.
 */
module Books {
  import opened Tokens
  import opened Counting

  datatype Books = Books(
    policies: map<string, Policy>,
    order: seq<string>,
    groups: seq<seq<string>>,
    bindings: map<string, nat>,
    mandatoryFlags: int,
    optionalFlags: int,
    exclusiveMandatory: int,
    exclusiveOptional: int)

  /** The bookkeeping of a freshly constructed composite. */
  const Initial: Books := Books(map[], [], [], map[], 0, 0, 0, 1)

  /**
   * Groups name only flags in `keys`, and `ex` binds exactly the grouped
   * names, each to the first group that named it.
   */
  ghost predicate Bindings(keys: set<string>, gs: seq<seq<string>>, ex: map<string, nat>) {
    && (forall g, n :: g in gs && n in g ==> n in keys)
    && ex.Keys == Grouped(gs)
    && (forall n :: n in ex ==> ex[n] < |gs| && n in gs[ex[n]])
    && (forall n, i :: n in ex && 0 <= i < ex[n] ==> n !in gs[i])
  }

  /**
   * The insertion order lists exactly the flags that have a policy, the
   * bindings agree with the groups, and every counter is what the tables
   * say; the exclusive optional counter starts from one.
   */
  ghost predicate Consistent(b: Books) {
    && Covers(b.policies, b.order)
    && (forall n :: n in b.policies ==> n in b.order)
    && Bindings(b.policies.Keys, b.groups, b.bindings)
    && GroupsCovered(b.policies, b.groups)
    && b.mandatoryFlags == Count(b.order, b.policies, Mandatory)
    && b.optionalFlags == Count(b.order, b.policies, Optional)
    && b.exclusiveMandatory == SumExcess(b.groups, b.policies, Mandatory)
    && b.exclusiveOptional == 1 + SumExcess(b.groups, b.policies, Optional)
  }

  /**
   * Registering a flag under `name` with policy `p`: a new name gets
   * policy `p`, a name already bound keeps its own; the name is appended to
   * the order either way, and the counter of the bound policy goes up.
   */
  function AddFlagTo(b: Books, name: string, p: Policy): Books {
    var bound := if name in b.policies then b.policies[name] else p;
    b.(policies := b.policies[name := bound],
       order := b.order + [name],
       mandatoryFlags := b.mandatoryFlags + (if bound == Mandatory then 1 else 0),
       optionalFlags := b.optionalFlags + (if bound == Optional then 1 else 0))
  }

  /**
   * Inserting each of `names` in turn into the bindings, where an insertion
   * leaves a name that is already bound alone.
   */
  function Bind(ex: map<string, nat>, names: seq<string>, group: nat): (r: map<string, nat>)
    ensures r.Keys == ex.Keys + Members(names)
    ensures forall n :: n in ex ==> r[n] == ex[n]
    ensures forall n :: n in r && n !in ex ==> r[n] == group
  {
    if names == [] then ex
    else
      var before := Bind(ex, names[..|names| - 1], group);
      var n := names[|names| - 1];
      assert names == names[..|names| - 1] + [n];
      if n in before then before else before[n := group]
  }

  /**
   * Grouping `names`: one more group, the names not yet bound are bound to
   * it, and each exclusive counter goes up by all but one of the group's
   * members of its policy.
   */
  function MakeExclusiveIn(b: Books, names: seq<string>): Books
    requires Covers(b.policies, names)
  {
    b.(groups := b.groups + [names],
       bindings := Bind(b.bindings, names, |b.groups|),
       exclusiveMandatory := b.exclusiveMandatory + Excess(Count(names, b.policies, Mandatory)),
       exclusiveOptional := b.exclusiveOptional + Excess(Count(names, b.policies, Optional)))
  }

  lemma InitialConsistent()
    ensures Consistent(Initial)
  {
  }

  /**
   * Binding a new name leaves every count over old names as it was, which is
   * why adding a flag never disturbs the counters of earlier flags or groups.
   */
  lemma ExtendTable(order: seq<string>, gs: seq<seq<string>>, t: map<string, Policy>, name: string, p: Policy)
    requires name !in t && Covers(t, order) && GroupsCovered(t, gs)
    ensures Covers(t[name := p], order) && GroupsCovered(t[name := p], gs)
    ensures forall q :: Count(order, t[name := p], q) == Count(order, t, q)
    ensures forall q :: SumExcess(gs, t[name := p], q) == SumExcess(gs, t, q)
  {
    forall q: Policy
      ensures Count(order, t[name := p], q) == Count(order, t, q)
      ensures SumExcess(gs, t[name := p], q) == SumExcess(gs, t, q)
    {
      CountFrame(order, t[name := p], t, q);
      SumExcessFrame(gs, t[name := p], t, q);
    }
  }

  /** Registering a flag keeps the bookkeeping consistent. */
  lemma AddFlagKeepsConsistent(b: Books, name: string, p: Policy)
    requires Consistent(b)
    ensures Consistent(AddFlagTo(b, name, p))
  {
    var b2 := AddFlagTo(b, name, p);
    if name !in b.policies {
      ExtendTable(b.order, b.groups, b.policies, name, p);
    } else {
      assert b2.policies == b.policies;
    }
    CountConcat(b.order, [name], b2.policies, Mandatory);
    CountConcat(b.order, [name], b2.policies, Optional);
  }

  /** Binding the new names of one more group to it keeps the bindings right. */
  lemma BindGroup(keys: set<string>, gs: seq<seq<string>>, ex: map<string, nat>, names: seq<string>)
    requires Bindings(keys, gs, ex)
    requires forall n :: n in names ==> n in keys
    ensures Bindings(keys, gs + [names], Bind(ex, names, |gs|))
  {
    var gs2, ex2 := gs + [names], Bind(ex, names, |gs|);
    assert gs2[..|gs2| - 1] == gs;
    assert Grouped(gs2) == Grouped(gs) + Members(names);
    forall g, n | g in gs2 && n in g
      ensures n in keys
    {
      if g != names {
        assert g in gs;
      }
    }
    forall n | n in ex2
      ensures ex2[n] < |gs2| && n in gs2[ex2[n]]
    {
      if n in ex {
        assert gs2[ex[n]] == gs[ex[n]];
      }
    }
    forall n, i | n in ex2 && 0 <= i < ex2[n]
      ensures n !in gs2[i]
    {
      assert gs2[i] == gs[i];
      if n !in ex {
        assert n !in Grouped(gs);
        assert gs[i] in gs;
      }
    }
  }

  /** Grouping flags keeps the bookkeeping consistent. */
  lemma MakeExclusiveKeepsConsistent(b: Books, names: seq<string>)
    requires Consistent(b) && Covers(b.policies, names)
    ensures Consistent(MakeExclusiveIn(b, names))
  {
    BindGroup(b.policies.Keys, b.groups, b.bindings, names);
    assert (b.groups + [names])[..|b.groups|] == b.groups;
  }
}
