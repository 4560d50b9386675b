/**
 * What the policy counters of a composite flag mean. A composite keeps the
 * names of its child flags in insertion order and groups some of them into
 * exclusivity groups; its counters count child flags by policy and subtract,
 * per group, all but one of the group's members of each policy. The
 * functions here define those quantities on plain values, and the main
 * theorem, `GroupedUnits`, shows that the result counts every ungrouped flag
 * once and every group once.
 */
module Counting {
  import opened Tokens

  /** No name occurs twice. */
  predicate Distinct(s: seq<string>) {
    forall i, j :: 0 <= i < j < |s| ==> s[i] != s[j]
  }

  /** Every name of `s` has a policy in `t`. */
  predicate Covers(t: map<string, Policy>, s: seq<string>) {
    forall n :: n in s ==> n in t
  }

  /** Every group has all its names in `t`. */
  predicate GroupsCovered(t: map<string, Policy>, gs: seq<seq<string>>) {
    forall g :: g in gs ==> Covers(t, g)
  }

  /** The number of positions of `s` whose name has policy `p`. */
  function Count(s: seq<string>, t: map<string, Policy>, p: Policy): (r: nat)
    requires Covers(t, s)
    ensures r <= |s|
  {
    if s == [] then 0 else (if t[s[0]] == p then 1 else 0) + Count(s[1..], t, p)
  }

  /** The names of `s`, in order, that are in `names` (if `inside`) or not in it. */
  function Select(s: seq<string>, names: set<string>, inside: bool): (r: seq<string>)
    ensures forall n :: n in r <==> n in s && (n in names) == inside
    ensures Distinct(s) ==> Distinct(r)
    ensures |r| <= |s|
  {
    if s == [] then []
    else
      var rest := Select(s[1..], names, inside);
      if (s[0] in names) == inside then
        assert Distinct(s) ==> s[0] !in s[1..];
        [s[0]] + rest
      else
        rest
  }

  /**
   * All but one of `k` members, or none when there are none: a group adds
   * nothing exactly when it has at most one member.
   */
  function Excess(k: nat): (r: nat)
    ensures r == 0 <==> k <= 1
    ensures k > 0 ==> r + 1 == k
  {
    if k == 0 then 0 else k - 1
  }

  /** What a sequence of groups subtracts from the count of policy `p`. */
  function SumExcess(gs: seq<seq<string>>, t: map<string, Policy>, p: Policy): (r: nat)
    requires GroupsCovered(t, gs)
  {
    if gs == [] then 0
    else SumExcess(gs[..|gs| - 1], t, p) + Excess(Count(gs[|gs| - 1], t, p))
  }

  /** The number of groups with at least one member of policy `p`. */
  function GroupsWith(gs: seq<seq<string>>, t: map<string, Policy>, p: Policy): (r: nat)
    requires GroupsCovered(t, gs)
    ensures r <= |gs|
  {
    if gs == [] then 0
    else GroupsWith(gs[..|gs| - 1], t, p) + (if Count(gs[|gs| - 1], t, p) > 0 then 1 else 0)
  }

  /** The names of one group, as a set. */
  function Members(g: seq<string>): (r: set<string>)
    ensures forall n :: n in r <==> n in g
  {
    set n | n in g
  }

  /** The names that belong to some group. */
  function Grouped(gs: seq<seq<string>>): (r: set<string>)
    ensures forall g, n :: g in gs && n in g ==> n in r
  {
    if gs == [] then {}
    else Grouped(gs[..|gs| - 1]) + Members(gs[|gs| - 1])
  }

  /** No name of `g` is in `used`. */
  predicate Unused(g: seq<string>, used: set<string>) {
    forall n :: n in g ==> n !in used
  }

  /** Every group uses only names that no earlier group used. */
  predicate Disjoint(gs: seq<seq<string>>) {
    gs == [] ||
    (Disjoint(gs[..|gs| - 1]) && Unused(gs[|gs| - 1], Grouped(gs[..|gs| - 1])))
  }

  lemma {:induction false} CountConcat(a: seq<string>, b: seq<string>, t: map<string, Policy>, p: Policy)
    requires Covers(t, a) && Covers(t, b)
    ensures Covers(t, a + b)
    ensures Count(a + b, t, p) == Count(a, t, p) + Count(b, t, p)
  {
    if a == [] {
      assert a + b == b;
    } else {
      assert (a + b)[1..] == a[1..] + b;
      CountConcat(a[1..], b, t, p);
    }
  }

  /** Every position is counted under exactly one of the two policies. */
  lemma {:induction false} CountPartition(s: seq<string>, t: map<string, Policy>)
    requires Covers(t, s)
    ensures Count(s, t, Mandatory) + Count(s, t, Optional) == |s|
  {
    if s != [] {
      CountPartition(s[1..], t);
    }
  }

  /** When every name has policy `p`, every position is counted. */
  lemma {:induction false} CountUniform(s: seq<string>, t: map<string, Policy>, p: Policy)
    requires Covers(t, s)
    requires forall n :: n in s ==> t[n] == p
    ensures Count(s, t, p) == |s|
  {
    if s != [] {
      CountUniform(s[1..], t, p);
    }
  }

  /** The count depends only on the policies of the names that occur. */
  lemma {:induction false} CountFrame(s: seq<string>, t: map<string, Policy>, u: map<string, Policy>, p: Policy)
    requires Covers(t, s) && Covers(u, s)
    requires forall n :: n in s ==> t[n] == u[n]
    ensures Count(s, t, p) == Count(s, u, p)
  {
    if s != [] {
      CountFrame(s[1..], t, u, p);
    }
  }

  lemma {:induction false} SumExcessFrame(gs: seq<seq<string>>, t: map<string, Policy>, u: map<string, Policy>, p: Policy)
    requires GroupsCovered(t, gs) && GroupsCovered(u, gs)
    requires forall g, n :: g in gs && n in g ==> t[n] == u[n]
    ensures SumExcess(gs, t, p) == SumExcess(gs, u, p)
  {
    if gs != [] {
      var last := gs[|gs| - 1];
      assert last in gs;
      SumExcessFrame(gs[..|gs| - 1], t, u, p);
      CountFrame(last, t, u, p);
    }
  }

  /** Splitting a sequence by membership in a set splits its count. */
  lemma {:induction false} CountSelect(s: seq<string>, names: set<string>, t: map<string, Policy>, p: Policy)
    requires Covers(t, s)
    ensures Covers(t, Select(s, names, false)) && Covers(t, Select(s, names, true))
    ensures Count(s, t, p) == Count(Select(s, names, false), t, p) + Count(Select(s, names, true), t, p)
  {
    if s != [] {
      CountSelect(s[1..], names, t, p);
    }
  }

  lemma {:induction false} SelectNothing(s: seq<string>)
    ensures Select(s, {}, false) == s
  {
    if s != [] {
      SelectNothing(s[1..]);
    }
  }

  lemma {:induction false} SelectTwice(s: seq<string>, a: set<string>, b: set<string>)
    ensures Select(Select(s, a, false), b, false) == Select(s, a + b, false)
  {
    if s != [] {
      SelectTwice(s[1..], a, b);
    }
  }

  /** `s` with position `i` taken out. */
  function Remove(s: seq<string>, i: nat): (r: seq<string>)
    requires i < |s|
    ensures |r| == |s| - 1
    ensures forall n :: n in r ==> n in s
    ensures Distinct(s) ==> Distinct(r) && forall n :: n in s ==> (n in r <==> n != s[i])
  {
    var r := s[..i] + s[i + 1..];
    assert forall j :: 0 <= j < |r| ==> r[j] == s[if j < i then j else j + 1];
    assert forall j :: 0 <= j < |s| && j != i ==> s[j] == r[if j < i then j else j - 1];
    r
  }

  /** Taking out one position takes its name out of the count. */
  lemma {:induction false} CountRemove(s: seq<string>, i: nat, t: map<string, Policy>, p: Policy)
    requires i < |s| && Covers(t, s)
    ensures Covers(t, Remove(s, i))
    ensures Count(s, t, p) == (if t[s[i]] == p then 1 else 0) + Count(Remove(s, i), t, p)
  {
    assert s == s[..i] + ([s[i]] + s[i + 1..]);
    CountConcat(s[..i], [s[i]] + s[i + 1..], t, p);
    assert ([s[i]] + s[i + 1..])[1..] == s[i + 1..];
    CountConcat(s[..i], s[i + 1..], t, p);
  }

  /** Two repetition-free sequences of the same names count the same. */
  lemma {:induction false} CountSameNames(a: seq<string>, b: seq<string>, t: map<string, Policy>, p: Policy)
    requires Covers(t, a) && Distinct(a) && Distinct(b)
    requires forall n :: n in a <==> n in b
    ensures Covers(t, b)
    ensures Count(a, t, p) == Count(b, t, p)
    decreases |a|
  {
    if a != [] {
      assert a[0] in b;
      var i :| 0 <= i < |b| && b[i] == a[0];
      var a', b' := Remove(a, 0), Remove(b, i);
      assert a' == a[1..];
      CountSameNames(a', b', t, p);
      CountRemove(b, i, t, p);
    }
  }

  /**
   * A composite's flag count minus what its groups subtract equals the number
   * of ungrouped flags plus the number of groups, all of policy `p`: a group
   * counts as one flag. This holds when no name was added twice, no group
   * repeats a name, every grouped name is a flag, and no name is put in two
   * groups.
   */
  lemma {:induction false} GroupedUnits(order: seq<string>, t: map<string, Policy>, gs: seq<seq<string>>, p: Policy)
    requires Covers(t, order) && Distinct(order)
    requires forall g :: g in gs ==> Distinct(g) && forall n :: n in g ==> n in order
    requires Disjoint(gs)
    ensures GroupsCovered(t, gs)
    ensures Covers(t, Select(order, Grouped(gs), false))
    ensures Count(order, t, p) - SumExcess(gs, t, p)
         == Count(Select(order, Grouped(gs), false), t, p) + GroupsWith(gs, t, p)
  {
    if gs == [] {
      SelectNothing(order);
    } else {
      var init, g := gs[..|gs| - 1], gs[|gs| - 1];
      assert g in gs;
      assert forall h :: h in init ==> h in gs;
      GroupedUnits(order, t, init, p);
      var members := Members(g);
      var u := Select(order, Grouped(init), false);
      CountSelect(u, members, t, p);
      SelectTwice(order, Grouped(init), members);
      assert Grouped(gs) == Grouped(init) + members;
      var w := Select(u, members, true);
      CountSameNames(g, w, t, p);
    }
  }
}
