/**
 * The constraint-satisfaction framework of chapter 3. A problem has a list
 * of variables, a domain (a list of candidate values) for each variable, and
 * for each variable the list of constraints that mention it. A solution is
 * found by backtracking: the first unassigned variable is given each value
 * of its domain in turn, and the search goes deeper whenever the constraints
 * of that variable still hold.
 *
 * An assignment is a map from variables to values. A constraint is its
 * scope (the variables it mentions) and its test on assignments; the test is
 * a total function, which is how every concrete constraint of the chapter
 * behaves.
 */
module Csp {
  import opened Wrappers

  datatype Constraint<!V, !D> = Constraint(variables: seq<V>, satisfied: map<V, D> -> bool)

  /** The exceptions the solver raises. */
  datatype CspError = LookupError | KeyError | IndexError

  predicate Distinct<V(==)>(s: seq<V>)
  {
    forall i, j :: 0 <= i < j < |s| ==> s[i] != s[j]
  }

  /** `a` and `b` agree on whether, and to what, each variable of vs is assigned. */
  ghost predicate Agree<V, D>(vs: seq<V>, a: map<V, D>, b: map<V, D>)
  {
    forall w :: w in vs ==> (w in a <==> w in b) && (w in a ==> a[w] == b[w])
  }

  /** Every assignment of `a` is also in `b`. */
  ghost predicate SubMap<V, D>(a: map<V, D>, b: map<V, D>)
  {
    forall v :: v in a ==> v in b && a[v] == b[v]
  }

  /**
   * Among assignments to the variables of vs, the test of c depends only on
   * the variables of its scope.
   */
  ghost predicate LocalIn<V(!new), D(!new)>(c: Constraint<V, D>, vs: set<V>)
  {
    forall a: map<V, D>, b: map<V, D> | a.Keys <= vs && b.Keys <= vs && Agree(c.variables, a, b) ::
      c.satisfied(a) == c.satisfied(b)
  }

  /**
   * Among assignments to the variables of vs, removing assignments never
   * turns a satisfied test into a failed one.
   */
  ghost predicate DownClosedIn<V(!new), D(!new)>(c: Constraint<V, D>, vs: set<V>)
  {
    forall a: map<V, D>, b: map<V, D> | b.Keys <= vs && SubMap(a, b) && c.satisfied(b) :: c.satisfied(a)
  }

  /** The constraints attached to `v`, in front, then `c` once more for every occurrence of v in vs. */
  function Attach<V(==), D>(cs: map<V, seq<Constraint<V, D>>>, vs: seq<V>, c: Constraint<V, D>): (r: map<V, seq<Constraint<V, D>>>)
    requires forall v :: v in vs ==> v in cs
    ensures r.Keys == cs.Keys
  {
    if vs == [] then cs
    else
      var m := Attach(cs, vs[..|vs| - 1], c);
      var v := vs[|vs| - 1];
      m[v := m[v] + [c]]
  }

  /** How many times v occurs in vs. */
  function Count<V(==)>(v: V, vs: seq<V>): nat
  {
    if vs == [] then 0 else Count(v, vs[..|vs| - 1]) + (if vs[|vs| - 1] == v then 1 else 0)
  }

  lemma CountPositive<V>(v: V, vs: seq<V>)
    ensures Count(v, vs) > 0 <==> v in vs
  {
    if vs != [] {
      CountPositive(v, vs[..|vs| - 1]);
      assert vs == vs[..|vs| - 1] + [vs[|vs| - 1]];
    }
  }

  /** Attaching appends c to the list of w once per occurrence of w, and keeps what was there. */
  lemma {:induction false} AttachAt<V, D>(cs: map<V, seq<Constraint<V, D>>>, vs: seq<V>, c: Constraint<V, D>, w: V)
    requires forall v :: v in vs ==> v in cs
    requires w in cs
    ensures Attach(cs, vs, c)[w] == cs[w] + seq(Count(w, vs), _ => c)
  {
    if vs != [] {
      var front := vs[..|vs| - 1];
      AttachAt(cs, front, c, w);
      if vs[|vs| - 1] == w {
        assert seq(Count(w, vs), _ => c) == seq(Count(w, front), _ => c) + [c];
      }
    }
  }

  /** The index of the first variable of vs that is not in variables, or |vs| when there is none. */
  function FirstMissing<V(==)>(vs: seq<V>, variables: seq<V>): (k: nat)
    ensures k <= |vs|
    ensures forall i :: 0 <= i < k ==> vs[i] in variables
    ensures k < |vs| ==> vs[k] !in variables
  {
    if vs == [] || vs[0] !in variables then 0 else 1 + FirstMissing(vs[1..], variables)
  }

  /** The first i variables are in variables and the next one, if any, is not. */
  lemma FirstMissingAt<V>(vs: seq<V>, variables: seq<V>, i: int)
    requires 0 <= i <= |vs| && (forall j :: 0 <= j < i ==> vs[j] in variables)
    requires i < |vs| ==> vs[i] !in variables
    ensures FirstMissing(vs, variables) == i
    ensures vs[..i] == vs[..FirstMissing(vs, variables)]
  {
    var k := FirstMissing(vs, variables);
    assert k >= i;
  }

  /** Attaching one more variable of the scope. */
  lemma AttachSnoc<V, D>(cs: map<V, seq<Constraint<V, D>>>, vs: seq<V>, i: int, c: Constraint<V, D>)
    requires 0 <= i < |vs| && forall j :: 0 <= j <= i ==> vs[j] in cs
    ensures var m := Attach(cs, vs[..i], c); Attach(cs, vs[..i + 1], c) == m[vs[i] := m[vs[i]] + [c]]
  {
    assert vs[..i + 1][..i] == vs[..i];
  }

  class CSP<V(==, !new), D(!new)> {
    const variables: seq<V>
    const domains: map<V, seq<D>>
    var constraints: map<V, seq<Constraint<V, D>>>

    function VarSet(): set<V>
    {
      set v | v in variables
    }

    /** Every variable has a domain, and the constraint lists are keyed by exactly the variables. */
    ghost predicate Valid()
      reads this
    {
      && (forall v :: v in variables ==> v in domains)
      && constraints.Keys == VarSet()
    }

    /** Every constraint attached to a variable is attached to each variable of its scope in the problem. */
    ghost predicate Attached()
      reads this
    {
      forall v, k, w :: v in constraints && 0 <= k < |constraints[v]| && w in constraints[v][k].variables && w in constraints
                        ==> constraints[v][k] in constraints[w]
    }

    /** Every attached constraint depends only on its scope. */
    ghost predicate AllLocal()
      reads this
    {
      forall v, k :: v in constraints && 0 <= k < |constraints[v]| ==> LocalIn(constraints[v][k], VarSet())
    }

    /** Every attached constraint stays satisfied when assignments are removed. */
    ghost predicate AllDownClosed()
      reads this
    {
      forall v, k :: v in constraints && 0 <= k < |constraints[v]| ==> DownClosedIn(constraints[v][k], VarSet())
    }

    /** `a` satisfies every constraint attached to each variable it assigns. */
    ghost predicate Checked(a: map<V, D>)
      reads this
    {
      forall v, k :: v in a && v in constraints && 0 <= k < |constraints[v]| ==> constraints[v][k].satisfied(a)
    }

    /** A complete assignment satisfying every constraint. */
    ghost predicate Solution(s: map<V, D>)
      reads this
    {
      s.Keys == VarSet() && Checked(s)
    }

    /** `s` keeps the assignments of `a` and gives every other variable a value of its domain. */
    ghost predicate Extends(a: map<V, D>, s: map<V, D>)
      reads this
    {
      SubMap(a, s) && forall v :: v in s && v !in a ==> v in domains && s[v] in domains[v]
    }

    constructor Init(variables: seq<V>, domains: map<V, seq<D>>, constraints: map<V, seq<Constraint<V, D>>>)
      ensures this.variables == variables && this.domains == domains && this.constraints == constraints
    {
      this.variables := variables;
      this.domains := domains;
      this.constraints := constraints;
    }

    /**
     * `CSP(variables, domains)`: every variable starts with an empty list of
     * constraints; a variable without a domain is a LookupError.
     */
    static method Create(variables: seq<V>, domains: map<V, seq<D>>) returns (r: Result<CSP<V, D>, CspError>)
      ensures r.Ok? <==> forall v :: v in variables ==> v in domains
      ensures r.Err? ==> r.error == LookupError
      ensures r.Ok? ==> && fresh(r.value)
                        && r.value.variables == variables && r.value.domains == domains
                        && r.value.constraints.Keys == r.value.VarSet()
                        && (forall v :: v in r.value.constraints ==> r.value.constraints[v] == [])
                        && r.value.Valid() && r.value.Attached()
    {
      var cs: map<V, seq<Constraint<V, D>>> := map[];
      for i := 0 to |variables|
        invariant cs.Keys == set v | v in variables[..i]
        invariant forall v :: v in cs ==> cs[v] == []
        invariant forall v :: v in variables[..i] ==> v in domains
      {
        assert variables[..i + 1] == variables[..i] + [variables[i]];
        cs := cs[variables[i] := []];
        if variables[i] !in domains {
          return Err(LookupError);
        }
      }
      assert variables[..|variables|] == variables;
      var csp := new CSP.Init(variables, domains, cs);
      return Ok(csp);
    }

    /**
     * `add_constraint(c)`: c is appended to the list of each variable of its
     * scope, in scope order. A scope variable outside the problem is a
     * LookupError, raised after the variables before it were updated.
     */
    method AddConstraint(c: Constraint<V, D>) returns (err: Option<CspError>)
      requires Valid()
      modifies this
      ensures Valid()
      ensures err.None? <==> forall w :: w in c.variables ==> w in variables
      ensures err.Some? ==> err.value == LookupError
      ensures constraints == Attach(old(constraints), c.variables[..FirstMissing(c.variables, variables)], c)
    {
      var vs := c.variables;
      for i := 0 to |vs|
        invariant forall j :: 0 <= j < i ==> vs[j] in variables
        invariant constraints == Attach(old(constraints), vs[..i], c)
        invariant Valid()
      {
        if vs[i] !in variables {
          FirstMissingAt(vs, variables, i);
          return Some(LookupError);
        }
        AttachSnoc(old(constraints), vs, i, c);
        constraints := constraints[vs[i] := constraints[vs[i]] + [c]];
      }
      FirstMissingAt(vs, variables, |vs|);
      return None;
    }

    /** A successful `add_constraint` keeps every constraint attached to all the variables of its scope. */
    lemma AddConstraintAttached(old_constraints: map<V, seq<Constraint<V, D>>>, c: Constraint<V, D>)
      requires Valid()
      requires forall w :: w in c.variables ==> w in variables
      requires old_constraints.Keys == VarSet()
      requires forall v, k, w :: v in old_constraints && 0 <= k < |old_constraints[v]| && w in old_constraints[v][k].variables && w in old_constraints
                                 ==> old_constraints[v][k] in old_constraints[w]
      requires constraints == Attach(old_constraints, c.variables, c)
      ensures Attached()
      ensures forall w :: w in c.variables ==> c in constraints[w]
    {
      forall w | w in c.variables ensures c in constraints[w] {
        AttachAt(old_constraints, c.variables, c, w);
        CountPositive(w, c.variables);
        assert constraints[w][|old_constraints[w]|] == c;
      }
      forall v, k, w | v in constraints && 0 <= k < |constraints[v]| && w in constraints[v][k].variables && w in constraints
        ensures constraints[v][k] in constraints[w]
      {
        AttachAt(old_constraints, c.variables, c, v);
        AttachAt(old_constraints, c.variables, c, w);
        if k < |old_constraints[v]| {
          var d := old_constraints[v][k];
          assert constraints[v][k] == d;
          assert d in old_constraints[w];
          var j :| 0 <= j < |old_constraints[w]| && old_constraints[w][j] == d;
          assert constraints[w][j] == d;
        } else {
          assert constraints[v][k] == c;
        }
      }
    }

    /**
     * `consistent(variable, a)`: whether a satisfies every constraint
     * attached to the variable; a variable outside the problem is a KeyError.
     */
    method Consistent(variable: V, a: map<V, D>) returns (r: Result<bool, CspError>)
      ensures r.Ok? <==> variable in constraints
      ensures r.Err? ==> r.error == KeyError
      ensures r.Ok? ==> (r.value <==> forall k :: 0 <= k < |constraints[variable]| ==> constraints[variable][k].satisfied(a))
    {
      if variable !in constraints {
        return Err(KeyError);
      }
      var cs := constraints[variable];
      for k := 0 to |cs|
        invariant forall j :: 0 <= j < k ==> cs[j].satisfied(a)
      {
        if !cs[k].satisfied(a) {
          return Ok(false);
        }
      }
      return Ok(true);
    }

    /** `[v for v in variables if v not in a]`. */
    function Unassigned(a: map<V, D>): (r: seq<V>)
      ensures forall v :: v in r <==> v in variables && v !in a
      ensures |r| > 0 ==> r[0] in variables && r[0] !in a
    {
      Filter(variables, a)
    }

    /**
     * `backtracking_search(a)`. A complete-looking assignment (as many entries
     * as variables) is returned as it is. Otherwise the first unassigned
     * variable receives each value of its domain in order, on a copy of a;
     * the search recurses whenever that variable's constraints hold and
     * returns the first solution found. With no unassigned variable left (a
     * repeated variable, or a key outside the problem) the list lookup is an
     * IndexError.
     */
    method BacktrackingSearch(a: map<V, D>) returns (r: Result<Option<map<V, D>>, CspError>)
      requires Valid()
      decreases |VarSet() - a.Keys|, 2
      ensures r.Err? ==> r.error == IndexError
      ensures Proper(a) ==> r.Ok?
      ensures r.Ok? && r.value.Some? ==> Extends(a, r.value.value)
      ensures Proper(a) && r.Ok? && r.value.Some? ==> r.value.value.Keys == VarSet()
      ensures Proper(a) && Attached() && AllLocal() && Checked(a) && r.Ok? && r.value.Some? ==> Solution(r.value.value)
      ensures Proper(a) && AllDownClosed() && r == Ok(None) ==> NoSolutionFrom(a)
    {
      if |a| == |variables| {
        if Proper(a) {
          FullWhenSameSize(a);
        }
        return Ok(Some(a));
      }
      var unassigned := Unassigned(a);
      if unassigned == [] {
        if Proper(a) {
          FullWhenSameSize(a);
        }
        return Err(IndexError);
      }
      r := TryDomain(a, unassigned[0]);
    }

    /**
     * The loop of `backtracking_search(a)` over the domain of `first`: each
     * value in order, on a copy of a, with a recursive search whenever the
     * constraints of `first` hold; the first solution found is returned.
     */
    method TryDomain(a: map<V, D>, first: V) returns (r: Result<Option<map<V, D>>, CspError>)
      requires Valid() && first in variables && first !in a
      decreases |VarSet() - a.Keys|, 1
      ensures r.Err? ==> r.error == IndexError
      ensures Proper(a) ==> r.Ok?
      ensures r.Ok? && r.value.Some? ==> Extends(a, r.value.value)
      ensures Proper(a) && r.Ok? && r.value.Some? ==> r.value.value.Keys == VarSet()
      ensures Proper(a) && Attached() && AllLocal() && Checked(a) && r.Ok? && r.value.Some? ==> Solution(r.value.value)
      ensures Proper(a) && AllDownClosed() && r == Ok(None) ==> NoSolutionFrom(a)
    {
      var dom := domains[first];
      for i := 0 to |dom|
        invariant Proper(a) && AllDownClosed() ==> FailedBefore(a, first, i)
      {
        var result := TryValue(a, first, dom[i]);
        if result.Err? || result.value.Some? {
          return result;
        }
        if Proper(a) && AllDownClosed() {
          FailedStep(a, first, i);
        }
      }
      if Proper(a) && AllDownClosed() {
        AllValuesFail(a, first);
      }
      return Ok(None);
    }

    /**
     * One turn of that loop: assign `value` to `first` on a copy of a and,
     * when the constraints of `first` hold there, search on from the copy.
     * `Ok(None)` means the value leads nowhere.
     */
    method TryValue(a: map<V, D>, first: V, value: D) returns (r: Result<Option<map<V, D>>, CspError>)
      requires Valid() && first in variables && first !in a && value in domains[first]
      decreases |VarSet() - a.Keys|, 0
      ensures r.Err? ==> r.error == IndexError
      ensures Proper(a) ==> r.Ok?
      ensures r.Ok? && r.value.Some? ==> Extends(a, r.value.value)
      ensures Proper(a) && r.Ok? && r.value.Some? ==> r.value.value.Keys == VarSet()
      ensures Proper(a) && Attached() && AllLocal() && Checked(a) && r.Ok? && r.value.Some? ==> Solution(r.value.value)
      ensures Proper(a) && AllDownClosed() && r == Ok(None) ==> NoSolutionFrom(a[first := value])
    {
      var local := a[first := value];
      OneMore(a, first, value);
      var ok := Consistent(first, local);
      // every variable has an entry in the constraint map, so the lookup cannot fail
      assert ok.Ok?;
      if !ok.value {
        if Proper(a) && AllDownClosed() {
          RejectedHasNoSolution(a, first, value);
        }
        return Ok(None);
      }
      r := BacktrackingSearch(local);
      if r.Ok? && r.value.Some? {
        FoundStep(a, first, value, r.value.value);
      }
    }

    /** The assignment only holds variables of the problem, whose variables are listed once each. */
    ghost predicate Proper(a: map<V, D>)
      reads this
    {
      Distinct(variables) && a.Keys <= VarSet()
    }

    /** No solution keeps the assignments of `a`. */
    ghost predicate NoSolutionFrom(a: map<V, D>)
      reads this
    {
      forall s :: Extends(a, s) ==> !Solution(s)
    }

    /** No value before the i-th of the variable's domain leads to a solution. */
    ghost predicate FailedBefore(a: map<V, D>, first: V, i: int)
      reads this
    {
      first in domains && forall j :: 0 <= j < i && j < |domains[first]| ==> NoSolutionFrom(a[first := domains[first][j]])
    }

    lemma FailedStep(a: map<V, D>, first: V, i: int)
      requires first in domains && 0 <= i < |domains[first]|
      requires FailedBefore(a, first, i) && NoSolutionFrom(a[first := domains[first][i]])
      ensures FailedBefore(a, first, i + 1)
    {
    }

    /** A proper assignment is complete exactly when it has as many entries as there are variables. */
    lemma FullWhenSameSize(a: map<V, D>)
      requires Proper(a)
      ensures |a| == |variables| <==> a.Keys == VarSet()
    {
      DistinctCard(variables);
      assert |a.Keys| == |a|;
      if |a| == |variables| {
        SubsetSameSize(a.Keys, VarSet());
      }
    }

    /**
     * What the recursive call promises about the assignment with the new
     * variable carries over to the assignment without it.
     */
    lemma FoundStep(a: map<V, D>, first: V, value: D, s: map<V, D>)
      requires Valid() && first in variables && first !in a && value in domains[first]
      requires forall k :: 0 <= k < |constraints[first]| ==> constraints[first][k].satisfied(a[first := value])
      requires Extends(a[first := value], s)
      requires Proper(a[first := value]) && Attached() && AllLocal() && Checked(a[first := value]) ==> Solution(s)
      ensures Extends(a, s)
      ensures Proper(a) && Attached() && AllLocal() && Checked(a) ==> Solution(s)
    {
      ExtendsStep(a, first, value, s);
      if Proper(a) && Attached() && AllLocal() && Checked(a) {
        CheckedStep(a, first, value);
      }
    }

    /** Whatever extends the assignment with one more variable from its domain extends the assignment. */
    lemma ExtendsStep(a: map<V, D>, first: V, value: D, s: map<V, D>)
      requires first !in a && first in domains && value in domains[first]
      requires Extends(a[first := value], s)
      ensures Extends(a, s)
    {
    }

    /** When no value of the first unassigned variable leads to a solution, none extends the assignment. */
    lemma AllValuesFail(a: map<V, D>, first: V)
      requires Valid() && first in variables && first !in a
      requires FailedBefore(a, first, |domains[first]|)
      ensures NoSolutionFrom(a)
    {
      forall s | Extends(a, s) ensures !Solution(s) {
        if s.Keys == VarSet() {
          assert s[first] in domains[first];
        }
      }
    }

    /**
     * When the new variable's constraints hold, an assignment that satisfied
     * the constraints of its variables still does: a constraint that mentions
     * the new variable was checked, and any other one cannot tell the
     * difference.
     */
    lemma CheckedStep(a: map<V, D>, first: V, value: D)
      requires Valid() && Attached() && AllLocal()
      requires a.Keys <= VarSet() && first in variables
      requires Checked(a)
      requires forall k :: 0 <= k < |constraints[first]| ==> constraints[first][k].satisfied(a[first := value])
      ensures Checked(a[first := value])
    {
      var local := a[first := value];
      forall v, k | v in local && v in constraints && 0 <= k < |constraints[v]| ensures constraints[v][k].satisfied(local) {
        var c := constraints[v][k];
        if v != first {
          if first in c.variables {
            assert c in constraints[first];
          } else {
            assert Agree(c.variables, a, local);
            assert LocalIn(c, VarSet());
          }
        }
      }
    }

    /** When a constraint of the new variable fails, no solution extends the assignment. */
    lemma RejectedHasNoSolution(a: map<V, D>, first: V, value: D)
      requires Valid() && AllDownClosed() && first in variables
      requires !forall k :: 0 <= k < |constraints[first]| ==> constraints[first][k].satisfied(a[first := value])
      ensures NoSolutionFrom(a[first := value])
    {
      var local := a[first := value];
      var k :| 0 <= k < |constraints[first]| && !constraints[first][k].satisfied(local);
      assert DownClosedIn(constraints[first][k], VarSet());
    }

    /** Assigning one more variable of the problem keeps the assignment proper and leaves one variable fewer. */
    lemma OneMore(a: map<V, D>, first: V, value: D)
      requires first in variables && first !in a
      ensures Proper(a) ==> Proper(a[first := value])
      ensures |VarSet() - a[first := value].Keys| < |VarSet() - a.Keys|
    {
      assert VarSet() - a[first := value].Keys == (VarSet() - a.Keys) - {first};
    }
  }

  /** The variables of vs that `a` does not assign, in order. */
  function Filter<V(==, !new), D>(vs: seq<V>, a: map<V, D>): (r: seq<V>)
    ensures forall v :: v in r <==> v in vs && v !in a
    ensures |r| > 0 ==> r[0] in vs && r[0] !in a
  {
    if vs == [] then []
    else if vs[0] in a then Filter(vs[1..], a)
    else [vs[0]] + Filter(vs[1..], a)
  }

  /** Distinct elements make a set as large as the list. */
  lemma {:induction false} DistinctCard<V>(s: seq<V>)
    requires Distinct(s)
    ensures |set v | v in s| == |s|
  {
    if s != [] {
      var t := s[1..];
      DistinctCard(t);
      assert (set v | v in s) == (set v | v in t) + {s[0]};
      assert s[0] !in t;
    }
  }

  /** A subset as large as the set is the set itself. */
  lemma SubsetSameSize<V>(a: set<V>, b: set<V>)
    requires a <= b && |a| == |b|
    ensures a == b
  {
    assert b == a + (b - a);
    assert a * (b - a) == {};
  }
}
