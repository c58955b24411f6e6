/**
 * The map-colouring constraint of chapter 3: two neighbouring regions must
 * not receive the same colour. Regions and colours are strings.
 */
module MapColoring {
  import opened Csp

  /** `satisfied`: vacuous while either region is uncoloured, otherwise the colours differ. */
  function Satisfied(place1: string, place2: string, a: map<string, string>): (r: bool)
    ensures !r <==> place1 in a && place2 in a && a[place1] == a[place2]
  {
    if place1 !in a || place2 !in a then true
    else a[place1] != a[place2]
  }

  /** `MapColoringConstraint(place1, place2)`: its scope is the two regions. */
  function MapColoringConstraint(place1: string, place2: string): (c: Constraint<string, string>)
    ensures c.variables == [place1, place2]
    ensures forall a :: c.satisfied(a) == Satisfied(place1, place2, a)
  {
    Constraint([place1, place2], a => Satisfied(place1, place2, a))
  }

  /** The two regions play symmetric roles. */
  lemma Symmetric(place1: string, place2: string, a: map<string, string>)
    ensures Satisfied(place1, place2, a) == Satisfied(place2, place1, a)
  {
  }

  /** The test reads only the two regions of its scope. */
  lemma ConstraintLocal(place1: string, place2: string, vs: set<string>)
    ensures LocalIn(MapColoringConstraint(place1, place2), vs)
  {
    var c := MapColoringConstraint(place1, place2);
    forall a: map<string, string>, b: map<string, string> | a.Keys <= vs && b.Keys <= vs && Agree(c.variables, a, b)
      ensures c.satisfied(a) == c.satisfied(b)
    {
      assert place1 in c.variables && place2 in c.variables;
    }
  }

  /** Uncolouring regions never breaks the constraint. */
  lemma ConstraintDownClosed(place1: string, place2: string, vs: set<string>)
    ensures DownClosedIn(MapColoringConstraint(place1, place2), vs)
  {
  }

  /**
   * A problem whose constraints are all map-colouring constraints meets the
   * conditions under which backtracking search is sound and complete.
   */
  lemma OnlyMapColoring(csp: CSP<string, string>)
    requires forall v, k :: v in csp.constraints && 0 <= k < |csp.constraints[v]| ==>
               exists p1, p2 :: csp.constraints[v][k] == MapColoringConstraint(p1, p2)
    ensures csp.AllLocal() && csp.AllDownClosed()
  {
    forall v, k | v in csp.constraints && 0 <= k < |csp.constraints[v]|
      ensures LocalIn(csp.constraints[v][k], csp.VarSet()) && DownClosedIn(csp.constraints[v][k], csp.VarSet())
    {
      var p1, p2 :| csp.constraints[v][k] == MapColoringConstraint(p1, p2);
      ConstraintLocal(p1, p2, csp.VarSet());
      ConstraintDownClosed(p1, p2, csp.VarSet());
    }
  }
}
