/** The species considered by a fit: `np.unique` over the per-molecule unique
    species lists (fitter/fit.py:110-112), i.e. the distinct species in
    ascending Python string order. */
module SpeciesOrder {
  import opened Dicts

  /** Python's `a < b` on `str`: code points compared left to right, a proper
      prefix comes first. */
  predicate Below(a: string, b: string)
    ensures Below(a, b) ==> a != b
    decreases |a|
  {
    |b| > 0 && (|a| == 0 || a[0] < b[0] || (a[0] == b[0] && Below(a[1..], b[1..])))
  }

  lemma {:induction false} BelowIrreflexive(a: string)
    ensures !Below(a, a)
    decreases |a|
  {
    if |a| > 0 {
      BelowIrreflexive(a[1..]);
    }
  }

  lemma {:induction false} BelowTransitive(a: string, b: string, c: string)
    requires Below(a, b) && Below(b, c)
    ensures Below(a, c)
    decreases |a|
  {
    if |a| > 0 && a[0] == b[0] == c[0] {
      BelowTransitive(a[1..], b[1..], c[1..]);
    }
  }

  lemma {:induction false} BelowTotal(a: string, b: string)
    ensures a == b || Below(a, b) || Below(b, a)
    decreases |a|
  {
    if |a| > 0 && |b| > 0 && a[0] == b[0] {
      BelowTotal(a[1..], b[1..]);
      if a[1..] == b[1..] {
        assert a == [a[0]] + a[1..] && b == [b[0]] + b[1..];
      }
    }
  }

  lemma BelowAsymmetric(a: string, b: string)
    requires Below(a, b)
    ensures !Below(b, a)
  {
    if Below(b, a) {
      BelowTransitive(a, b, a);
      BelowIrreflexive(a);
    }
  }

  ghost predicate StrictlySorted(s: seq<string>) {
    forall i, j :: 0 <= i < j < |s| ==> Below(s[i], s[j])
  }

  lemma SortedDistinct(s: seq<string>)
    requires StrictlySorted(s)
    ensures Distinct(s)
  {
    forall i, j | 0 <= i < j < |s|
      ensures s[i] != s[j]
    {
      BelowIrreflexive(s[i]);
    }
  }

  /** Inserts `x` into a strictly sorted list unless it is already there. */
  function Insert(x: string, s: seq<string>): (r: seq<string>)
    requires StrictlySorted(s)
    ensures StrictlySorted(r)
    ensures forall y :: y in r <==> y == x || y in s
    decreases |s|
  {
    if s == [] then [x]
    else if x == s[0] then s
    else if Below(x, s[0]) then
      assert forall j :: 0 < j < |s| ==> Below(x, s[j]) by {
        forall j | 0 < j < |s| ensures Below(x, s[j]) {
          BelowTransitive(x, s[0], s[j]);
        }
      }
      [x] + s
    else
      BelowTotal(x, s[0]);
      var rest := Insert(x, s[1..]);
      assert forall y :: y in rest ==> Below(s[0], y);
      [s[0]] + rest
  }

  /** `np.unique`: the distinct elements, sorted. */
  function Unique(xs: seq<string>): (r: seq<string>)
    ensures StrictlySorted(r)
    ensures forall y :: y in r <==> y in xs
    decreases |xs|
  {
    if xs == [] then []
    else
      var init := xs[..|xs| - 1];
      assert forall y :: y in xs <==> y in init || y == xs[|xs| - 1];
      Insert(xs[|xs| - 1], Unique(init))
  }

  /** `itertools.chain(*lists)`. */
  function Flatten(lists: seq<seq<string>>): (r: seq<string>)
    ensures forall y :: y in r <==> exists i :: 0 <= i < |lists| && y in lists[i]
    decreases |lists|
  {
    if lists == [] then []
    else
      var init := lists[..|lists| - 1];
      assert forall i :: 0 <= i < |init| ==> init[i] == lists[i];
      Flatten(init) + lists[|lists| - 1]
  }

  /** The species of a fit, as `minimize_parameters` computes them
      (fitter/fit.py:110-112): `np.unique` over the chained per-molecule
      `np.unique` lists. */
  function SpeciesOf(molsAtoms: seq<seq<string>>): (r: seq<string>)
    ensures StrictlySorted(r)
  {
    Unique(Flatten(seq(|molsAtoms|, i requires 0 <= i < |molsAtoms| => Unique(molsAtoms[i]))))
  }

  /** A strictly sorted list is determined by its elements. */
  lemma {:induction false} SortedDetermined(a: seq<string>, b: seq<string>)
    requires StrictlySorted(a) && StrictlySorted(b)
    requires forall y :: y in a <==> y in b
    ensures a == b
    decreases |a|
  {
    if b != [] {
      assert b[0] in a;
    }
    if a != [] {
      assert b != [] by { assert a[0] in b; }
      if a[0] != b[0] {
        assert b[0] in a && a[0] in b;
        var i :| 0 <= i < |a| && a[i] == b[0];
        var j :| 0 <= j < |b| && b[j] == a[0];
        assert Below(a[0], b[0]) && Below(b[0], a[0]);
        BelowAsymmetric(a[0], b[0]);
      }
      forall y
        ensures y in a[1..] <==> y in b[1..]
      {
        if y in a[1..] {
          var i :| 1 <= i < |a| && a[i] == y;
          BelowIrreflexive(a[0]);
          assert y != b[0] && y in b;
        }
        if y in b[1..] {
          var j :| 1 <= j < |b| && b[j] == y;
          BelowIrreflexive(b[0]);
          assert y != a[0] && y in a;
        }
      }
      SortedDetermined(a[1..], b[1..]);
      assert a == [a[0]] + a[1..] && b == [b[0]] + b[1..];
    }
  }

  /** The species of a fit are exactly the species occurring in some molecule,
      each once, in ascending order; the per-molecule `np.unique` changes
      nothing. */
  lemma SpeciesOfSpec(molsAtoms: seq<seq<string>>)
    ensures StrictlySorted(SpeciesOf(molsAtoms)) && Distinct(SpeciesOf(molsAtoms))
    ensures forall a :: a in SpeciesOf(molsAtoms) <==> exists i :: 0 <= i < |molsAtoms| && a in molsAtoms[i]
    ensures SpeciesOf(molsAtoms) == Unique(Flatten(molsAtoms))
  {
    var per := seq(|molsAtoms|, i requires 0 <= i < |molsAtoms| => Unique(molsAtoms[i]));
    SortedDistinct(SpeciesOf(molsAtoms));
    forall a
      ensures a in SpeciesOf(molsAtoms) <==> exists i :: 0 <= i < |molsAtoms| && a in molsAtoms[i]
    {
      if a in SpeciesOf(molsAtoms) {
        var i :| 0 <= i < |per| && a in per[i];
        assert a in molsAtoms[i];
      }
      if exists i :: 0 <= i < |molsAtoms| && a in molsAtoms[i] {
        var i :| 0 <= i < |molsAtoms| && a in molsAtoms[i];
        assert a in per[i];
      }
    }
    SortedDetermined(SpeciesOf(molsAtoms), Unique(Flatten(molsAtoms)));
  }
}
