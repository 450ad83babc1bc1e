/** A finite chain of trust without cycles is a forest: the recursion over parents ends. */
module CotForest {
  import opened Words
  import opened AuthModel

  /** Every parent is an image of the chain. */
  ghost predicate Closed(cot: Cot) {
    forall id :: id in cot.descs && cot.descs[id].parent.Some? ==> cot.descs[id].parent.value in cot.descs
  }

  /** The image `n` levels up, if there is one. */
  ghost function Up(cot: Cot, id: nat, n: nat): Option<nat> {
    if n == 0 then Some(id)
    else
      var below := Up(cot, id, n - 1);
      if below.Some? && below.value in cot.descs then cot.descs[below.value].parent else None
  }

  /** No image is above itself. */
  ghost predicate Acyclic(cot: Cot) {
    forall id, n: nat :: id in cot.descs && n > 0 ==> Up(cot, id, n) != Some(id)
  }

  lemma {:induction false} UpAdds(cot: Cot, id: nat, m: nat, n: nat)
    requires Up(cot, id, m).Some?
    ensures Up(cot, Up(cot, id, m).value, n) == Up(cot, id, m + n)
  {
    if n > 0 { UpAdds(cot, id, m, n - 1); }
  }

  lemma {:induction false} UpInside(cot: Cot, id: nat, n: nat)
    requires Closed(cot) && id in cot.descs && Up(cot, id, n).Some?
    ensures Up(cot, id, n).value in cot.descs
    ensures forall k: nat :: k <= n ==> Up(cot, id, k).Some?
  {
    if n > 0 { UpInside(cot, id, n - 1); }
  }

  ghost predicate OnPath(cot: Cot, id: nat, n: nat, x: nat) {
    exists k: nat :: k <= n && Up(cot, id, k) == Some(x)
  }

  /** The images on a way up are all different. */
  lemma {:induction false} PathSize(cot: Cot, id: nat, n: nat) returns (path: set<nat>)
    requires Closed(cot) && Acyclic(cot) && id in cot.descs && Up(cot, id, n).Some?
    ensures path <= cot.descs.Keys && |path| == n + 1
    ensures forall x :: x in path ==> OnPath(cot, id, n, x)
  {
    UpInside(cot, id, n);
    var top := Up(cot, id, n).value;
    if n == 0 {
      path := {id};
      assert Up(cot, id, 0) == Some(id);
    } else {
      var below := PathSize(cot, id, n - 1);
      if top in below {
        assert OnPath(cot, id, n - 1, top);
        var k: nat :| k <= n - 1 && Up(cot, id, k) == Some(top);
        UpAdds(cot, id, k, n - k);
        assert false;
      }
      path := below + {top};
      forall x | x in path ensures OnPath(cot, id, n, x) {
        if x in below { assert OnPath(cot, id, n - 1, x); }
      }
    }
  }

  lemma PathEnds(cot: Cot, id: nat)
    requires Closed(cot) && Acyclic(cot) && id in cot.descs
    ensures Up(cot, id, |cot.descs.Keys|).None?
  {
    if Up(cot, id, |cot.descs.Keys|).Some? {
      var path := PathSize(cot, id, |cot.descs.Keys|);
      SubsetSize(path, cot.descs.Keys);
      assert false;
    }
  }

  /** The number of levels above an image, up to `fuel`. */
  ghost function Height(cot: Cot, id: nat, fuel: nat): nat
    decreases fuel
  {
    if fuel == 0 || id !in cot.descs || cot.descs[id].parent.None? then 0
    else 1 + Height(cot, cot.descs[id].parent.value, fuel - 1)
  }

  lemma {:induction false} HeightStable(cot: Cot, id: nat, fuel: nat)
    requires id in cot.descs && Closed(cot) && Up(cot, id, fuel + 1).None?
    ensures Height(cot, id, fuel) == Height(cot, id, fuel + 1)
    decreases fuel
  {
    var parent := cot.descs[id].parent;
    assert Up(cot, id, 1) == parent;
    if parent.Some? {
      UpAdds(cot, id, 1, fuel);
      if fuel > 0 { HeightStable(cot, parent.value, fuel - 1); }
    }
  }

  /** So a finite acyclic chain of trust can be ranked by depth. */
  lemma AcyclicIsForest(cot: Cot)
    requires Closed(cot) && Acyclic(cot)
    ensures exists rank :: cot.Ranked(rank)
  {
    var n := |cot.descs.Keys|;
    var rank := map id | id in cot.descs :: Height(cot, id, n);
    forall id | id in cot.descs && cot.descs[id].parent.Some?
      ensures var p := cot.descs[id].parent.value; p in cot.descs && id in rank && p in rank && rank[p] < rank[id]
    {
      var p := cot.descs[id].parent.value;
      PathEnds(cot, p);
      assert n > 0;
      HeightStable(cot, p, n - 1);
    }
    assert cot.Ranked(rank);
  }

  // ---- Ancestors ------------------------------------------------------------------

  /** `a` is above `id` in the chain of trust. */
  ghost predicate Ancestor(cot: Cot, a: nat, id: nat) {
    exists n: nat :: n > 0 && Up(cot, id, n) == Some(a)
  }

  lemma AncestorOfParent(cot: Cot, a: nat, id: nat)
    requires id in cot.descs && cot.descs[id].parent.Some?
    requires var p := cot.descs[id].parent.value; a == p || Ancestor(cot, a, p)
    ensures Ancestor(cot, a, id)
  {
    var p := cot.descs[id].parent.value;
    assert Up(cot, id, 0) == Some(id) && Up(cot, id, 1) == Some(p);
    if a != p {
      var n: nat :| n > 0 && Up(cot, p, n) == Some(a);
      UpAdds(cot, id, 1, n);
    }
  }

  /** Every flagged image's parent is flagged. */
  ghost predicate ParentsFlagged(cot: Cot, flags: set<nat>) {
    forall id :: id in flags && id in cot.descs && cot.descs[id].parent.Some? ==> cot.descs[id].parent.value in flags
  }

  /** Then so is every ancestor. */
  lemma {:induction false} AncestorsFlagged(cot: Cot, flags: set<nat>, id: nat, n: nat)
    requires ParentsFlagged(cot, flags) && id in flags && Up(cot, id, n).Some?
    ensures Up(cot, id, n).value in flags
  {
    if n > 0 { AncestorsFlagged(cot, flags, id, n - 1); }
  }
}
