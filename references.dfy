/**
 * follow_references: the worklist closure of a seed set of doc-ids under the
 * enabled relations (updates, obsoletes, see-also). The relation graph may
 * have cycles and self-loops; an id that is reached but is not a key of the
 * index makes the script fail with a KeyError.
 */
module References {
  import opened Wrappers
  import opened RfcIndex

  /** The exception `rfc_index[rfc]` raises for a doc-id that is not a key. */
  datatype KeyError = KeyError(key: string)

  /** Each id of `p` is an enabled successor of the one before it. */
  ghost predicate IsChain(index: Index, follow: Follow, p: seq<string>)
  {
    forall i :: 0 <= i < |p| - 1 ==> p[i + 1] in Succ(index, follow, p[i])
  }

  /** `y` is reached from `seeds` by zero or more enabled edges: the reference
      definition of what the closure holds. */
  ghost predicate Reachable(index: Index, follow: Follow, seeds: set<string>, y: string)
  {
    exists p :: IsChain(index, follow, p) && |p| > 0 && p[0] in seeds && p[|p| - 1] == y
  }

  /** Every seed is reached by the chain of length one. */
  lemma SeedReachable(index: Index, follow: Follow, seeds: set<string>, y: string)
    requires y in seeds
    ensures Reachable(index, follow, seeds, y)
  {
    assert IsChain(index, follow, [y]);
  }

  /** One more enabled edge extends a chain. */
  lemma ReachableStep(index: Index, follow: Follow, seeds: set<string>, x: string, y: string)
    requires Reachable(index, follow, seeds, x)
    requires y in Succ(index, follow, x)
    ensures Reachable(index, follow, seeds, y)
  {
    var p :| IsChain(index, follow, p) && |p| > 0 && p[0] in seeds && p[|p| - 1] == x;
    var q := p + [y];
    assert IsChain(index, follow, q) by {
      forall i | 0 <= i < |q| - 1
        ensures q[i + 1] in Succ(index, follow, q[i])
      {
        if i < |p| - 1 {
          assert q[i] == p[i] && q[i + 1] == p[i + 1];
        }
      }
    }
    assert q[0] in seeds && q[|q| - 1] == y;
  }

  /** A chain that starts inside a closed set never leaves it. */
  lemma {:induction false} ChainStaysInside(index: Index, follow: Follow, p: seq<string>, t: set<string>)
    requires IsChain(index, follow, p) && |p| > 0
    requires p[0] in t && Closed(index, follow, t)
    ensures p[|p| - 1] in t
  {
    if |p| > 1 {
      var q := p[..|p| - 1];
      assert IsChain(index, follow, q) by {
        forall i | 0 <= i < |q| - 1
          ensures q[i + 1] in Succ(index, follow, q[i])
        {
          assert q[i] == p[i] && q[i + 1] == p[i + 1];
        }
      }
      ChainStaysInside(index, follow, q, t);
      assert p[|p| - 1] in Succ(index, follow, p[|p| - 2]);
    }
  }

  /** Soundness of any closed superset: a closed set that holds the seeds
      holds everything reachable from them. */
  lemma ClosedContainsReachable(index: Index, follow: Follow, seeds: set<string>, t: set<string>, y: string)
    requires seeds <= t && Closed(index, follow, t)
    requires Reachable(index, follow, seeds, y)
    ensures y in t
  {
    var p :| IsChain(index, follow, p) && |p| > 0 && p[0] in seeds && p[|p| - 1] == y;
    ChainStaysInside(index, follow, p, t);
  }

  /** The loop invariant of follow_references: `ret` and `frontier` are
      disjoint and drawn from a fixed finite universe, together they hold the
      seeds, every expanded id is a key whose enabled successors are already
      in one of them, and nothing unreachable has been added. */
  ghost predicate WorklistInv(index: Index, follow: Follow, rfcs: set<string>, universe: set<string>,
                              ret: set<string>, frontier: set<string>)
  {
    && ret !! frontier
    && ret + frontier <= universe
    && rfcs <= ret + frontier
    && ret <= index.Keys
    && (forall x :: x in ret ==> Succ(index, follow, x) <= ret + frontier)
    && (forall x :: x in ret + frontier ==> Reachable(index, follow, rfcs, x))
  }

  /** The frontier after expanding `rfc`, as the three `update` calls leave it. */
  function Expanded(index: Index, follow: Follow, ret: set<string>, frontier: set<string>, rfc: string): set<string>
    requires rfc in index
  {
    (frontier - {rfc}) + (Related(index[rfc], follow) - (ret + {rfc}))
  }

  lemma ExpandStaysInUniverse(index: Index, follow: Follow, universe: set<string>,
                              ret: set<string>, frontier: set<string>, rfc: string)
    requires ret + frontier <= universe && Mentioned(index) <= universe
    requires rfc in frontier && rfc in index
    ensures (ret + {rfc}) + Expanded(index, follow, ret, frontier, rfc) <= universe
  {
    forall y | y in Related(index[rfc], follow)
      ensures y in universe
    {
      assert y in Mentioned(index);
    }
  }

  lemma ExpandKeepsSuccessors(index: Index, follow: Follow, ret: set<string>, frontier: set<string>, rfc: string)
    requires forall x :: x in ret ==> Succ(index, follow, x) <= ret + frontier
    requires rfc in frontier && rfc in index
    ensures forall x :: x in ret + {rfc} ==>
      Succ(index, follow, x) <= (ret + {rfc}) + Expanded(index, follow, ret, frontier, rfc)
  {
  }

  lemma ExpandKeepsReachable(index: Index, follow: Follow, rfcs: set<string>,
                             ret: set<string>, frontier: set<string>, rfc: string)
    requires forall x :: x in ret + frontier ==> Reachable(index, follow, rfcs, x)
    requires rfc in frontier && rfc in index
    ensures forall x :: x in (ret + {rfc}) + Expanded(index, follow, ret, frontier, rfc) ==>
      Reachable(index, follow, rfcs, x)
  {
    forall y | y in Related(index[rfc], follow)
      ensures Reachable(index, follow, rfcs, y)
    {
      ReachableStep(index, follow, rfcs, rfc, y);
    }
  }

  /** Expanding one popped key keeps the invariant. */
  lemma ExpandKeepsInv(index: Index, follow: Follow, rfcs: set<string>, universe: set<string>,
                       ret: set<string>, frontier: set<string>, rfc: string)
    requires WorklistInv(index, follow, rfcs, universe, ret, frontier)
    requires Mentioned(index) <= universe
    requires rfc in frontier && rfc in index
    ensures WorklistInv(index, follow, rfcs, universe, ret + {rfc}, Expanded(index, follow, ret, frontier, rfc))
  {
    ExpandStaysInUniverse(index, follow, universe, ret, frontier, rfc);
    ExpandKeepsSuccessors(index, follow, ret, frontier, rfc);
    ExpandKeepsReachable(index, follow, rfcs, ret, frontier, rfc);
  }

  /** The three `frontier.update(...)` calls for one expanded record: each
      enabled relation adds its ids that are not yet in `ret`. */
  method UpdateFrontier(info: Info, follow: Follow, ret: set<string>, frontier: set<string>)
    returns (frontier': set<string>)
    ensures frontier' == frontier + (Related(info, follow) - ret)
  {
    frontier' := frontier;
    ghost var followed: set<string> := {};
    if follow.updates {
      frontier' := frontier' + (set u | u in info.updates && u !in ret);
      followed := followed + info.updates;
    }
    assert frontier' == frontier + (followed - ret);
    if follow.obsoletes {
      frontier' := frontier' + (set o | o in info.obsoletes && o !in ret);
      followed := followed + info.obsoletes;
    }
    assert frontier' == frontier + (followed - ret);
    if follow.seeAlso {
      frontier' := frontier' + (set s | s in info.seeAlso && s !in ret);
      followed := followed + info.seeAlso;
    }
    assert frontier' == frontier + (followed - ret);
    assert followed == Related(info, follow);
  }

  /**
   * The worklist loop. `frontier.pop()` takes an arbitrary element; the
   * result does not depend on the choices. On success the result is exactly
   * the set of ids reachable from the seeds; the run fails with a KeyError
   * exactly when some reachable id is not a key of the index.
   */
  method FollowReferences(index: Index, rfcs: set<string>, follow: Follow) returns (r: Result<set<string>, KeyError>)
    ensures r.Ok? ==> rfcs <= r.value && Closed(index, follow, r.value)
    ensures r.Ok? ==> forall y :: y in r.value <==> Reachable(index, follow, rfcs, y)
    ensures r.Err? ==> r.error.key !in index && Reachable(index, follow, rfcs, r.error.key)
    ensures r.Ok? <==> forall y :: Reachable(index, follow, rfcs, y) ==> y in index
  {
    ghost var universe := rfcs + Mentioned(index);
    var ret: set<string> := {};
    var frontier := rfcs;
    forall y | y in rfcs
      ensures Reachable(index, follow, rfcs, y)
    {
      SeedReachable(index, follow, rfcs, y);
    }
    while frontier != {}
      invariant WorklistInv(index, follow, rfcs, universe, ret, frontier)
      decreases universe - ret
    {
      var rfc :| rfc in frontier;
      if rfc !in index {
        return Err(KeyError(rfc));
      }
      ExpandKeepsInv(index, follow, rfcs, universe, ret, frontier, rfc);
      frontier := frontier - {rfc};
      ret := ret + {rfc};
      frontier := UpdateFrontier(index[rfc], follow, ret, frontier);
    }
    forall y | Reachable(index, follow, rfcs, y)
      ensures y in ret
    {
      ClosedContainsReachable(index, follow, rfcs, ret, y);
    }
    return Ok(ret);
  }

  /** Idempotence: the closure of a closure is itself, so running the
      resolver again on its own output returns that output. */
  lemma ClosureIdempotent(index: Index, follow: Follow, seeds: set<string>, r: set<string>)
    requires forall y :: y in r <==> Reachable(index, follow, seeds, y)
    ensures forall y :: Reachable(index, follow, r, y) <==> y in r
  {
    assert Closed(index, follow, r) by {
      forall x, y | x in r && y in Succ(index, follow, x)
        ensures y in r
      {
        ReachableStep(index, follow, seeds, x, y);
      }
    }
    forall y
      ensures Reachable(index, follow, r, y) <==> y in r
    {
      if y in r {
        SeedReachable(index, follow, r, y);
      }
      if Reachable(index, follow, r, y) {
        ClosedContainsReachable(index, follow, r, r, y);
      }
    }
  }

  /** With all three switches off nothing is followed: exactly the seeds are
      reached. */
  lemma NoSwitchesNoExpansion(index: Index, seeds: set<string>, y: string)
    ensures Reachable(index, Follow(false, false, false), seeds, y) <==> y in seeds
  {
    var follow := Follow(false, false, false);
    if y in seeds {
      SeedReachable(index, follow, seeds, y);
    }
    if Reachable(index, follow, seeds, y) {
      assert Closed(index, follow, seeds);
      ClosedContainsReachable(index, follow, seeds, seeds, y);
    }
  }

  /** C updates B and B updates A; following updates from C reaches exactly
      A, B and C. */
  lemma UpdatesChainExample(y: string)
    ensures var index := map["A" := Info({}, {}, {}, {}), "B" := Info({"A"}, {}, {}, {}), "C" := Info({"B"}, {}, {}, {})];
      Reachable(index, Follow(true, false, false), {"C"}, y) <==> y in {"A", "B", "C"}
  {
    var index := map["A" := Info({}, {}, {}, {}), "B" := Info({"A"}, {}, {}, {}), "C" := Info({"B"}, {}, {}, {})];
    var follow := Follow(true, false, false);
    SeedReachable(index, follow, {"C"}, "C");
    ReachableStep(index, follow, {"C"}, "C", "B");
    ReachableStep(index, follow, {"C"}, "B", "A");
    if Reachable(index, follow, {"C"}, y) {
      assert Closed(index, follow, {"A", "B", "C"});
      ClosedContainsReachable(index, follow, {"C"}, {"A", "B", "C"}, y);
    }
  }

  /** Cycle safety: A and B update each other and A also updates itself; the
      closure from A is exactly {A, B}. */
  lemma UpdatesCycleExample(y: string)
    ensures var index := map["A" := Info({"A", "B"}, {}, {}, {}), "B" := Info({"A"}, {}, {}, {})];
      Reachable(index, Follow(true, false, false), {"A"}, y) <==> y in {"A", "B"}
  {
    var index := map["A" := Info({"A", "B"}, {}, {}, {}), "B" := Info({"A"}, {}, {}, {})];
    var follow := Follow(true, false, false);
    SeedReachable(index, follow, {"A"}, "A");
    ReachableStep(index, follow, {"A"}, "A", "B");
    if Reachable(index, follow, {"A"}, y) {
      assert Closed(index, follow, {"A", "B"});
      ClosedContainsReachable(index, follow, {"A"}, {"A", "B"}, y);
    }
  }

  /** A reference to an id the index does not hold: following updates from
      RFC2 reaches RFC1, which is not a key, so the resolver fails. */
  lemma DanglingReferenceFails()
    ensures var index := map["RFC2" := Info({"RFC1"}, {}, {}, {})];
      !(forall y :: Reachable(index, Follow(true, false, false), {"RFC2"}, y) ==> y in index)
  {
    var index := map["RFC2" := Info({"RFC1"}, {}, {}, {})];
    var follow := Follow(true, false, false);
    SeedReachable(index, follow, {"RFC2"}, "RFC2");
    ReachableStep(index, follow, {"RFC2"}, "RFC2", "RFC1");
    assert "RFC1" !in index;
  }
}
