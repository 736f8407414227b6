/** Day 4, follow-up: rolls with fewer than four neighbours left are
    removed round after round until no more can be. */
module Day4Peel {
  import opened Seqs
  import opened Day4Grid
  import opened Day4Graph

  lemma SubsetCard<T>(a: set<T>, b: set<T>)
    requires a <= b
    ensures |a| <= |b|
  {
    assert b == a + (b - a);
  }

  /** Every neighbour of a roll is a roll of the graph. */
  ghost predicate Wellformed(g: Graph) {
    forall p :: p in g ==> g[p] <= g.Keys
  }

  ghost predicate Symmetric(g: Graph) {
    forall p, q :: p in g && q in g[p] ==> q in g && p in g[q]
  }

  // ---------------------------------------------------------------------
  // tryRemove
  // ---------------------------------------------------------------------

  /** The loop of `tryRemove` over the neighbours, ranged over in `order`:
      `seen` counts the removed neighbours met so far, and the scan stops
      with true as soon as fewer than four of `total` can still be live. */
  function Scan(order: seq<Coordinates>, removed: set<Coordinates>, total: int, seen: int): bool
    decreases |order|
  {
    if order == [] then false
    else if order[0] in removed then
      if total - (seen + 1) < 4 then true else Scan(order[1..], removed, total, seen + 1)
    else Scan(order[1..], removed, total, seen)
  }

  lemma RemovedCons(order: seq<Coordinates>, removed: set<Coordinates>)
    requires Distinct(order) && order != []
    ensures |Elements(order) * removed| ==
      (if order[0] in removed then 1 else 0) + |Elements(order[1..]) * removed|
  {
    var rest := Elements(order[1..]) * removed;
    assert order[0] !in Elements(order[1..]) by {
      forall i | 0 <= i < |order[1..]| ensures order[1..][i] != order[0] {
        assert order[1..][i] == order[i + 1];
      }
    }
    if order[0] in removed {
      assert Elements(order) * removed == {order[0]} + rest;
    } else {
      assert Elements(order) * removed == rest;
    }
  }

  /** Whatever the order, the scan finds what counting the removed
      neighbours all at once would. */
  lemma {:induction false} ScanCounts(order: seq<Coordinates>, removed: set<Coordinates>, total: int, seen: int)
    requires Distinct(order) && total - seen >= 4
    ensures Scan(order, removed, total, seen) <==> total - seen - |Elements(order) * removed| < 4
    decreases |order|
  {
    if order != [] {
      RemovedCons(order, removed);
      assert Distinct(order[1..]);
      if order[0] in removed {
        if total - (seen + 1) >= 4 {
          ScanCounts(order[1..], removed, total, seen + 1);
        }
      } else {
        ScanCounts(order[1..], removed, total, seen);
      }
    }
  }

  lemma LiveCount(nbrs: set<Coordinates>, removed: set<Coordinates>)
    ensures |nbrs - removed| == |nbrs| - |nbrs * removed|
  {
    assert nbrs == (nbrs - removed) + (nbrs * removed);
    assert (nbrs - removed) !! (nbrs * removed);
  }

  /** `Roll.tryRemove` on the roll at p, whose neighbours are ranged over in
      `order`: true when the roll is already removed, has fewer than four
      neighbours, or the scan finds that fewer than four of them are
      still live. Whatever the order, that is whether p is removed or has
      fewer than four live neighbours. */
  function TryRemove(g: Graph, removed: set<Coordinates>, p: Coordinates, order: seq<Coordinates>): (gone: bool)
    requires p in g && Distinct(order) && Elements(order) == g[p]
    ensures gone <==> p in removed || |g[p] - removed| < 4
  {
    LiveCount(g[p], removed);
    if p in removed then true
    else if |g[p]| < 4 then true
    else
      ScanCounts(order, removed, |g[p]|, 0);
      Scan(order, removed, |g[p]|, 0)
  }

  // ---------------------------------------------------------------------
  // Rounds
  // ---------------------------------------------------------------------

  /** What `tryRemove` answers for the roll at p, in the terms of the
      lemma above. */
  predicate Removable(g: Graph, removed: set<Coordinates>, p: Coordinates)
    requires p in g
  {
    p in removed || |g[p] - removed| < 4
  }

  /** The state of `findAccessibleRolls` within a round: the removed
      rolls, the accessible set and the next round's candidates. */
  datatype Peel = Peel(removed: set<Coordinates>, accessible: set<Coordinates>, next: set<Coordinates>)

  /** One candidate: a roll `tryRemove` removes is made accessible and its
      neighbours not yet removed become candidates for the next round. */
  function Visit(g: Graph, st: Peel, p: Coordinates): (st': Peel)
    requires p in g
    ensures st'.removed == (if Removable(g, st.removed, p) then st.removed + {p} else st.removed)
    ensures st'.accessible == (if Removable(g, st.removed, p) then st.accessible + {p} else st.accessible)
    ensures st'.next == (if Removable(g, st.removed, p) then st.next + (g[p] - st'.removed) else st.next)
  {
    if Removable(g, st.removed, p) then
      var removed := st.removed + {p};
      Peel(removed, st.accessible + {p}, st.next + (g[p] - removed))
    else st
  }

  predicate AnyRemoved(cands: seq<Coordinates>, removed: set<Coordinates>) {
    exists i :: 0 <= i < |cands| && cands[i] in removed
  }

  lemma CandidatesCons(cands: seq<Coordinates>, removed: set<Coordinates>)
    requires cands != []
    ensures Elements(cands) == {cands[0]} + Elements(cands[1..])
    ensures AnyRemoved(cands, removed) <==> cands[0] in removed || AnyRemoved(cands[1..], removed)
  {
    assert forall x :: x in cands <==> x == cands[0] || x in cands[1..];
    if AnyRemoved(cands[1..], removed) {
      var i :| 0 <= i < |cands[1..]| && cands[1..][i] in removed;
      assert cands[i + 1] in removed;
    }
    if AnyRemoved(cands, removed) && cands[0] !in removed {
      var i :| 0 <= i < |cands| && cands[i] in removed;
      assert cands[1..][i - 1] in removed;
    }
  }

  /** One round of `findAccessibleRolls`, over the candidates in order. */
  function Round(g: Graph, st: Peel, cands: seq<Coordinates>): (st': Peel)
    requires forall p :: p in cands ==> p in g
    ensures st.removed <= st'.removed <= st.removed + Elements(cands)
    ensures st.next <= st'.next
    ensures st.accessible == st.removed ==> st'.accessible == st'.removed
    ensures st'.removed == st.removed ==> (st'.next - st.next) !! st.removed
    ensures st'.removed == st.removed && !AnyRemoved(cands, st.removed) ==> st'.next == st.next
    decreases |cands|
  {
    if cands == [] then st
    else
      var st1 := Visit(g, st, cands[0]);
      CandidatesCons(cands, st.removed);
      Round(g, st1, cands[1..])
  }

  /** A round only adds rolls of the graph to the next candidates. */
  lemma {:induction false} RoundNext(g: Graph, st: Peel, cands: seq<Coordinates>)
    requires Wellformed(g) && st.next <= g.Keys && forall p :: p in cands ==> p in g
    ensures Round(g, st, cands).next <= g.Keys
    decreases |cands|
  {
    if cands != [] {
      assert g[cands[0]] <= g.Keys;
      RoundNext(g, Visit(g, st, cands[0]), cands[1..]);
    }
  }

  /** Enumerations of sets: how Go ranges over the next round's candidate
      map, in round `k`. */
  ghost predicate Enumerates(pick: (nat, set<Coordinates>) -> seq<Coordinates>) {
    forall k, s :: Distinct(pick(k, s)) && Elements(pick(k, s)) == s
  }

  lemma FewerLeft(keys: set<Coordinates>, a: set<Coordinates>, b: set<Coordinates>)
    requires a <= b <= keys && a != b
    ensures |keys - b| < |keys - a|
  {
    assert !(b <= a);
    var x :| x in b && x !in a;
    assert keys - a == (keys - b) + (b - a);
    assert (keys - b) !! (b - a);
    assert |b - a| >= 1 by {
      assert {x} <= b - a;
      SubsetCard({x}, b - a);
    }
  }

  /** A round that removes nothing leaves next a round whose candidates
      are all live, and when none of its own candidates was removed, no
      next round at all. */
  lemma RoundProgress(g: Graph, st: Peel, cands: seq<Coordinates>, next: seq<Coordinates>)
    requires forall p :: p in cands ==> p in g
    requires Elements(next) == Round(g, st.(next := {}), cands).next
    requires Round(g, st.(next := {}), cands).removed == st.removed
    ensures !AnyRemoved(next, st.removed)
    ensures AnyRemoved(cands, st.removed) || next == []
  {
    forall i | 0 <= i < |next| ensures next[i] !in st.removed {
      assert next[i] in Elements(next);
    }
    assert next != [] ==> next[0] in Elements(next);
  }

  /** The rolls a round leaves peelable are the next round's candidates. */
  lemma RoundPendingNext(g: Graph, st: Peel, cands: seq<Coordinates>, next: seq<Coordinates>)
    requires Symmetric(g) && forall p :: p in cands ==> p in g
    requires Pending(g, st.removed, Elements(cands))
    requires Elements(next) == Round(g, st.(next := {}), cands).next
    ensures Pending(g, Round(g, st.(next := {}), cands).removed, Elements(next))
  {
    assert Elements(cands) + st.(next := {}).next == Elements(cands);
    RoundPending(g, st.(next := {}), cands);
  }

  /** What a round leaves for the next: candidates that are rolls of the
      graph, and a smaller measure. */
  lemma RoundStep(g: Graph, st: Peel, cands: seq<Coordinates>, pick: (nat, set<Coordinates>) -> seq<Coordinates>, k: nat)
    requires Wellformed(g) && Enumerates(pick)
    requires st.removed <= g.Keys && forall p :: p in cands ==> p in g
    requires cands != []
    ensures var st' := Round(g, st.(next := {}), cands);
      var next := pick(k, st'.next);
      && st'.removed <= g.Keys && (forall p :: p in next ==> p in g)
      && (|g.Keys - st'.removed| < |g.Keys - st.removed|
          || (st'.removed == st.removed && !AnyRemoved(next, st'.removed)
              && (AnyRemoved(cands, st.removed) || next == [])))
  {
    var st' := Round(g, st.(next := {}), cands);
    var next := pick(k, st'.next);
    assert Elements(next) == st'.next;
    RoundNext(g, st.(next := {}), cands);
    if st'.removed != st.removed {
      FewerLeft(g.Keys, st.removed, st'.removed);
    } else {
      RoundProgress(g, st, cands, next);
    }
  }

  /** The rounds of `findAccessibleRolls` from round k on, while there are
      candidates. */
  function Rounds(g: Graph, st: Peel, cands: seq<Coordinates>, pick: (nat, set<Coordinates>) -> seq<Coordinates>, k: nat): (last: Peel)
    requires Wellformed(g) && Enumerates(pick)
    requires st.removed <= g.Keys && forall p :: p in cands ==> p in g
    ensures st.removed <= last.removed <= g.Keys
    ensures st.accessible == st.removed ==> last.accessible == last.removed
    ensures Symmetric(g) && Pending(g, st.removed, Elements(cands)) ==> Stuck(g, last.removed)
    decreases |g.Keys - st.removed|, if AnyRemoved(cands, st.removed) then 1 else 0, |cands|
  {
    if cands == [] then
      assert Elements(cands) == {};
      st
    else
      var st' := Round(g, st.(next := {}), cands);
      var next := pick(k, st'.next);
      RoundStep(g, st, cands, pick, k);
      assert Symmetric(g) && Pending(g, st.removed, Elements(cands)) ==> Pending(g, st'.removed, Elements(next)) by {
        if Symmetric(g) && Pending(g, st.removed, Elements(cands)) {
          RoundPendingNext(g, st, cands, next);
        }
      }
      Rounds(g, st', next, pick, k + 1)
  }

  /** `findAccessibleRolls`: every roll is a candidate of the first round,
      in the order the roll map is ranged over; the result is the set of
      rolls found accessible. */
  function FindAccessibleRolls(g: Graph, start: seq<Coordinates>, pick: (nat, set<Coordinates>) -> seq<Coordinates>): (accessible: set<Coordinates>)
    requires Wellformed(g) && Enumerates(pick)
    requires Distinct(start) && Elements(start) == g.Keys
    ensures accessible <= g.Keys
    ensures accessible == Rounds(g, Peel({}, {}, {}), start, pick, 0).removed
  {
    Rounds(g, Peel({}, {}, {}), start, pick, 0).accessible
  }

  // ---------------------------------------------------------------------
  // What the rounds find
  // ---------------------------------------------------------------------

  /** Every roll not removed that has fewer than four live neighbours is
      among the `pending` ones. */
  ghost predicate Pending(g: Graph, removed: set<Coordinates>, pending: set<Coordinates>) {
    forall y :: y in g && y !in removed && |g[y] - removed| < 4 ==> y in pending
  }

  /** No roll left has fewer than four live neighbours. */
  ghost predicate Stuck(g: Graph, removed: set<Coordinates>) {
    forall y :: y in g && y !in removed ==> |g[y] - removed| >= 4
  }

  /** A set of rolls each of which has at least four neighbours in the
      set: none of them can ever be peeled. */
  ghost predicate Stable(g: Graph, s: set<Coordinates>) {
    s <= g.Keys && forall y :: y in s ==> |g[y] * s| >= 4
  }

  lemma VisitPendingAt(g: Graph, st: Peel, p: Coordinates, rest: set<Coordinates>, y: Coordinates)
    requires Symmetric(g) && p in g && y in g
    requires Pending(g, st.removed, {p} + rest + st.next)
    requires y !in Visit(g, st, p).removed && |g[y] - Visit(g, st, p).removed| < 4
    ensures y in rest + Visit(g, st, p).next
  {
    var st' := Visit(g, st, p);
    if Removable(g, st.removed, p) {
      if p in g[y] {
        assert y in g[p];
      } else {
        assert g[y] - st'.removed == g[y] - st.removed;
      }
    }
  }

  /** Within a round, a roll that becomes peelable is either still to be
      visited or already a candidate for the next round: the roll whose
      removal made it peelable is its neighbour, so it was registered. */
  lemma {:induction false} RoundPending(g: Graph, st: Peel, cands: seq<Coordinates>)
    requires Symmetric(g) && forall p :: p in cands ==> p in g
    requires Pending(g, st.removed, Elements(cands) + st.next)
    ensures Pending(g, Round(g, st, cands).removed, Round(g, st, cands).next)
    decreases |cands|
  {
    if cands == [] {
      assert Elements(cands) + st.next == st.next;
    } else {
      var p, rest := cands[0], cands[1..];
      var st1 := Visit(g, st, p);
      assert Elements(cands) == {p} + Elements(rest);
      forall y | y in g && y !in st1.removed && |g[y] - st1.removed| < 4
        ensures y in Elements(rest) + st1.next
      {
        VisitPendingAt(g, st, p, Elements(rest), y);
      }
      RoundPending(g, st1, rest);
    }
  }

  lemma VisitSafe(g: Graph, st: Peel, p: Coordinates, s: set<Coordinates>)
    requires p in g && Stable(g, s) && s !! st.removed
    ensures s !! Visit(g, st, p).removed
  {
    if Removable(g, st.removed, p) && p !in st.removed {
      SubsetCard(g[p] * s, g[p] - st.removed);
    }
  }

  /** A round never peels a roll of a stable set. */
  lemma {:induction false} RoundSafe(g: Graph, st: Peel, cands: seq<Coordinates>, s: set<Coordinates>)
    requires forall p :: p in cands ==> p in g
    requires Stable(g, s) && s !! st.removed
    ensures s !! Round(g, st, cands).removed
    decreases |cands|
  {
    if cands != [] {
      VisitSafe(g, st, cands[0], s);
      RoundSafe(g, Visit(g, st, cands[0]), cands[1..], s);
    }
  }

  /** No round peels a roll of a stable set. */
  lemma {:induction false} RoundsSafe(g: Graph, st: Peel, cands: seq<Coordinates>,
                                      pick: (nat, set<Coordinates>) -> seq<Coordinates>, k: nat, s: set<Coordinates>)
    requires Wellformed(g) && Enumerates(pick)
    requires st.removed <= g.Keys && forall p :: p in cands ==> p in g
    requires Stable(g, s) && s !! st.removed
    ensures s !! Rounds(g, st, cands, pick, k).removed
    decreases |g.Keys - st.removed|, if AnyRemoved(cands, st.removed) then 1 else 0, |cands|
  {
    if cands != [] {
      var st0 := st.(next := {});
      var st' := Round(g, st0, cands);
      var next := pick(k, st'.next);
      RoundStep(g, st, cands, pick, k);
      RoundSafe(g, st0, cands, s);
      RoundsSafe(g, st', next, pick, k + 1, s);
    }
  }

  lemma LiveInside(nbrs: set<Coordinates>, keys: set<Coordinates>, removed: set<Coordinates>)
    requires nbrs <= keys
    ensures nbrs * (keys - removed) == nbrs - removed
  {
  }

  /** Once every roll left is stuck, the rolls left form a stable set. */
  lemma StuckStable(g: Graph, removed: set<Coordinates>)
    requires Wellformed(g) && removed <= g.Keys && Stuck(g, removed)
    ensures Stable(g, g.Keys - removed)
  {
    forall y | y in g.Keys - removed ensures |g[y] * (g.Keys - removed)| >= 4 {
      LiveInside(g[y], g.Keys, removed);
    }
  }

  /** The rolls `findAccessibleRolls` leaves form a stable set, and every
      stable set survives: what is left is the largest stable set (the
      4-core of the neighbour graph), whatever the orders. */
  lemma FindAccessibleRollsCore(g: Graph, start: seq<Coordinates>, pick: (nat, set<Coordinates>) -> seq<Coordinates>, s: set<Coordinates>)
    requires Wellformed(g) && Symmetric(g) && Enumerates(pick)
    requires Distinct(start) && Elements(start) == g.Keys
    ensures Stable(g, g.Keys - FindAccessibleRolls(g, start, pick))
    ensures Stable(g, s) ==> s !! FindAccessibleRolls(g, start, pick)
  {
    var st := Peel({}, {}, {});
    var last := Rounds(g, st, start, pick, 0);
    assert Pending(g, {}, Elements(start));
    StuckStable(g, last.removed);
    if Stable(g, s) {
      RoundsSafe(g, st, start, pick, 0, s);
    }
  }

  /** Whatever order the rolls and the candidates are ranged over, the
      same rolls are found accessible. */
  lemma FindAccessibleRollsOrderFree(g: Graph, start1: seq<Coordinates>, pick1: (nat, set<Coordinates>) -> seq<Coordinates>,
                                     start2: seq<Coordinates>, pick2: (nat, set<Coordinates>) -> seq<Coordinates>)
    requires Wellformed(g) && Symmetric(g) && Enumerates(pick1) && Enumerates(pick2)
    requires Distinct(start1) && Elements(start1) == g.Keys
    requires Distinct(start2) && Elements(start2) == g.Keys
    ensures FindAccessibleRolls(g, start1, pick1) == FindAccessibleRolls(g, start2, pick2)
  {
    var a1 := FindAccessibleRolls(g, start1, pick1);
    var a2 := FindAccessibleRolls(g, start2, pick2);
    FindAccessibleRollsCore(g, start1, pick1, g.Keys - a2);
    FindAccessibleRollsCore(g, start2, pick2, g.Keys - a1);
  }

  // ---------------------------------------------------------------------
  // On a roll map
  // ---------------------------------------------------------------------

  /** The neighbour graph of a roll map, linked in `order`, is the
      adjacency of the rolls: well formed and symmetric. */
  lemma LinkedGraph(rolls: set<Coordinates>, order: seq<Coordinates>)
    requires AllOnGrid(rolls) && Distinct(order) && forall p :: p in order <==> p in rolls
    ensures var g := RegisterNeighbors(rolls, order);
      && Wellformed(g) && Symmetric(g)
      && forall p :: p in rolls ==> g[p] == AdjacentRolls(rolls, p)
  {
    var g := RegisterNeighbors(rolls, order);
    RegisterNeighborsExact(rolls, order);
    forall p, q | p in g && q in g[p] ensures q in g && p in g[q] {
      AdjacentFindsRolls(rolls, p, q);
    }
  }

  /** `findAccessibleRolls` on the map read from `lines`: the rolls are
      linked in `order`, then peeled starting from the candidates in
      `start`. */
  function AccessibleInMap(lines: seq<string>, order: seq<Coordinates>, start: seq<Coordinates>,
                           pick: (nat, set<Coordinates>) -> seq<Coordinates>): (accessible: set<Coordinates>)
    requires Enumerates(pick)
    requires Distinct(order) && forall p :: p in order <==> RollAt(lines, p)
    requires Distinct(start) && forall p :: p in start <==> RollAt(lines, p)
    ensures forall p :: p in accessible ==> RollAt(lines, p)
  {
    var rolls := ReadMap(lines).rolls;
    LinkedGraph(rolls, order);
    assert Elements(start) == rolls;
    FindAccessibleRolls(RegisterNeighbors(rolls, order), start, pick)
  }

  /** Rolls each of which has at least four rolls of the set around it. */
  ghost predicate Braced(rolls: set<Coordinates>, s: set<Coordinates>) {
    s <= rolls && forall y :: y in s ==> |AdjacentRolls(rolls, y) * s| >= 4
  }

  lemma AccessibleOfRolls(rolls: set<Coordinates>, order: seq<Coordinates>, start: seq<Coordinates>,
                          pick: (nat, set<Coordinates>) -> seq<Coordinates>, s: set<Coordinates>)
    requires AllOnGrid(rolls) && Enumerates(pick)
    requires Distinct(order) && forall p :: p in order <==> p in rolls
    requires Distinct(start) && Elements(start) == rolls
    ensures Wellformed(RegisterNeighbors(rolls, order))
    ensures var acc := FindAccessibleRolls(RegisterNeighbors(rolls, order), start, pick);
      && (forall p :: p in rolls && p !in acc ==> |AdjacentRolls(rolls, p) - acc| >= 4)
      && (Braced(rolls, s) ==> s !! acc)
  {
    var g := RegisterNeighbors(rolls, order);
    LinkedGraph(rolls, order);
    var acc := FindAccessibleRolls(g, start, pick);
    FindAccessibleRollsCore(g, start, pick, s);
    forall p | p in rolls && p !in acc
      ensures |AdjacentRolls(rolls, p) - acc| >= 4
    {
      assert p in g.Keys - acc;
      LiveInside(g[p], g.Keys, acc);
    }
    if Braced(rolls, s) {
      assert Stable(g, s);
    }
  }

  /** On a roll map: a roll left over has at least four rolls left around
      it, and no braced set of rolls loses a roll, so the rolls left are
      the largest braced set. */
  lemma AccessibleInMapCore(lines: seq<string>, order: seq<Coordinates>, start: seq<Coordinates>,
                            pick: (nat, set<Coordinates>) -> seq<Coordinates>, s: set<Coordinates>)
    requires Enumerates(pick)
    requires Distinct(order) && forall p :: p in order <==> RollAt(lines, p)
    requires Distinct(start) && forall p :: p in start <==> RollAt(lines, p)
    ensures var acc := AccessibleInMap(lines, order, start, pick);
      forall p :: RollAt(lines, p) && p !in acc ==> |AdjacentRolls(ReadMap(lines).rolls, p) - acc| >= 4
    ensures Braced(ReadMap(lines).rolls, s) ==> s !! AccessibleInMap(lines, order, start, pick)
  {
    var rolls := ReadMap(lines).rolls;
    assert Elements(start) == rolls;
    AccessibleOfRolls(rolls, order, start, pick, s);
  }

  /** When no roll has four rolls around it, every roll is accessible. */
  lemma AccessibleInMapSparse(lines: seq<string>, order: seq<Coordinates>, start: seq<Coordinates>,
                              pick: (nat, set<Coordinates>) -> seq<Coordinates>)
    requires Enumerates(pick)
    requires Distinct(order) && forall p :: p in order <==> RollAt(lines, p)
    requires Distinct(start) && forall p :: p in start <==> RollAt(lines, p)
    requires forall p :: RollAt(lines, p) ==> |AdjacentRolls(ReadMap(lines).rolls, p)| < 4
    ensures forall p :: RollAt(lines, p) <==> p in AccessibleInMap(lines, order, start, pick)
  {
    var rolls := ReadMap(lines).rolls;
    var acc := AccessibleInMap(lines, order, start, pick);
    AccessibleInMapCore(lines, order, start, pick, {});
    forall p | RollAt(lines, p) ensures p in acc {
      SubsetCard(AdjacentRolls(rolls, p) - acc, AdjacentRolls(rolls, p));
    }
  }
}
