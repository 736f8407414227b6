/** Day 4, part two, first pass: linking every roll to the rolls around it
    (`registerNeighbors`). A roll's neighbour map starts nil, and the first
    registration on a nil map only allocates it; the model keeps that quirk
    and proves that the finished relation is still exactly adjacency. */
module Day4Graph {
  import opened Wrappers
  import opened Seqs
  import opened Day4Grid

  /** The neighbour map of each roll: `None` while it is nil. */
  type Links = map<Coordinates, Option<set<Coordinates>>>

  /** The neighbours of each roll once linking is over. */
  type Graph = map<Coordinates, set<Coordinates>>

  /** The rolls in the eight cells around p. */
  function AdjacentRolls(rolls: set<Coordinates>, p: Coordinates): set<Coordinates> {
    set x | x in rolls && Touching(p, x)
  }

  /** `Roll.registerNeighbor`: on a nil map it only allocates the map and
      drops `other`; otherwise it adds `other` and changes nothing else. */
  function RegisterNeighbor(neighbors: Option<set<Coordinates>>, other: Coordinates): (r: Option<set<Coordinates>>)
    ensures r.Some?
    ensures neighbors.None? ==> r.value == {}
    ensures neighbors.Some? ==> other in r.value && forall x :: x != other ==> (x in r.value <==> x in neighbors.value)
  {
    match neighbors
    case None => Some({})
    case Some(s) => Some(s + {other})
  }

  /** Registering the rolls xs one after another on the same roll. */
  function RegisterAll(neighbors: Option<set<Coordinates>>, xs: seq<Coordinates>): Option<set<Coordinates>>
    decreases |xs|
  {
    if xs == [] then neighbors else RegisterAll(RegisterNeighbor(neighbors, xs[0]), xs[1..])
  }

  /** A map that exists keeps every registration; a nil map loses only the
      first one. */
  lemma {:induction false} RegisterAllSpec(neighbors: Option<set<Coordinates>>, xs: seq<Coordinates>)
    ensures xs == [] ==> RegisterAll(neighbors, xs) == neighbors
    ensures neighbors.Some? ==> RegisterAll(neighbors, xs) == Some(neighbors.value + Elements(xs))
    ensures neighbors.None? && xs != [] ==> RegisterAll(neighbors, xs) == Some(Elements(xs[1..]))
    decreases |xs|
  {
    if xs == [] {
      assert Elements(xs) == {};
      if neighbors.Some? {
        assert neighbors.value + Elements(xs) == neighbors.value;
      }
    } else {
      var next := RegisterNeighbor(neighbors, xs[0]);
      assert RegisterAll(neighbors, xs) == RegisterAll(next, xs[1..]);
      RegisterAllSpec(next, xs[1..]);
      assert Elements(xs) == {xs[0]} + Elements(xs[1..]);
      assert next.Some?;
      assert RegisterAll(next, xs[1..]) == Some(next.value + Elements(xs[1..]));
      if neighbors.Some? {
        assert next.value == neighbors.value + {xs[0]};
        assert next.value + Elements(xs[1..]) == neighbors.value + Elements(xs);
      } else {
        assert next.value + Elements(xs[1..]) == Elements(xs[1..]);
      }
    }
  }

  /** The targets that hold a roll, in order. */
  function Present(targets: seq<Coordinates>, rolls: set<Coordinates>): (xs: seq<Coordinates>)
    ensures forall x :: x in xs <==> x in targets && x in rolls
  {
    if targets == [] then []
    else (if targets[0] in rolls then [targets[0]] else []) + Present(targets[1..], rolls)
  }

  /** One found neighbour t of r: `other.registerNeighbor(r)`, then
      `r.registerNeighbor(other)`. */
  function Link(st: Links, r: Coordinates, t: Coordinates): (st': Links)
    requires r in st && t in st && r != t
    ensures st'.Keys == st.Keys
    ensures st'[t] == RegisterNeighbor(st[t], r) && st'[r] == RegisterNeighbor(st[r], t)
    ensures forall p :: p in st && p != r && p != t ==> st'[p] == st[p]
  {
    var st1 := st[t := RegisterNeighbor(st[t], r)];
    st1[r := RegisterNeighbor(st1[r], t)]
  }

  /** The inner loop of `registerNeighbors` for the roll at r, over the
      targets `Adjacent` lists: each target that holds a roll gets r
      registered once, r gets every such target registered in turn, and no
      other roll changes. */
  function LinkAll(st: Links, r: Coordinates, targets: seq<Coordinates>): (st': Links)
    requires r in st && r !in targets && Distinct(targets)
    ensures st'.Keys == st.Keys
    ensures forall p :: p in st && p != r && p !in targets ==> st'[p] == st[p]
    ensures forall p :: p in st && p in targets ==> st'[p] == RegisterNeighbor(st[p], r)
    ensures st'[r] == RegisterAll(st[r], Present(targets, st.Keys))
    decreases |targets|
  {
    if targets == [] then st
    else
      var t := targets[0];
      var rest := targets[1..];
      var next := if t in st then Link(st, r, t) else st;
      assert next.Keys == st.Keys;
      var after := LinkAll(next, r, rest);
      assert forall p :: p in rest ==> p != t;
      assert forall p :: p in targets <==> p == t || p in rest;
      var ps := Present(targets, st.Keys);
      assert ps == (if t in st then [t] else []) + Present(rest, st.Keys);
      assert after[r] == RegisterAll(st[r], ps) by {
        assert Present(rest, next.Keys) == Present(rest, st.Keys);
        assert after[r] == RegisterAll(next[r], Present(rest, st.Keys));
        if t in st {
          assert ps[0] == t && ps[1..] == Present(rest, st.Keys);
          assert next[r] == RegisterNeighbor(st[r], t);
          assert ps != [];
          assert RegisterAll(st[r], ps) == RegisterAll(RegisterNeighbor(st[r], ps[0]), ps[1..]);
          assert after[r] == RegisterAll(st[r], ps);
        } else {
          assert ps == Present(rest, st.Keys);
          assert after[r] == RegisterAll(st[r], ps);
        }
      }
      after
  }

  /** The outer loop of `registerNeighbors`, over the rolls in the order
      the map is ranged over. */
  function LinkRolls(st: Links, order: seq<Coordinates>): (st': Links)
    requires forall p :: p in order ==> p in st
    ensures st'.Keys == st.Keys
    decreases |order|
  {
    if order == [] then st
    else LinkRolls(LinkAll(st, order[0], Adjacent(order[0])), order[1..])
  }

  function NoNeighbors(rolls: set<Coordinates>): Links {
    map p | p in rolls :: None
  }

  /** `registerNeighbors` over the rolls of a map, ranged over in `order`
      (Go leaves the order of a map range unspecified). */
  function RegisterNeighbors(rolls: set<Coordinates>, order: seq<Coordinates>): (g: Graph)
    requires forall p :: p in order ==> p in rolls
    ensures g.Keys == rolls
  {
    var st := LinkRolls(NoNeighbors(rolls), order);
    map p | p in rolls :: if st[p].Some? then st[p].value else {}
  }

  /** What the entry e of the roll at p holds once the rolls in `done` have
      been visited: a nil map while no visit has involved p, otherwise only
      rolls around p, and every one of them that has been visited once p
      itself has been. */
  ghost predicate LinkedAt(e: Option<set<Coordinates>>, rolls: set<Coordinates>, done: set<Coordinates>, p: Coordinates) {
    var around := AdjacentRolls(rolls, p);
    && (e.None? ==> around !! done && (p in done ==> around == {}))
    && (e.Some? ==> e.value <= around && (p in done ==> around * done <= e.value))
  }

  ghost predicate AllOnGrid(rolls: set<Coordinates>) {
    forall p :: p in rolls ==> OnGrid(p)
  }

  /** For a roll on the grid, the rolls `Adjacent` finds are the rolls
      around it. */
  lemma AdjacentFindsRolls(rolls: set<Coordinates>, p: Coordinates, x: Coordinates)
    requires AllOnGrid(rolls) && p in rolls && x in rolls
    ensures x in Adjacent(p) <==> x in AdjacentRolls(rolls, p)
    ensures x in AdjacentRolls(rolls, p) <==> p in AdjacentRolls(rolls, x)
  {
  }

  /** What the visit of r registers on r itself. */
  lemma LinkAllOwn(st: Links, rolls: set<Coordinates>, r: Coordinates)
    requires AllOnGrid(rolls) && st.Keys == rolls && r in rolls
    ensures LinkAll(st, r, Adjacent(r))[r] ==
      if st[r].Some? then Some(st[r].value + AdjacentRolls(rolls, r))
      else if AdjacentRolls(rolls, r) == {} then None
      else Some(Elements(Present(Adjacent(r), rolls)[1..]))
  {
    var xs := Present(Adjacent(r), rolls);
    RegisterAllSpec(st[r], xs);
    forall x | x in rolls
      ensures x in xs <==> x in AdjacentRolls(rolls, r)
    {
      AdjacentFindsRolls(rolls, r, x);
    }
    assert Elements(xs) == AdjacentRolls(rolls, r);
    if xs == [] {
      assert AdjacentRolls(rolls, r) == {};
    } else {
      assert xs[0] in AdjacentRolls(rolls, r);
    }
  }

  /** What the visit of r does to another roll p. */
  lemma LinkAllOther(st: Links, r: Coordinates, p: Coordinates)
    requires r in st && p in st && p != r
    ensures p in Adjacent(r) ==> LinkAll(st, r, Adjacent(r))[p] == RegisterNeighbor(st[p], r)
    ensures p !in Adjacent(r) ==> LinkAll(st, r, Adjacent(r))[p] == st[p]
  {
  }

  /** Visiting the roll at p itself keeps its entry in order. */
  lemma VisitOwn(st: Links, rolls: set<Coordinates>, done: set<Coordinates>, p: Coordinates)
    requires AllOnGrid(rolls) && st.Keys == rolls && p in rolls && p !in done
    requires LinkedAt(st[p], rolls, done, p)
    ensures LinkedAt(LinkAll(st, p, Adjacent(p))[p], rolls, done + {p}, p)
  {
    LinkAllOwn(st, rolls, p);
    var around := AdjacentRolls(rolls, p);
    if st[p].None? && around != {} {
      var xs := Present(Adjacent(p), rolls);
      assert Elements(xs[1..]) <= Elements(xs);
      assert Elements(xs) <= around by {
        forall x | x in xs ensures x in around {
          AdjacentFindsRolls(rolls, p, x);
        }
      }
    }
  }

  /** Visiting another roll r keeps the entry of p in order. */
  lemma VisitOther(st: Links, rolls: set<Coordinates>, done: set<Coordinates>, r: Coordinates, p: Coordinates)
    requires AllOnGrid(rolls) && st.Keys == rolls && r in rolls && r !in done && p in rolls && p != r
    requires LinkedAt(st[p], rolls, done, p)
    ensures LinkedAt(LinkAll(st, r, Adjacent(r))[p], rolls, done + {r}, p)
  {
    LinkAllOther(st, r, p);
    AdjacentFindsRolls(rolls, r, p);
    var around := AdjacentRolls(rolls, p);
    if r in around {
      assert p in Adjacent(r);
    } else {
      assert around * (done + {r}) == around * done;
    }
  }

  /** Visiting the rolls of `order`, one after another, keeps the entry of
      p in order. */
  lemma {:induction false} LinkRollsAt(st: Links, rolls: set<Coordinates>, done: set<Coordinates>,
                                       order: seq<Coordinates>, p: Coordinates)
    requires AllOnGrid(rolls) && st.Keys == rolls && p in rolls
    requires Distinct(order) && forall x :: x in order ==> x in rolls && x !in done
    requires LinkedAt(st[p], rolls, done, p)
    ensures LinkedAt(LinkRolls(st, order)[p], rolls, done + Elements(order), p)
    decreases |order|
  {
    if order == [] {
      assert done + Elements(order) == done;
    } else {
      var r, rest := order[0], order[1..];
      var next := LinkAll(st, r, Adjacent(r));
      if r == p {
        VisitOwn(st, rolls, done, p);
      } else {
        VisitOther(st, rolls, done, r, p);
      }
      assert forall x :: x in rest ==> x != r && x in order;
      LinkRollsAt(next, rolls, done + {r}, rest, p);
      ElementsCons(done, order);
    }
  }

  /** After `registerNeighbors`, whatever order the rolls were visited in,
      each roll's neighbours are exactly the rolls in the cells around it:
      the registration a nil map drops is made again from the other side. */
  lemma RegisterNeighborsExact(rolls: set<Coordinates>, order: seq<Coordinates>)
    requires AllOnGrid(rolls)
    requires Distinct(order) && forall p :: p in order <==> p in rolls
    ensures forall p :: p in rolls ==> RegisterNeighbors(rolls, order)[p] == AdjacentRolls(rolls, p)
  {
    assert Elements(order) == rolls;
    forall p | p in rolls ensures RegisterNeighbors(rolls, order)[p] == AdjacentRolls(rolls, p) {
      LinkRollsAt(NoNeighbors(rolls), rolls, {}, order, p);
    }
  }

  /** The neighbour relation of a linked map is symmetric. */
  lemma RegisterNeighborsSymmetric(rolls: set<Coordinates>, order: seq<Coordinates>, p: Coordinates, q: Coordinates)
    requires AllOnGrid(rolls)
    requires Distinct(order) && forall x :: x in order <==> x in rolls
    requires p in rolls && q in rolls
    ensures q in RegisterNeighbors(rolls, order)[p] <==> p in RegisterNeighbors(rolls, order)[q]
  {
    RegisterNeighborsExact(rolls, order);
    AdjacentFindsRolls(rolls, p, q);
  }
}
