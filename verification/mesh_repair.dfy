/** Mesh.Repair (mesh_ops.go): vertices whose spatial-hash cells overlap are
    gathered into equivalence classes, and every vertex is moved to its
    class's canonical point.

    The hash of a vertex is math.Round(c/epsilon) per axis; here that
    rounding is the parameter `cell`, so the model holds for any way of
    assigning integer cells to points. A vertex owns the 2x2x2 block of
    keys starting at its cell. Classes are referred to by id (the source's
    class pointers); `next` is the id the next allocation gets. */
module MeshRepair {
  import opened MeshCore

  /** A spatial-hash key: an integer lattice cell. */
  datatype Key = Key(x: int, y: int, z: int)

  /** The 8 keys of a vertex whose cell is b, in the order of the source's
      nested i, j, k loops. */
  function Hashes(b: Key): (r: seq<Key>)
    ensures |r| == 8
  {
    [Key(b.x, b.y, b.z), Key(b.x, b.y, b.z + 1), Key(b.x, b.y + 1, b.z), Key(b.x, b.y + 1, b.z + 1),
     Key(b.x + 1, b.y, b.z), Key(b.x + 1, b.y, b.z + 1), Key(b.x + 1, b.y + 1, b.z), Key(b.x + 1, b.y + 1, b.z + 1)]
  }

  /** Key 4i + 2j + k is the cell offset by (i, j, k). */
  lemma HashesOrder(b: Key, i: int, j: int, k: int)
    requires 0 <= i <= 1 && 0 <= j <= 1 && 0 <= k <= 1
    ensures Hashes(b)[4 * i + 2 * j + k] == Key(b.x + i, b.y + j, b.z + k)
  {
  }

  /** The keys are exactly the 2x2x2 block of cells starting at b. */
  lemma HashesBlock(b: Key, h: Key)
    ensures h in Hashes(b) <==>
      b.x <= h.x <= b.x + 1 && b.y <= h.y <= b.y + 1 && b.z <= h.z <= b.z + 1
  {
    if b.x <= h.x <= b.x + 1 && b.y <= h.y <= b.y + 1 && b.z <= h.z <= b.z + 1 {
      HashesOrder(b, h.x - b.x, h.y - b.y, h.z - b.z);
    }
  }

  predicate Distinct<T(==)>(s: seq<T>)
  {
    forall i, j :: 0 <= i < j < |s| ==> s[i] != s[j]
  }

  lemma HashesDistinct(b: Key)
    ensures Distinct(Hashes(b))
  {
  }

  /** Two cells within one step of each other on every axis. */
  predicate Near(a: Key, b: Key)
  {
    -1 <= a.x - b.x <= 1 && -1 <= a.y - b.y <= 1 && -1 <= a.z - b.z <= 1
  }

  /** Two vertices share a key exactly when their cells are near. */
  lemma HashesOverlap(a: Key, b: Key)
    ensures (exists h :: h in Hashes(a) && h in Hashes(b)) <==> Near(a, b)
  {
    if Near(a, b) {
      var h := CommonHash(a, b);
    } else {
      forall h | h in Hashes(a)
        ensures h !in Hashes(b)
      {
        HashesBlock(a, h);
        HashesBlock(b, h);
      }
    }
  }

  lemma CommonHash(a: Key, b: Key) returns (h: Key)
    requires Near(a, b)
    ensures h in Hashes(a) && h in Hashes(b)
  {
    h := Key(if a.x < b.x then b.x else a.x, if a.y < b.y then b.y else a.y, if a.z < b.z then b.z else a.z);
    HashesBlock(a, h);
    HashesBlock(b, h);
  }

  /** equivalenceClass: its vertices, the keys it owns, its canonical point. */
  datatype Class = Class(elements: seq<Coord>, hashes: seq<Key>, canonical: Coord)

  /** hashToClass and allClasses, with class pointers as ids. */
  datatype State = State(owner: map<Key, nat>, live: map<nat, Class>, next: nat)

  /** The classes some of the keys hs already point to. */
  function Hit(s: State, hs: seq<Key>): set<nat>
  {
    set h | h in hs && h in s.owner :: s.owner[h]
  }

  lemma HitLive(s: State, hs: seq<Key>)
    requires forall h :: h in s.owner ==> s.owner[h] in s.live
    ensures Hit(s, hs) <= s.live.Keys
  {
  }

  /** Appends each key of xs that is not yet listed, checking against the
      growing list as the source's found loop does. */
  function AppendNew(acc: seq<Key>, xs: seq<Key>): (r: seq<Key>)
    ensures forall h :: h in r <==> h in acc || h in xs
    ensures Distinct(acc) ==> Distinct(r)
    decreases |xs|
  {
    if |xs| == 0 then acc
    else AppendNew(if xs[0] in acc then acc else acc + [xs[0]], xs[1..])
  }

  /** The merge loop: each class of order, in turn, hands its elements and
      its keys to acc. */
  function Merge(acc: Class, live: map<nat, Class>, order: seq<nat>): (r: Class)
    requires forall i :: 0 <= i < |order| ==> order[i] in live
    ensures r.canonical == acc.canonical
    decreases |order|
  {
    if |order| == 0 then acc
    else
      var c := live[order[0]];
      Merge(Class(acc.elements + c.elements, AppendNew(acc.hashes, c.hashes), acc.canonical), live, order[1..])
  }

  /** What the merged class holds: acc's points and keys and those of
      every merged class, the keys without repeats. */
  lemma {:induction false} MergeMembers(acc: Class, live: map<nat, Class>, order: seq<nat>)
    requires forall i :: 0 <= i < |order| ==> order[i] in live
    ensures var r := Merge(acc, live, order);
      forall v :: v in r.elements <==> v in acc.elements || exists id :: id in order && v in live[id].elements
    ensures var r := Merge(acc, live, order);
      forall h :: h in r.hashes <==> h in acc.hashes || exists id :: id in order && h in live[id].hashes
    ensures Distinct(acc.hashes) ==> Distinct(Merge(acc, live, order).hashes)
    decreases |order|
  {
    if |order| > 0 {
      var c := live[order[0]];
      var acc' := Class(acc.elements + c.elements, AppendNew(acc.hashes, c.hashes), acc.canonical);
      MergeMembers(acc', live, order[1..]);
      assert Merge(acc, live, order) == Merge(acc', live, order[1..]);
      assert forall id :: id in order <==> id == order[0] || id in order[1..];
      forall v | v in c.elements
        ensures exists id :: id in order && v in live[id].elements
      {
        assert order[0] in order;
      }
      forall h | h in c.hashes
        ensures exists id :: id in order && h in live[id].hashes
      {
        assert order[0] in order;
      }
    }
  }

  /** Points every key of hs at the class id. */
  function Assign(owner: map<Key, nat>, hs: seq<Key>, id: nat): (r: map<Key, nat>)
    ensures forall h :: h in r <==> h in owner || h in hs
    ensures forall h :: h in hs ==> r[h] == id
    ensures forall h :: h in owner && h !in hs ==> r[h] == owner[h]
    decreases |hs|
  {
    if |hs| == 0 then owner else Assign(owner[hs[0] := id], hs[1..], id)
  }

  function Ids(order: seq<nat>): (r: set<nat>)
    ensures forall id :: id in r <==> id in order
  {
    set id | id in order
  }

  /** One pass of the vertex loop. When no key of c hits a class, c gets a
      class of its own (the source's first branch); otherwise the classes
      in order (the hit classes in map order) are deleted and merged into a
      new class whose canonical point is c. Either way the new class's keys
      are pointed at it. */
  function Step(s: State, c: Coord, hs: seq<Key>, order: seq<nat>): State
    requires forall i :: 0 <= i < |order| ==> order[i] in s.live
  {
    if |order| == 0 then
      var nc := Class([c], hs, c);
      State(Assign(s.owner, nc.hashes, s.next), s.live[s.next := nc], s.next + 1)
    else
      var nc := Merge(Class([c], hs, c), s.live, order);
      State(Assign(s.owner, nc.hashes, s.next), (s.live - Ids(order))[s.next := nc], s.next + 1)
  }

  // ---------------------------------------------------------------------
  // Chains of near points
  // ---------------------------------------------------------------------

  /** ps runs from p to q through points of seen, each step between points
      whose cells are near. */
  ghost predicate Chain(ps: seq<Coord>, seen: set<Coord>, cell: Coord -> Key, p: Coord, q: Coord)
  {
    && |ps| >= 1 && ps[0] == p && ps[|ps| - 1] == q
    && (forall j :: 0 <= j < |ps| ==> OnChain(ps, seen, j))
    && (forall j :: 0 <= j < |ps| - 1 ==> NearStep(ps, cell, j))
  }

  /** Point j of ps is in seen. */
  ghost predicate OnChain(ps: seq<Coord>, seen: set<Coord>, j: int)
  {
    0 <= j < |ps| && ps[j] in seen
  }

  /** Step j of ps joins two points whose cells are near. */
  ghost predicate NearStep(ps: seq<Coord>, cell: Coord -> Key, j: int)
  {
    0 <= j < |ps| - 1 && Near(cell(ps[j]), cell(ps[j + 1]))
  }

  /** p and q are joined by a chain of near points of seen: they lie in one
      connected component of the nearness relation. */
  ghost predicate Linked(seen: set<Coord>, cell: Coord -> Key, p: Coord, q: Coord)
  {
    exists ps :: Chain(ps, seen, cell, p, q)
  }

  lemma LinkedNear(seen: set<Coord>, cell: Coord -> Key, p: Coord, q: Coord)
    requires p in seen && q in seen && Near(cell(p), cell(q))
    ensures Linked(seen, cell, p, q)
  {
    assert Chain([p, q], seen, cell, p, q);
  }

  lemma LinkedSelf(seen: set<Coord>, cell: Coord -> Key, p: Coord)
    requires p in seen
    ensures Linked(seen, cell, p, p)
  {
    assert Chain([p], seen, cell, p, p);
  }

  function Reverse(ps: seq<Coord>): (r: seq<Coord>)
    ensures |r| == |ps|
    ensures forall j :: 0 <= j < |ps| ==> r[j] == ps[|ps| - 1 - j]
    decreases |ps|
  {
    if |ps| == 0 then [] else Reverse(ps[1..]) + [ps[0]]
  }

  lemma LinkedSymmetric(seen: set<Coord>, cell: Coord -> Key, p: Coord, q: Coord)
    requires Linked(seen, cell, p, q)
    ensures Linked(seen, cell, q, p)
  {
    var ps :| Chain(ps, seen, cell, p, q);
    var rs := Reverse(ps);
    forall j | 0 <= j < |rs|
      ensures OnChain(rs, seen, j)
    {
      assert OnChain(ps, seen, |ps| - 1 - j);
    }
    forall j | 0 <= j < |rs| - 1
      ensures NearStep(rs, cell, j)
    {
      assert NearStep(ps, cell, |ps| - 2 - j);
    }
    assert Chain(rs, seen, cell, q, p);
  }

  lemma LinkedTransitive(seen: set<Coord>, cell: Coord -> Key, p: Coord, q: Coord, u: Coord)
    requires Linked(seen, cell, p, q) && Linked(seen, cell, q, u)
    ensures Linked(seen, cell, p, u)
  {
    var ps :| Chain(ps, seen, cell, p, q);
    var qs :| Chain(qs, seen, cell, q, u);
    var rs := ps + qs[1..];
    forall j | 0 <= j < |rs|
      ensures OnChain(rs, seen, j)
    {
      if j < |ps| {
        assert OnChain(ps, seen, j);
      } else {
        assert OnChain(qs, seen, j - |ps| + 1);
      }
    }
    forall j | 0 <= j < |rs| - 1
      ensures NearStep(rs, cell, j)
    {
      if j < |ps| - 1 {
        assert NearStep(ps, cell, j);
        assert rs[j] == ps[j] && rs[j + 1] == ps[j + 1];
      } else {
        assert NearStep(qs, cell, j - |ps| + 1);
        assert rs[j] == qs[j - |ps| + 1] && rs[j + 1] == qs[j - |ps| + 2];
      }
    }
    assert Chain(rs, seen, cell, p, u);
  }

  lemma LinkedGrows(seen: set<Coord>, seen': set<Coord>, cell: Coord -> Key, p: Coord, q: Coord)
    requires seen <= seen' && Linked(seen, cell, p, q)
    ensures Linked(seen', cell, p, q)
  {
    var ps :| Chain(ps, seen, cell, p, q);
    forall j | 0 <= j < |ps|
      ensures OnChain(ps, seen', j)
    {
      assert OnChain(ps, seen, j);
    }
    assert Chain(ps, seen', cell, p, q);
  }

  /** p's cell is near the cell of no other point of seen. */
  ghost predicate Isolated(seen: set<Coord>, cell: Coord -> Key, p: Coord)
  {
    forall w :: w in seen && w != p ==> !Near(cell(p), cell(w))
  }

  /** An isolated point is linked to itself only. */
  lemma IsolatedAlone(seen: set<Coord>, cell: Coord -> Key, p: Coord, q: Coord)
    requires Isolated(seen, cell, p) && Linked(seen, cell, p, q)
    ensures q == p
  {
    var ps :| Chain(ps, seen, cell, p, q);
    var j := 0;
    while j < |ps| - 1
      invariant 0 <= j <= |ps| - 1 && ps[j] == p
    {
      assert NearStep(ps, cell, j) && OnChain(ps, seen, j + 1);
      j := j + 1;
    }
  }

  // ---------------------------------------------------------------------
  // The loop invariant
  // ---------------------------------------------------------------------

  /** Every key points at a live class that lists it. */
  ghost predicate OwnersLive(s: State)
  {
    forall h :: h in s.owner ==> s.owner[h] in s.live && h in s.live[s.owner[h]].hashes
  }

  /** Every key a live class lists points back at it. */
  ghost predicate HashesOwned(s: State)
  {
    forall id, h :: id in s.live && h in s.live[id].hashes ==> h in s.owner && s.owner[h] == id
  }

  /** Ids below next are the allocated ones. */
  ghost predicate IdsFresh(s: State)
  {
    forall id :: id in s.live ==> id < s.next
  }

  ghost predicate ElementsSeen(s: State, seen: set<Coord>)
  {
    forall id, v :: id in s.live && v in s.live[id].elements ==> v in seen
  }

  /** No point is in two live classes. */
  ghost predicate Disjoint(s: State)
  {
    forall id, id', v :: id in s.live && id' in s.live && v in s.live[id].elements && v in s.live[id'].elements ==> id == id'
  }

  ghost predicate CanonicalMember(s: State)
  {
    forall id :: id in s.live ==> s.live[id].canonical in s.live[id].elements
  }

  /** Each key of hs points at a live class holding v. */
  ghost predicate KeysLead(s: State, v: Coord, hs: seq<Key>)
  {
    forall h :: h in hs ==> h in s.owner && s.owner[h] in s.live && v in s.live[s.owner[h]].elements
  }

  ghost predicate Covered(s: State, seen: set<Coord>, cell: Coord -> Key)
  {
    forall v :: v in seen ==> KeysLead(s, v, Hashes(cell(v)))
  }

  /** The live classes partition the points seen so far, each point's keys
      lead to its class, and keys and classes point at each other. */
  ghost predicate Valid(s: State, seen: set<Coord>, cell: Coord -> Key)
  {
    OwnersLive(s) && HashesOwned(s) && IdsFresh(s) && ElementsSeen(s, seen) && Disjoint(s)
    && CanonicalMember(s) && Covered(s, seen, cell)
  }

  // ---------------------------------------------------------------------
  // The invariant is kept. Both branches of Step have the shape
  // State(Assign(owner, nc.hashes, next), (live - H)[next := nc], next + 1)
  // for the hit classes H and a new class nc built from c and H.
  // ---------------------------------------------------------------------

  /** nc is the class built from c and keys hs and the classes H. */
  ghost predicate Built(s: State, nc: Class, c: Coord, hs: seq<Key>, H: set<nat>)
  {
    && H <= s.live.Keys
    && (forall h :: h in hs && h in s.owner ==> s.owner[h] in H)
    && nc.canonical == c
    && (forall v :: v in nc.elements <==> v == c || exists id :: id in H && v in s.live[id].elements)
    && (forall h :: h in nc.hashes <==> h in hs || exists id :: id in H && h in s.live[id].hashes)
  }

  /** A key whose class is not merged is not taken by the new class. */
  lemma NotTaken(s: State, nc: Class, c: Coord, hs: seq<Key>, H: set<nat>, h: Key)
    requires HashesOwned(s) && Built(s, nc, c, hs, H)
    requires h in s.owner && s.owner[h] !in H
    ensures h !in nc.hashes
  {
  }

  lemma StepOwners(s: State, s': State, nc: Class, c: Coord, hs: seq<Key>, H: set<nat>)
    requires OwnersLive(s) && HashesOwned(s) && IdsFresh(s) && Built(s, nc, c, hs, H)
    requires s' == State(Assign(s.owner, nc.hashes, s.next), (s.live - H)[s.next := nc], s.next + 1)
    ensures OwnersLive(s') && HashesOwned(s') && IdsFresh(s')
  {
    forall h | h in s'.owner
      ensures s'.owner[h] in s'.live && h in s'.live[s'.owner[h]].hashes
    {
      if h !in nc.hashes {
        if s.owner[h] in H {
          assert h in s.live[s.owner[h]].hashes;
        }
      }
    }
    forall id, h | id in s'.live && h in s'.live[id].hashes
      ensures h in s'.owner && s'.owner[h] == id
    {
      if id != s.next {
        NotTaken(s, nc, c, hs, H, h);
      }
    }
  }

  lemma StepPartition(s: State, s': State, nc: Class, c: Coord, hs: seq<Key>, H: set<nat>, seen: set<Coord>)
    requires ElementsSeen(s, seen) && Disjoint(s) && CanonicalMember(s) && IdsFresh(s) && Built(s, nc, c, hs, H)
    requires c !in seen
    requires s' == State(Assign(s.owner, nc.hashes, s.next), (s.live - H)[s.next := nc], s.next + 1)
    ensures ElementsSeen(s', seen + {c}) && Disjoint(s') && CanonicalMember(s')
  {
  }

  lemma StepCovered(s: State, s': State, nc: Class, c: Coord, hs: seq<Key>, H: set<nat>, seen: set<Coord>, cell: Coord -> Key)
    requires OwnersLive(s) && HashesOwned(s) && IdsFresh(s) && Covered(s, seen, cell) && Built(s, nc, c, hs, H)
    requires hs == Hashes(cell(c))
    requires s' == State(Assign(s.owner, nc.hashes, s.next), (s.live - H)[s.next := nc], s.next + 1)
    ensures Covered(s', seen + {c}, cell)
  {
    forall v | v in seen + {c}
      ensures KeysLead(s', v, Hashes(cell(v)))
    {
      if v != c {
        assert KeysLead(s, v, Hashes(cell(v)));
        forall h | h in Hashes(cell(v))
          ensures h in s'.owner && s'.owner[h] in s'.live && v in s'.live[s'.owner[h]].elements
        {
          KeyStillLeads(s, s', nc, c, hs, H, v, h);
        }
      }
    }
  }

  /** A key of an earlier point v still leads to v: to the new class when
      v's class was merged, to v's old class otherwise. */
  lemma KeyStillLeads(s: State, s': State, nc: Class, c: Coord, hs: seq<Key>, H: set<nat>, v: Coord, h: Key)
    requires OwnersLive(s) && HashesOwned(s) && IdsFresh(s) && Built(s, nc, c, hs, H)
    requires h in s.owner && s.owner[h] in s.live && v in s.live[s.owner[h]].elements
    requires s' == State(Assign(s.owner, nc.hashes, s.next), (s.live - H)[s.next := nc], s.next + 1)
    ensures h in s'.owner && s'.owner[h] in s'.live && v in s'.live[s'.owner[h]].elements
  {
    var id := s.owner[h];
    if id in H {
      assert h in s.live[id].hashes;
    } else {
      NotTaken(s, nc, c, hs, H, h);
    }
  }

  /** Step keeps the invariant, with c added to the points seen. */
  lemma StepValid(s: State, c: Coord, order: seq<nat>, seen: set<Coord>, cell: Coord -> Key)
    requires Valid(s, seen, cell) && c !in seen
    requires forall id :: id in order <==> id in Hit(s, Hashes(cell(c)))
    ensures forall i :: 0 <= i < |order| ==> order[i] in s.live
    ensures Valid(Step(s, c, Hashes(cell(c)), order), seen + {c}, cell)
  {
    var hs := Hashes(cell(c));
    var nc, H := StepShape(s, c, hs, order);
    var s' := Step(s, c, hs, order);
    StepOwners(s, s', nc, c, hs, H);
    StepPartition(s, s', nc, c, hs, H, seen);
    StepCovered(s, s', nc, c, hs, H, seen, cell);
  }

  /** Both branches of Step have the common shape. */
  lemma StepShape(s: State, c: Coord, hs: seq<Key>, order: seq<nat>) returns (nc: Class, H: set<nat>)
    requires OwnersLive(s)
    requires forall id :: id in order <==> id in Hit(s, hs)
    ensures forall i :: 0 <= i < |order| ==> order[i] in s.live
    ensures Built(s, nc, c, hs, H)
    ensures forall id :: id in H <==> id in order
    ensures Step(s, c, hs, order) == State(Assign(s.owner, nc.hashes, s.next), (s.live - H)[s.next := nc], s.next + 1)
  {
    H := Ids(order);
    assert forall h :: h in hs && h in s.owner ==> s.owner[h] in Hit(s, hs);
    HitLive(s, hs);
    assert forall i :: 0 <= i < |order| ==> order[i] in Hit(s, hs);
    MergeMembers(Class([c], hs, c), s.live, order);
    if |order| == 0 {
      nc := Class([c], hs, c);
      assert s.live - H == s.live;
    } else {
      nc := Merge(Class([c], hs, c), s.live, order);
    }
  }

  // ---------------------------------------------------------------------
  // Classes join near points only
  // ---------------------------------------------------------------------

  /** Every key a live class lists is a key of one of its points. */
  ghost predicate KeysFromElements(s: State, cell: Coord -> Key)
  {
    forall id, h :: id in s.live && h in s.live[id].hashes ==>
      exists u :: u in s.live[id].elements && h in Hashes(cell(u))
  }

  /** Every point of a live class is linked to the class's canonical point. */
  ghost predicate Connected(s: State, seen: set<Coord>, cell: Coord -> Key)
  {
    forall id, v :: id in s.live && v in s.live[id].elements ==> Linked(seen, cell, v, s.live[id].canonical)
  }

  /** The second half of the loop invariant: a class only ever gathers
      points joined by chains of near points. */
  ghost predicate Joined(s: State, seen: set<Coord>, cell: Coord -> Key)
  {
    KeysFromElements(s, cell) && Connected(s, seen, cell)
  }

  /** Step keeps Joined: a hit class was hit through a key of one of its
      points, and that point's cell is near c's. */
  lemma StepJoined(s: State, c: Coord, order: seq<nat>, seen: set<Coord>, cell: Coord -> Key)
    requires Valid(s, seen, cell) && Joined(s, seen, cell) && c !in seen
    requires forall id :: id in order <==> id in Hit(s, Hashes(cell(c)))
    ensures forall i :: 0 <= i < |order| ==> order[i] in s.live
    ensures Joined(Step(s, c, Hashes(cell(c)), order), seen + {c}, cell)
  {
    var hs := Hashes(cell(c));
    var nc, H := StepShape(s, c, hs, order);
    var s' := Step(s, c, hs, order);
    forall id, h | id in s'.live && h in s'.live[id].hashes
      ensures exists u :: u in s'.live[id].elements && h in Hashes(cell(u))
    {
      if id == s.next {
        if h in hs {
          assert c in nc.elements;
        } else {
          var id0 :| id0 in H && h in s.live[id0].hashes;
          var u :| u in s.live[id0].elements && h in Hashes(cell(u));
          assert u in nc.elements;
        }
      } else {
        assert s'.live[id] == s.live[id];
      }
    }
    forall id, v | id in s'.live && v in s'.live[id].elements
      ensures Linked(seen + {c}, cell, v, s'.live[id].canonical)
    {
      if id == s.next {
        JoinedLink(s, nc, c, H, seen, cell, v);
      } else {
        assert s'.live[id] == s.live[id];
        LinkedGrows(seen, seen + {c}, cell, v, s.live[id].canonical);
      }
    }
  }

  /** A point of the new class is linked to c. */
  lemma JoinedLink(s: State, nc: Class, c: Coord, H: set<nat>, seen: set<Coord>, cell: Coord -> Key, v: Coord)
    requires Valid(s, seen, cell) && Joined(s, seen, cell) && c !in seen
    requires Built(s, nc, c, Hashes(cell(c)), H)
    requires forall id :: id in H ==> id in Hit(s, Hashes(cell(c)))
    requires v in nc.elements
    ensures Linked(seen + {c}, cell, v, c)
  {
    var seen' := seen + {c};
    if v == c {
      LinkedSelf(seen', cell, c);
    } else {
      var hs := Hashes(cell(c));
      var id :| id in H && v in s.live[id].elements;
      assert id in Hit(s, hs);
      var h :| h in hs && h in s.owner && s.owner[h] == id;
      assert h in s.live[id].hashes;
      var u :| u in s.live[id].elements && h in Hashes(cell(u));
      HashesOverlap(cell(u), cell(c));
      var can := s.live[id].canonical;
      LinkedSymmetric(seen, cell, u, can);
      LinkedTransitive(seen, cell, v, can, u);
      LinkedGrows(seen, seen', cell, v, u);
      LinkedNear(seen', cell, u, c);
      LinkedTransitive(seen', cell, v, u, c);
    }
  }

  // ---------------------------------------------------------------------
  // Repair
  // ---------------------------------------------------------------------

  /** One pass of the vertex loop for the point c with keys hs. With no hit
      class, c becomes a singleton class that is canonical to itself and
      owns all of hs. Otherwise the hit classes are deleted and replaced by
      one class holding c and all their points, canonical to c, owning hs
      and all their keys without repeats. Either way the new class's keys
      point at it and no other key moves. The ghost parameters carry the
      loop invariant across the pass. */
  method AddVertex(s: State, c: Coord, hs: seq<Key>, ghost seen: set<Coord>, ghost cell: Coord -> Key) returns (s': State)
    requires OwnersLive(s)
    ensures Added(s, s', c, hs)
    ensures Valid(s, seen, cell) && c !in seen && hs == Hashes(cell(c)) ==> Valid(s', seen + {c}, cell)
    ensures Valid(s, seen, cell) && Joined(s, seen, cell) && c !in seen && hs == Hashes(cell(c)) ==>
      Joined(s', seen + {c}, cell)
  {
    var order := Enumerate(Hit(s, hs));
    StepClasses(s, c, hs, order);
    StepKeys(s, c, hs, order);
    s' := Step(s, c, hs, order);
    if Valid(s, seen, cell) && c !in seen && hs == Hashes(cell(c)) {
      StepValid(s, c, order, seen, cell);
      if Joined(s, seen, cell) {
        StepJoined(s, c, order, seen, cell);
      }
    }
  }

  /** s' is s after the pass for c with keys hs. */
  ghost predicate Added(s: State, s': State, c: Coord, hs: seq<Key>)
  {
    && s'.next == s.next + 1
    && (forall id :: id in s'.live <==> id == s.next || (id in s.live && id !in Hit(s, hs)))
    && (forall id :: id in s'.live && id != s.next ==> s'.live[id] == s.live[id])
    && (Hit(s, hs) == {} ==> s'.live[s.next] == Class([c], hs, c))
    && s'.live[s.next].canonical == c
    && (forall v :: v in s'.live[s.next].elements <==> v == c || exists id :: id in Hit(s, hs) && id in s.live && v in s.live[id].elements)
    && (forall h :: h in s'.live[s.next].hashes <==> h in hs || exists id :: id in Hit(s, hs) && id in s.live && h in s.live[id].hashes)
    && (Distinct(hs) ==> Distinct(s'.live[s.next].hashes))
    && (forall h :: h in s'.owner <==> h in s.owner || h in s'.live[s.next].hashes)
    && (forall h :: h in s'.live[s.next].hashes ==> s'.owner[h] == s.next)
    && (forall h :: h in s.owner && h !in s'.live[s.next].hashes ==> s'.owner[h] == s.owner[h])
  }

  /** What Step does to the classes. */
  lemma StepClasses(s: State, c: Coord, hs: seq<Key>, order: seq<nat>)
    requires OwnersLive(s)
    requires forall id :: id in order <==> id in Hit(s, hs)
    ensures forall i :: 0 <= i < |order| ==> order[i] in s.live
    ensures var s' := Step(s, c, hs, order);
      && (forall id :: id in s'.live <==> id == s.next || (id in s.live && id !in Hit(s, hs)))
      && (forall id :: id in s'.live && id != s.next ==> s'.live[id] == s.live[id])
      && (Hit(s, hs) == {} ==> s'.live[s.next] == Class([c], hs, c))
      && s'.live[s.next].canonical == c
      && (forall v :: v in s'.live[s.next].elements <==> v == c || exists id :: id in Hit(s, hs) && id in s.live && v in s.live[id].elements)
      && (forall h :: h in s'.live[s.next].hashes <==> h in hs || exists id :: id in Hit(s, hs) && id in s.live && h in s.live[id].hashes)
      && (Distinct(hs) ==> Distinct(s'.live[s.next].hashes))
  {
    var nc, H := StepShape(s, c, hs, order);
    MergeMembers(Class([c], hs, c), s.live, order);
  }

  /** What Step does to the keys. */
  lemma StepKeys(s: State, c: Coord, hs: seq<Key>, order: seq<nat>)
    requires OwnersLive(s)
    requires forall id :: id in order <==> id in Hit(s, hs)
    ensures forall i :: 0 <= i < |order| ==> order[i] in s.live
    ensures var s' := Step(s, c, hs, order);
      && s'.next == s.next + 1 && s.next in s'.live
      && (forall h :: h in s'.owner <==> h in s.owner || h in s'.live[s.next].hashes)
      && (forall h :: h in s'.live[s.next].hashes ==> s'.owner[h] == s.next)
      && (forall h :: h in s.owner && h !in s'.live[s.next].hashes ==> s'.owner[h] == s.owner[h])
  {
    var nc, H := StepShape(s, c, hs, order);
  }

  /** The coordToClass loop, looking up canonical points directly: every
      point of a live class gets the canonical point of a live class
      holding it. */
  method CanonicalMap(s: State) returns (cm: map<Coord, Coord>)
    ensures forall id, v :: id in s.live && v in s.live[id].elements ==> v in cm
    ensures forall v :: v in cm ==> exists id :: id in s.live && v in s.live[id].elements && cm[v] == s.live[id].canonical
  {
    cm := map[];
    var ids := Enumerate(s.live.Keys);
    var i := 0;
    while i < |ids|
      invariant 0 <= i <= |ids|
      invariant forall j, v :: 0 <= j < i && v in s.live[ids[j]].elements ==> v in cm
      invariant forall v :: v in cm ==> exists id :: id in s.live && v in s.live[id].elements && cm[v] == s.live[id].canonical
    {
      var cls := s.live[ids[i]];
      var e := 0;
      while e < |cls.elements|
        invariant 0 <= e <= |cls.elements|
        invariant forall j, v :: 0 <= j < i && v in s.live[ids[j]].elements ==> v in cm
        invariant forall e' :: 0 <= e' < e ==> cls.elements[e'] in cm
        invariant forall v :: v in cm ==> exists id :: id in s.live && v in s.live[id].elements && cm[v] == s.live[id].canonical
      {
        cm := cm[cls.elements[e] := cls.canonical];
        e := e + 1;
      }
      i := i + 1;
    }
  }

  /** The points of a mesh: the keys of its vertex-to-triangle index. */
  function Vertices(m: Mesh): set<Coord>
  {
    set k, i | 0 <= k < |m| && 0 <= i < 3 :: At(m[k], i)
  }

  /** MapCoords with the lookup cm: every corner of every triangle is
      replaced by its image. */
  function Relabel(m: Mesh, cm: map<Coord, Coord>): (r: Mesh)
    requires forall k :: 0 <= k < |m| ==> m[k].p0 in cm && m[k].p1 in cm && m[k].p2 in cm
    ensures |r| == |m|
    ensures forall k :: 0 <= k < |m| ==> r[k] == Tri(cm[m[k].p0], cm[m[k].p1], cm[m[k].p2])
    decreases |m|
  {
    if |m| == 0 then [] else [Tri(cm[m[0].p0], cm[m[0].p1], cm[m[0].p2])] + Relabel(m[1..], cm)
  }

  /** The vertex loop of Repair: every point of the mesh, in map order,
      passes through AddVertex, leaving classes that partition the points. */
  method Classify(m: Mesh, cell: Coord -> Key) returns (s: State)
    ensures Valid(s, Vertices(m), cell) && Connected(s, Vertices(m), cell)
  {
    var rest := Vertices(m);
    s := State(map[], map[], 0);
    ghost var seen: set<Coord> := {};
    while rest != {}
      invariant Valid(s, seen, cell) && Joined(s, seen, cell)
      invariant seen !! rest && seen + rest == Vertices(m)
      decreases |rest|
    {
      var c :| c in rest;
      s := AddVertex(s, c, Hashes(cell(c)), seen, cell);
      seen := seen + {c};
      rest := rest - {c};
    }
  }

  /** Mesh.Repair with cell standing in for math.Round(c/epsilon). The
      mesh keeps its triangles and every corner moves to the canonical
      point of its class, and the classes are exactly the connected
      components of nearness: each corner moves to a point of the mesh
      linked to it by a chain of near points, two corners end up at the
      same point exactly when they are so linked, and a corner whose cell
      is near no other vertex's keeps its place. */
  method Repair(m: Mesh, cell: Coord -> Key) returns (r: Mesh)
    ensures |r| == |m|
    ensures forall k, i :: 0 <= k < |m| && 0 <= i < 3 ==>
      At(r[k], i) in Vertices(m) && Linked(Vertices(m), cell, At(m[k], i), At(r[k], i))
    ensures forall k, i, k', i' :: 0 <= k < |m| && 0 <= i < 3 && 0 <= k' < |m| && 0 <= i' < 3 ==>
      (At(r[k], i) == At(r[k'], i') <==> Linked(Vertices(m), cell, At(m[k], i), At(m[k'], i')))
    ensures forall k, i, k', i' :: NearCorners(m, cell, k, i, k', i') ==> At(r[k], i) == At(r[k'], i')
    ensures forall k, i :: 0 <= k < |m| && 0 <= i < 3 && Isolated(Vertices(m), cell, At(m[k], i)) ==>
      At(r[k], i) == At(m[k], i)
  {
    var cm := Canonicalize(m, cell);
    r := Relabel(m, cm);
    Repaired(m, Vertices(m), cell, cm);
  }

  /** The vertex loop and then the coordToClass loop: the lookup Repair
      relabels the mesh with. */
  method Canonicalize(m: Mesh, cell: Coord -> Key) returns (cm: map<Coord, Coord>)
    ensures Prepared(m, Vertices(m), cell, cm)
    ensures forall k :: 0 <= k < |m| ==> m[k].p0 in cm && m[k].p1 in cm && m[k].p2 in cm
  {
    var s := Classify(m, cell);
    cm := CanonicalMap(s);
    Prepare(m, s, cell, cm);
  }

  /** What the lookup of a finished vertex loop does with each point of the
      mesh: it is mapped, to a point of the mesh linked to it, and near
      points share their image. */
  ghost predicate Prepared(m: Mesh, seen: set<Coord>, cell: Coord -> Key, cm: map<Coord, Coord>)
  {
    MapsSeen(cm, seen) && CornersSeen(m, seen) && NearAlike(cm, seen, cell) && LinkedImages(cm, seen, cell)
  }

  lemma Prepare(m: Mesh, s: State, cell: Coord -> Key, cm: map<Coord, Coord>)
    requires Valid(s, Vertices(m), cell) && Connected(s, Vertices(m), cell) && Lookup(s, cm)
    ensures Prepared(m, Vertices(m), cell, cm)
    ensures forall k :: 0 <= k < |m| ==> m[k].p0 in cm && m[k].p1 in cm && m[k].p2 in cm
  {
    var seen := Vertices(m);
    forall k | 0 <= k < |m|
      ensures CornerSeen(m, seen, k)
    {
      CornersIn(m, k);
    }
    AllMapped(s, seen, cell, cm);
    forall k | 0 <= k < |m|
      ensures m[k].p0 in cm && m[k].p1 in cm && m[k].p2 in cm
    {
      assert CornerSeen(m, seen, k);
    }
    NearSameImage(s, seen, cell, cm);
    ImagesLinked(s, seen, cell, cm);
  }

  /** Relabelling with such a lookup. */
  lemma Repaired(m: Mesh, seen: set<Coord>, cell: Coord -> Key, cm: map<Coord, Coord>)
    requires Prepared(m, seen, cell, cm)
    requires forall k :: 0 <= k < |m| ==> m[k].p0 in cm && m[k].p1 in cm && m[k].p2 in cm
    ensures var r := Relabel(m, cm);
      && (forall k, i :: 0 <= k < |m| && 0 <= i < 3 ==>
            At(r[k], i) in seen && Linked(seen, cell, At(m[k], i), At(r[k], i)))
      && (forall k, i, k', i' :: 0 <= k < |m| && 0 <= i < 3 && 0 <= k' < |m| && 0 <= i' < 3 ==>
            (At(r[k], i) == At(r[k'], i') <==> Linked(seen, cell, At(m[k], i), At(m[k'], i'))))
      && (forall k, i, k', i' :: NearCorners(m, cell, k, i, k', i') ==> At(r[k], i) == At(r[k'], i'))
      && (forall k, i :: 0 <= k < |m| && 0 <= i < 3 && Isolated(seen, cell, At(m[k], i)) ==>
            At(r[k], i) == At(m[k], i))
  {
    var r := Relabel(m, cm);
    RepairedCorners(m, seen, cell, cm, r);
    forall k, i | 0 <= k < |m| && 0 <= i < 3
      ensures Linked(seen, cell, At(m[k], i), At(r[k], i))
    {
      RepairedCorner(m, seen, cm, r, k, i);
    }
    forall k, i, k', i' | 0 <= k < |m| && 0 <= i < 3 && 0 <= k' < |m| && 0 <= i' < 3
      ensures At(r[k], i) == At(r[k'], i') <==> Linked(seen, cell, At(m[k], i), At(m[k'], i'))
    {
      RepairedCorner(m, seen, cm, r, k, i);
      RepairedCorner(m, seen, cm, r, k', i');
      SameImageLinked(seen, cell, cm, At(m[k], i), At(m[k'], i'));
    }
    forall k, i | 0 <= k < |m| && 0 <= i < 3 && Isolated(seen, cell, At(m[k], i))
      ensures At(r[k], i) == At(m[k], i)
    {
      RepairedCorner(m, seen, cm, r, k, i);
      IsolatedAlone(seen, cell, At(m[k], i), At(r[k], i));
    }
  }

  /** Every seen point is linked to its image. */
  ghost predicate LinkedImages(cm: map<Coord, Coord>, seen: set<Coord>, cell: Coord -> Key)
  {
    forall v {:trigger cm[v]} :: v in seen ==> v in cm && Linked(seen, cell, v, cm[v])
  }

  lemma ImagesLinked(s: State, seen: set<Coord>, cell: Coord -> Key, cm: map<Coord, Coord>)
    requires Valid(s, seen, cell) && Connected(s, seen, cell) && Lookup(s, cm)
    ensures LinkedImages(cm, seen, cell)
  {
    forall v | v in seen
      ensures v in cm && Linked(seen, cell, v, cm[v])
    {
      Mapped(s, seen, cell, cm, v);
      var id :| id in s.live && v in s.live[id].elements && cm[v] == s.live[id].canonical;
    }
  }

  /** Two seen points have one image exactly when they are linked. */
  lemma SameImageLinked(seen: set<Coord>, cell: Coord -> Key, cm: map<Coord, Coord>, p: Coord, q: Coord)
    requires MapsSeen(cm, seen) && LinkedImages(cm, seen, cell) && NearAlike(cm, seen, cell)
    requires p in seen && q in seen
    ensures cm[p] == cm[q] <==> Linked(seen, cell, p, q)
  {
    if cm[p] == cm[q] {
      LinkedSymmetric(seen, cell, q, cm[q]);
      LinkedTransitive(seen, cell, p, cm[p], q);
    }
    if Linked(seen, cell, p, q) {
      ChainSameImage(seen, cell, cm, p, q);
    }
  }

  /** Near steps keep the image, so a whole chain does. */
  lemma ChainSameImage(seen: set<Coord>, cell: Coord -> Key, cm: map<Coord, Coord>, p: Coord, q: Coord)
    requires NearAlike(cm, seen, cell) && p in cm
    requires Linked(seen, cell, p, q)
    ensures q in cm && cm[q] == cm[p]
  {
    var ps :| Chain(ps, seen, cell, p, q);
    var j := 0;
    while j < |ps| - 1
      invariant 0 <= j <= |ps| - 1 && ps[j] in cm && cm[ps[j]] == cm[p]
    {
      assert OnChain(ps, seen, j) && OnChain(ps, seen, j + 1) && NearStep(ps, cell, j);
      j := j + 1;
    }
  }

  /** cm sends every point of a live class to the canonical point of a
      live class holding it. */
  ghost predicate Lookup(s: State, cm: map<Coord, Coord>)
  {
    && (forall id, v :: id in s.live && v in s.live[id].elements ==> v in cm)
    && (forall v :: v in cm ==> exists id :: id in s.live && v in s.live[id].elements && cm[v] == s.live[id].canonical)
  }

  ghost predicate CornersSeen(m: Mesh, seen: set<Coord>)
  {
    forall k :: 0 <= k < |m| ==> CornerSeen(m, seen, k)
  }

  ghost predicate CornerSeen(m: Mesh, seen: set<Coord>, k: int)
  {
    0 <= k < |m| && m[k].p0 in seen && m[k].p1 in seen && m[k].p2 in seen
  }

  /** cm maps every seen point to a seen point. */
  ghost predicate MapsSeen(cm: map<Coord, Coord>, seen: set<Coord>)
  {
    (forall v :: v in seen ==> v in cm) && (forall v {:trigger cm[v]} :: v in seen ==> cm[v] in seen)
  }

  lemma AllMapped(s: State, seen: set<Coord>, cell: Coord -> Key, cm: map<Coord, Coord>)
    requires Valid(s, seen, cell) && Lookup(s, cm)
    ensures MapsSeen(cm, seen)
  {
    forall v | v in seen
      ensures v in cm && cm[v] in seen
    {
      Mapped(s, seen, cell, cm, v);
    }
  }

  lemma RepairedCorners(m: Mesh, seen: set<Coord>, cell: Coord -> Key, cm: map<Coord, Coord>, r: Mesh)
    requires MapsSeen(cm, seen) && CornersSeen(m, seen) && NearAlike(cm, seen, cell)
    requires forall k :: 0 <= k < |m| ==> m[k].p0 in cm && m[k].p1 in cm && m[k].p2 in cm
    requires r == Relabel(m, cm)
    ensures forall k, i :: 0 <= k < |m| && 0 <= i < 3 ==> At(r[k], i) in seen
    ensures forall k, i, k', i' :: NearCorners(m, cell, k, i, k', i') ==> At(r[k], i) == At(r[k'], i')
  {
    forall k, i | 0 <= k < |m| && 0 <= i < 3
      ensures At(r[k], i) in seen
    {
      RepairedCorner(m, seen, cm, r, k, i);
    }
    forall k, i, k', i' | NearCorners(m, cell, k, i, k', i')
      ensures At(r[k], i) == At(r[k'], i')
    {
      RepairedPair(m, seen, cell, cm, r, k, i, k', i');
    }
  }

  lemma RepairedPair(m: Mesh, seen: set<Coord>, cell: Coord -> Key, cm: map<Coord, Coord>, r: Mesh,
                     k: int, i: int, k': int, i': int)
    requires MapsSeen(cm, seen) && CornersSeen(m, seen) && NearAlike(cm, seen, cell)
    requires forall k :: 0 <= k < |m| ==> m[k].p0 in cm && m[k].p1 in cm && m[k].p2 in cm
    requires r == Relabel(m, cm)
    requires NearCorners(m, cell, k, i, k', i')
    ensures At(r[k], i) == At(r[k'], i')
  {
    RepairedCorner(m, seen, cm, r, k, i);
    RepairedCorner(m, seen, cm, r, k', i');
  }

  /** Corner i of triangle k and corner i' of triangle k' have near cells. */
  predicate NearCorners(m: Mesh, cell: Coord -> Key, k: int, i: int, k': int, i': int)
  {
    0 <= k < |m| && 0 <= i < 3 && 0 <= k' < |m| && 0 <= i' < 3
    && Near(cell(At(m[k], i)), cell(At(m[k'], i')))
  }

  /** Seen points whose cells are near have one image. */
  ghost predicate NearAlike(cm: map<Coord, Coord>, seen: set<Coord>, cell: Coord -> Key)
  {
    forall p, q {:trigger Near(cell(p), cell(q))} :: p in seen && q in seen && Near(cell(p), cell(q)) ==> p in cm && q in cm && cm[p] == cm[q]
  }

  lemma NearSameImage(s: State, seen: set<Coord>, cell: Coord -> Key, cm: map<Coord, Coord>)
    requires Valid(s, seen, cell) && Lookup(s, cm)
    ensures NearAlike(cm, seen, cell)
  {
    forall p, q | p in seen && q in seen && Near(cell(p), cell(q))
      ensures p in cm && q in cm && cm[p] == cm[q]
    {
      SameClass(s, seen, cell, cm, p, q);
    }
  }

  /** Corner i of triangle k is mapped through cm, to a seen point. */
  lemma RepairedCorner(m: Mesh, seen: set<Coord>, cm: map<Coord, Coord>, r: Mesh, k: int, i: int)
    requires MapsSeen(cm, seen) && CornersSeen(m, seen)
    requires forall k :: 0 <= k < |m| ==> m[k].p0 in cm && m[k].p1 in cm && m[k].p2 in cm
    requires r == Relabel(m, cm)
    requires 0 <= k < |m| && 0 <= i < 3
    ensures At(m[k], i) in seen && At(m[k], i) in cm
    ensures At(r[k], i) == cm[At(m[k], i)] && At(r[k], i) in seen
  {
    assert CornerSeen(m, seen, k);
    assert r[k] == Tri(cm[m[k].p0], cm[m[k].p1], cm[m[k].p2]);
  }

  lemma CornersIn(m: Mesh, k: int)
    requires 0 <= k < |m|
    ensures forall i :: 0 <= i < 3 ==> At(m[k], i) in Vertices(m)
    ensures m[k].p0 in Vertices(m) && m[k].p1 in Vertices(m) && m[k].p2 in Vertices(m)
  {
    assert At(m[k], 0) == m[k].p0 && At(m[k], 1) == m[k].p1 && At(m[k], 2) == m[k].p2;
  }

  /** A seen point is mapped, to a seen point. */
  lemma Mapped(s: State, seen: set<Coord>, cell: Coord -> Key, cm: map<Coord, Coord>, p: Coord)
    requires Valid(s, seen, cell) && Lookup(s, cm) && p in seen
    ensures p in cm && cm[p] in seen
  {
    var h := Hashes(cell(p))[0];
    assert h in Hashes(cell(p));
    assert KeysLead(s, p, Hashes(cell(p)));
    assert p in s.live[s.owner[h]].elements;
    var id' :| id' in s.live && p in s.live[id'].elements && cm[p] == s.live[id'].canonical;
  }

  /** Two seen points whose cells are near are in one class, so they get
      the same canonical point. */
  lemma SameClass(s: State, seen: set<Coord>, cell: Coord -> Key, cm: map<Coord, Coord>, p: Coord, q: Coord)
    requires Valid(s, seen, cell) && Lookup(s, cm) && p in seen && q in seen
    requires Near(cell(p), cell(q))
    ensures p in cm && q in cm && cm[p] == cm[q]
  {
    var h := CommonHash(cell(p), cell(q));
    assert KeysLead(s, p, Hashes(cell(p))) && KeysLead(s, q, Hashes(cell(q)));
    var id := s.owner[h];
    var ip :| ip in s.live && p in s.live[ip].elements && cm[p] == s.live[ip].canonical;
    var iq :| iq in s.live && q in s.live[iq].elements && cm[q] == s.live[iq].canonical;
    assert ip == id && iq == id;
  }
}
