/**
  Bag paths: bag_remove_keys and bag_set_key in internal/database/kql_bag_operations.go, bag_has_key in
  sqlite_functions.go.
 */
module Bags {
  import opened Limits
  import opened Wrappers

  type Path = seq<string>

  /** A JSON value: an object with its members, or the raw text of anything else. */
  datatype Value = Leaf(raw: string) | Bag(members: map<string, Value>)

  // ----- What stands at a path -----------------------------------------------------------------

  datatype Mark = Raw(raw: string) | Inner

  ghost function At(v: Value, q: Path): Option<Mark>
    decreases |q|
  {
    if q == [] then Some(if v.Leaf? then Raw(v.raw) else Inner)
    else if v.Bag? && q[0] in v.members then At(v.members[q[0]], q[1..])
    else None
  }

  lemma AtMember(v: Value, k: string, q: Path)
    requires v.Bag?
    ensures At(v, [k] + q) == if k in v.members then At(v.members[k], q) else None
  {
    assert ([k] + q)[1..] == q;
  }

  /** Values are the same when the same stands at every path. */
  lemma {:induction false} SameAtAll(a: Value, b: Value)
    requires forall q :: At(a, q) == At(b, q)
    ensures a == b
    decreases a
  {
    assert At(a, []) == At(b, []);
    if a.Bag? {
      forall k
        ensures k in a.members <==> k in b.members
        ensures k in a.members && k in b.members ==> a.members[k] == b.members[k]
      {
        AtMember(a, k, []);
        AtMember(b, k, []);
        assert At(a, [k] + []) == At(b, [k] + []);
        if k in a.members && k in b.members {
          forall q
            ensures At(a.members[k], q) == At(b.members[k], q)
          {
            AtMember(a, k, q);
            AtMember(b, k, q);
            assert At(a, [k] + q) == At(b, [k] + q);
          }
          SameAtAll(a.members[k], b.members[k]);
        }
      }
      assert a.members == b.members;
    }
  }

  // ----- Removing one path, and one after the other ------------------------------------------------

  function Remove(v: Value, path: Path): Value
    decreases |path|
  {
    if v.Leaf? || path == [] || path[0] !in v.members then v
    else if |path| == 1 then Bag(v.members - {path[0]})
    else Bag(v.members[path[0] := Remove(v.members[path[0]], path[1..])])
  }

  function RemoveEach(v: Value, paths: seq<Path>): Value
    decreases |paths|
  {
    if paths == [] then v else RemoveEach(Remove(v, paths[0]), paths[1..])
  }

  lemma PrefixStep(p: Path, q: Path)
    requires p != [] && q != []
    ensures p <= q <==> p[0] == q[0] && p[1..] <= q[1..]
  {
    if p[0] == q[0] && p[1..] <= q[1..] {
      assert p == [p[0]] + p[1..] && q == [q[0]] + q[1..];
    }
  }

  lemma {:induction false} RemoveAt(v: Value, path: Path, q: Path)
    requires path != []
    ensures At(Remove(v, path), q) == if path <= q then None else At(v, q)
    decreases |path|
  {
    if q != [] {
      PrefixStep(path, q);
      if v.Bag? && path[0] in v.members && path[0] == q[0] && |path| > 1 {
        RemoveAt(v.members[path[0]], path[1..], q[1..]);
      }
    }
  }

  /** Some listed path leads to q or above it. */
  ghost predicate Covered(paths: seq<Path>, q: Path) {
    exists i :: 0 <= i < |paths| && paths[i] <= q
  }

  lemma {:induction false} RemoveEachAt(v: Value, paths: seq<Path>, q: Path)
    requires forall i :: 0 <= i < |paths| ==> paths[i] != []
    ensures At(RemoveEach(v, paths), q) == if Covered(paths, q) then None else At(v, q)
    decreases |paths|
  {
    if paths != [] {
      RemoveEachAt(Remove(v, paths[0]), paths[1..], q);
      RemoveAt(v, paths[0], q);
      assert Covered(paths[1..], q) ==> Covered(paths, q) by {
        if Covered(paths[1..], q) {
          var i :| 0 <= i < |paths[1..]| && paths[1..][i] <= q;
          assert paths[i + 1] <= q;
        }
      }
      if Covered(paths, q) && !(paths[0] <= q) {
        var i :| 0 <= i < |paths| && paths[i] <= q;
        assert paths[1..][i - 1] <= q;
      }
    }
  }

  /** The order of the removals does not matter, nor does removing a path twice. */
  lemma OrderDoesNotMatter(v: Value, a: seq<Path>, b: seq<Path>)
    requires forall p :: p in a <==> p in b
    requires [] !in a
    ensures RemoveEach(v, a) == RemoveEach(v, b)
  {
    forall q
      ensures At(RemoveEach(v, a), q) == At(RemoveEach(v, b), q)
    {
      RemoveEachAt(v, a, q);
      RemoveEachAt(v, b, q);
      CoveredBySet(a, b, q);
      CoveredBySet(b, a, q);
    }
    SameAtAll(RemoveEach(v, a), RemoveEach(v, b));
  }

  lemma CoveredBySet(a: seq<Path>, b: seq<Path>, q: Path)
    requires forall p :: p in a ==> p in b
    ensures Covered(a, q) ==> Covered(b, q)
  {
    if Covered(a, q) {
      var i :| 0 <= i < |a| && a[i] <= q;
      assert a[i] in b;
    }
  }

  // ----- Setting a path ----------------------------------------------------------------------------

  /** None where the path leads through something that is not an object. */
  function Put(v: Value, path: Path, value: Value): Option<Value>
    requires path != []
    decreases |path|
  {
    if v.Leaf? then None
    else if |path| == 1 then Some(Bag(v.members[path[0] := value]))
    else
      match Put(if path[0] in v.members then v.members[path[0]] else Bag(map[]), path[1..], value)
      case None => None
      case Some(nested) => Some(Bag(v.members[path[0] := nested]))
  }

  /** At the path stands the value, above it objects, elsewhere what was there before. */
  lemma {:induction false} PutAt(v: Value, path: Path, value: Value, q: Path)
    requires path != [] && Put(v, path, value).Some?
    ensures At(Put(v, path, value).value, q) ==
            if path <= q then At(value, q[|path|..]) else if q <= path then Some(Inner) else At(v, q)
    decreases |path|
  {
    if q != [] {
      PrefixStep(path, q);
      PrefixStep(q, path);
      if path[0] == q[0] {
        if |path| == 1 {
          assert path[1..] == [] <= q[1..];
        } else {
          PutAt(if path[0] in v.members then v.members[path[0]] else Bag(map[]), path[1..], value, q[1..]);
          NothingInside(q[1..]);
          assert path <= q ==> q[1..][|path| - 1..] == q[|path|..];
        }
      }
    }
  }

  lemma NothingInside(q: Path)
    ensures At(Bag(map[]), q) == if q == [] then Some(Inner) else None
  {}

  /** Setting is refused exactly when something other than an object stands above the path. */
  lemma {:induction false} PutRefused(v: Value, path: Path, value: Value)
    requires path != [] && v.Bag?
    ensures Put(v, path, value).None? <==> exists i ::
              0 < i < |path| && At(v, path[..i]).Some? && At(v, path[..i]).value.Raw?
    decreases |path|
  {
    if |path| > 1 {
      var k := path[0];
      forall i | 0 < i < |path|
        ensures At(v, path[..i]) == if k in v.members then At(v.members[k], path[1..][..i - 1]) else None
      {
        assert path[..i] == [k] + path[1..][..i - 1];
        AtMember(v, k, path[1..][..i - 1]);
      }
      var next := if k in v.members then v.members[k] else Bag(map[]);
      if next.Bag? {
        PutRefused(next, path[1..], value);
        forall i | 0 < i < |path| - 1
          ensures At(next, path[1..][..i]) == At(v, path[..i + 1]) || k !in v.members
        {}
        NothingAbove(v, path, next);
      } else {
        assert At(v, path[..1]) == At(next, []);
      }
    }
  }

  lemma NothingAbove(v: Value, path: Path, next: Value)
    requires |path| > 1 && v.Bag? && next == (if path[0] in v.members then v.members[path[0]] else Bag(map[])) &&
               next.Bag?
    ensures (exists i :: 0 < i < |path| && At(v, path[..i]).Some? && At(v, path[..i]).value.Raw?) <==>
            exists i :: 0 < i < |path| - 1 && At(next, path[1..][..i]).Some? && At(next, path[1..][..i]).value.Raw?
  {
    var k, rest := path[0], path[1..];
    forall i | 0 < i < |path|
      ensures At(v, path[..i]) == if k in v.members then At(next, rest[..i - 1]) else None
    {
      assert path[..i] == [k] + rest[..i - 1];
      AtMember(v, k, rest[..i - 1]);
    }
    if i :| 0 < i < |path| && At(v, path[..i]).Some? && At(v, path[..i]).value.Raw? {
      assert rest[..0] == [];
      assert At(next, rest[..i - 1]).value.Raw?;
    }
    if i :| 0 < i < |path| - 1 && At(next, rest[..i]).Some? && At(next, rest[..i]).value.Raw? {
      NothingInside(rest[..i]);
      assert At(v, path[..i + 1]) == At(next, rest[..i]);
    }
  }

  function Below(p: Path, k: string): (q: Path)
    ensures q != [] && Parent(q) == p && Last(q) == k
  {
    p + [k]
  }

  function Parent(p: Path): Path
    requires p != []
  {
    p[..|p| - 1]
  }

  function Last(p: Path): string
    requires p != []
  {
    p[|p| - 1]
  }

  // ----- Removing all paths at once ------------------------------------------------------------

  /** Some marked path leads to q or above it. */
  ghost predicate Hit(marks: set<Path>, q: Path) {
    exists m :: m in marks && m <= q
  }

  /** What is left of the value at path at when everything at a marked path is removed. */
  ghost function Prune(v: Value, at: Path, marks: set<Path>): Value
    decreases v
  {
    if v.Leaf? then v
    else Bag(map k | k in v.members && Below(at, k) !in marks :: Prune(v.members[k], Below(at, k), marks))
  }

  lemma {:induction false} PruneAt(v: Value, at: Path, marks: set<Path>, q: Path)
    requires forall m :: m in marks ==> !(m <= at)
    ensures At(Prune(v, at, marks), q) == if Hit(marks, at + q) then None else At(v, q)
    decreases |q|
  {
    if q == [] {
      assert at + q == at;
    } else {
      var k := q[0];
      assert at + q == (at + [k]) + q[1..];
      if at + [k] in marks {
        assert at + [k] <= at + q;
      } else if v.Bag? && k in v.members {
        forall m | m in marks
          ensures !(m <= at + [k])
        {
          assert m <= at + [k] ==> m <= at || m == at + [k];
        }
        PruneAt(v.members[k], at + [k], marks, q[1..]);
      }
    }
  }

  /** Where no mark lies below, nothing is removed. */
  lemma {:induction false} PruneNothing(v: Value, at: Path, marks: set<Path>)
    requires forall m :: m in marks ==> !(at <= m)
    ensures Prune(v, at, marks) == v
    decreases v
  {
    if v.Bag? {
      forall k | k in v.members
        ensures Below(at, k) !in marks && Prune(v.members[k], Below(at, k), marks) == v.members[k]
      {
        assert at <= at + [k];
        forall m | m in marks
          ensures !(at + [k] <= m)
        {
          assert at + [k] <= m ==> at <= m;
        }
        PruneNothing(v.members[k], at + [k], marks);
      }
    }
  }

  // ----- Sizes ---------------------------------------------------------------------------------------

  /** The value and all values in it have at most this size, and no object has more than 65536 members. */
  ghost predicate Small(v: Value, size: Value -> nat, most: nat)
    decreases v
  {
    size(v) <= most &&
    (v.Bag? ==> |v.members| <= 65536 && forall k :: k in v.members ==> Small(v.members[k], size, most))
  }

  lemma SmallMember(v: Value, size: Value -> nat, most: nat, k: string)
    requires v.Bag? && k in v.members && Small(v, size, most)
    ensures Small(v.members[k], size, most) && size(v.members[k]) <= most
  {}

  lemma SmallPruned(v: Value, at: Path, marks: set<Path>, size: Value -> nat, most: nat, k: string)
    requires v.Bag? && k in v.members && Below(at, k) !in marks && Small(Prune(v, at, marks), size, most)
    ensures Small(Prune(v.members[k], Below(at, k), marks), size, most)
    ensures size(Prune(v.members[k], Below(at, k), marks)) <= most
  {
    assert Prune(v, at, marks).members[k] == Prune(v.members[k], Below(at, k), marks);
  }

  /** Steps that cost at most this much each. */
  function Spent(steps: nat, cost: nat): nat {
    steps * cost
  }

  lemma MoreSpent(a: nat, b: nat, cost: nat)
    ensures Spent(a + 1 + b, cost) == Spent(a, cost) + cost + Spent(b, cost)
    ensures a <= b ==> Spent(a, cost) <= Spent(b, cost)
  {
    assert (a + 1 + b) * cost == a * cost + cost + b * cost;
    if a <= b {
      assert b * cost == a * cost + (b - a) * cost;
    }
  }

  // ----- The tree of removals ----------------------------------------------------------------------

  class Removal {
    var remove: bool
    var children: map<string, Removal>

    constructor ()
      ensures !remove && children == map[]
    {
      remove, children := false, map[];
    }
  }

  /** The nodes of a tree by the paths that lead to them: every node once, with exactly its children below it. */
  ghost predicate Shape(nodes: map<Path, Removal>, kids: map<Path, map<string, Removal>>) {
    [] in nodes && nodes.Keys == kids.Keys && Once(nodes) && Down(nodes, kids) && Up(nodes, kids)
  }

  ghost predicate Once(nodes: map<Path, Removal>) {
    forall p, q :: p in nodes && q in nodes && nodes[p] == nodes[q] ==> p == q
  }

  ghost predicate Down(nodes: map<Path, Removal>, kids: map<Path, map<string, Removal>>) {
    forall p, k :: p in kids && k in kids[p] ==> Below(p, k) in nodes && nodes[Below(p, k)] == kids[p][k]
  }

  ghost predicate Up(nodes: map<Path, Removal>, kids: map<Path, map<string, Removal>>) {
    forall p {:trigger Last(p)} :: p in nodes && p != [] ==> Parent(p) in kids && Last(p) in kids[Parent(p)]
  }

  ghost function Kids(nodes: map<Path, Removal>): map<Path, map<string, Removal>>
    reads nodes.Values
  {
    map p | p in nodes :: nodes[p].children
  }

  ghost predicate Tree(nodes: map<Path, Removal>)
    reads nodes.Values
  {
    Shape(nodes, Kids(nodes)) && !nodes[[]].remove
  }

  ghost function Marks(nodes: map<Path, Removal>): set<Path>
    reads nodes.Values
  {
    set p | p in nodes && nodes[p].remove
  }

  lemma {:induction false} PrefixesAreNodes(nodes: map<Path, Removal>, p: Path, i: nat)
    requires Tree(nodes) && p in nodes && i <= |p|
    ensures p[..i] in nodes && (i < |p| ==> p[i] in nodes[p[..i]].children)
    decreases |p|
  {
    hide Down, Once;
    if p != [] {
      var last := Last(p);
      assert Parent(p) in nodes && last in nodes[Parent(p)].children;
    }
    if i == |p| {
      assert p[..i] == p;
    } else if i == |p| - 1 {
      assert p[..i] == Parent(p);
    } else {
      PrefixesAreNodes(nodes, Parent(p), i);
      assert Parent(p)[..i] == p[..i];
    }
  }

  /** The tree with one more node, which has no children yet. */
  ghost function GrownKids(kids: map<Path, map<string, Removal>>, at: Path, k: string,
                           child: Removal): (more: map<Path, map<string, Removal>>)
    requires at in kids
    ensures Below(at, k) in more && more[Below(at, k)] == map[]
    ensures forall p :: p in kids && p != Below(at, k) ==> p in more && more[p] == if p == at then kids[p][k := child]
              else kids[p]
    ensures more.Keys == kids.Keys + {Below(at, k)}
  {
    kids[at := kids[at][k := child]][Below(at, k) := map[]]
  }

  lemma GrowUp(nodes: map<Path, Removal>, kids: map<Path, map<string, Removal>>, at: Path, k: string, child: Removal)
    requires nodes.Keys == kids.Keys && Up(nodes, kids) && at in nodes && Below(at, k) !in nodes
    ensures Up(nodes[Below(at, k) := child], GrownKids(kids, at, k, child))
  {
    hide Below, GrownKids;
    var below, more := Below(at, k), GrownKids(kids, at, k, child);
    forall p | (p in nodes || p == below) && p != []
      ensures Parent(p) in more && Last(p) in more[Parent(p)]
    {
      if p == below {
        assert at != below;
      } else {
        var last := Last(p);
        assert Parent(p) in kids && last in kids[Parent(p)] && Parent(p) != below;
      }
    }
  }

  lemma GrowDown(nodes: map<Path, Removal>, kids: map<Path, map<string, Removal>>, at: Path, k: string, child: Removal)
    requires nodes.Keys == kids.Keys && Down(nodes, kids) && at in nodes && Below(at, k) !in nodes
    ensures Down(nodes[Below(at, k) := child], GrownKids(kids, at, k, child))
  {
    hide Below, GrownKids, Parent, Last;
    var below, grown, more := Below(at, k), nodes[Below(at, k) := child], GrownKids(kids, at, k, child);
    forall p, j | p in more && j in more[p]
      ensures Below(p, j) in grown && grown[Below(p, j)] == more[p][j]
    {
      assert p != below && p in kids;
      if p == at && j == k {
      } else {
        assert j in kids[p];
        assert Below(p, j) != below;
      }
    }
  }

  lemma Grow(nodes: map<Path, Removal>, kids: map<Path, map<string, Removal>>, at: Path, k: string, child: Removal)
    requires Shape(nodes, kids) && at in nodes && k !in kids[at] && child !in nodes.Values
    ensures Below(at, k) !in nodes
    ensures Shape(nodes[Below(at, k) := child], GrownKids(kids, at, k, child))
  {
    hide Down;
    assert Below(at, k) !in nodes by {
      hide Once;
      assert Last(Below(at, k)) == k;
    }
    assert Once(nodes[Below(at, k) := child]) by {
      hide Up, Below;
    }
    hide Up, Once, Below, GrownKids;
    GrowUp(nodes, kids, at, k, child);
    GrowDown(nodes, kids, at, k, child);
  }

  method AddChild(ghost nodes: map<Path, Removal>, ghost at: Path, current: Removal, property: string)
    returns (child: Removal, ghost grown: map<Path, Removal>)
    requires Tree(nodes) && at in nodes && nodes[at] == current && property !in current.children
    modifies current`children
    ensures fresh(child) && Below(at, property) !in nodes && grown == nodes[Below(at, property) := child]
    ensures Tree(grown) && Marks(grown) == old(Marks(nodes)) && !child.remove && current.remove == old(current.remove)
  {
    child := new Removal();
    ghost var kids := Kids(nodes);
    Grow(nodes, kids, at, property, child);
    NodesOnce(nodes, kids, at);
    RootIn(nodes, kids);
    hide Shape, Below;
    current.children := current.children[property := child];
    grown := nodes[Below(at, property) := child];
    assert grown[Below(at, property)] == child;
    KidsGrown(nodes, kids, grown, at, property, child);
    MarksGrown(nodes, grown, old(Marks(nodes)), Below(at, property), child);
  }

  lemma MarksGrown(nodes: map<Path, Removal>, grown: map<Path, Removal>, marks: set<Path>, below: Path, child: Removal)
    requires grown == nodes[below := child] && below !in nodes && !child.remove
    requires marks <= nodes.Keys && forall p :: p in nodes ==> (nodes[p].remove <==> p in marks)
    ensures Marks(grown) == marks
  {}

  lemma KidsGrown(nodes: map<Path, Removal>, kids: map<Path, map<string, Removal>>, grown: map<Path, Removal>, at: Path,
                  k: string, child: Removal)
    requires at in nodes && grown == nodes[Below(at, k) := child] && Below(at, k) !in nodes && kids.Keys == nodes.Keys
    requires child.children == map[] && nodes[at].children == kids[at][k := child]
    requires forall p :: p in nodes && p != at ==> nodes[p].children == kids[p]
    ensures Kids(grown) == GrownKids(kids, at, k, child)
  {
    hide Below;
  }

  lemma NodesOnce(nodes: map<Path, Removal>, kids: map<Path, map<string, Removal>>, at: Path)
    requires Shape(nodes, kids) && at in nodes
    ensures forall p :: p in nodes && p != at ==> nodes[p] != nodes[at]
  {}

  lemma RootIn(nodes: map<Path, Removal>, kids: map<Path, map<string, Removal>>)
    requires Shape(nodes, kids)
    ensures [] in nodes
  {}

  lemma HitAdded(marks: set<Path>, m: Path, path: Path, q: Path)
    requires m <= path && (m in marks || m == path)
    ensures Hit(marks + {m}, q) <==> Hit(marks, q) || path <= q
  {
    if path <= q {
      assert m <= q && m in marks + {m};
    }
    if Hit(marks + {m}, q) && !Hit(marks, q) {
      var x :| x in marks + {m} && x <= q;
      assert x == m == path;
    }
  }

  /** The nodes of the one tree are nodes of the other; the others are new. */
  twostate predicate Extends(nodes: map<Path, Removal>, new grown: map<Path, Removal>) {
    (forall p :: p in nodes ==> p in grown && grown[p] == nodes[p]) &&
    forall o :: o in grown.Values ==> o in nodes.Values || fresh(o)
  }

  /** The child of a node, made when it is not there yet. */
  method Descend(current: Removal, property: string, count: int, ghost at: Path, ghost nodes: map<Path, Removal>)
    returns (child: Option<Removal>, total: int, ghost grown: map<Path, Removal>)
    requires Tree(nodes) && at in nodes && nodes[at] == current
    modifies current`children
    ensures Tree(grown) && Extends(nodes, grown) && Marks(grown) == old(Marks(nodes))
    ensures child.Some? ==> Below(at, property) in grown && grown[Below(at, property)] == child.value
    ensures total - count == |grown| - |nodes| && count <= total <= count + 1
    ensures child.None? ==> count == 65536
  {
    hide Shape, Below;
    grown, total := nodes, count;
    if property in current.children {
      ChildIs(nodes, at, property);
      return Some(current.children[property]), total, grown;
    }
    if total == MAX_PARTS {
      return None, total, grown;
    }
    var added;
    added, grown := AddChild(nodes, at, current, property);
    child, total := Some(added), total + 1;
  }

  /** The node at the end of the path, or the marked one above it; nodes are made on the way. */
  method Walk(root: Removal, path: Path, count: int, ghost nodes: map<Path, Removal>)
    returns (end: Option<Removal>, ghost at: nat, total: int, ghost grown: map<Path, Removal>)
    requires Tree(nodes) && nodes[[]] == root
    modifies nodes.Values
    ensures Tree(grown) && Extends(nodes, grown) && Marks(grown) == old(Marks(nodes))
    ensures total - count == |grown| - |nodes| && total <= count + |path|
    ensures end.Some? ==> at <= |path| && path[..at] in grown && grown[path[..at]] == end.value &&
                          (at == |path| || end.value.remove)
    ensures end.None? ==> count + |path| > 65536
  {
    var current, i := root, 0;
    total, grown, at := count, nodes, 0;
    assert path[..0] == [];
    while i < |path|
      invariant 0 <= i <= |path| && Tree(grown) && Extends(nodes, grown) && Marks(grown) == old(Marks(nodes))
      invariant path[..i] in grown && grown[path[..i]] == current
      invariant total - count == |grown| - |nodes| && total <= count + i
    {
      hide Shape, Below, Tree, Marks;
      if current.remove {
        break;
      }
      BelowIs(path, i);
      var child;
      child, total, grown := Descend(current, path[i], total, path[..i], grown);
      if child.None? {
        return None, i, total, grown;
      }
      current, i := child.value, i + 1;
    }
    end, at := Some(current), i;
  }

  /** One more path to remove. */
  method InsertPath(root: Removal, path: Path, count: int, ghost nodes: map<Path, Removal>)
    returns (ok: bool, total: int, ghost grown: map<Path, Removal>)
    requires Tree(nodes) && nodes[[]] == root && path != []
    modifies nodes.Values
    ensures Tree(grown) && Extends(nodes, grown)
    ensures ok ==> forall q :: Hit(Marks(grown), q) <==> Hit(old(Marks(nodes)), q) || path <= q
    ensures total - count == |grown| - |nodes| && total <= count + |path|
    ensures !ok ==> count + |path| > 65536
  {
    hide Shape, Marks;
    var end;
    ghost var at;
    end, at, total, grown := Walk(root, path, count, nodes);
    if end.None? {
      return false, total, grown;
    }
    RootUnmarked(grown);
    MarkNode(end.value, grown, path[..at], path);
    ok := true;
  }

  lemma RootUnmarked(nodes: map<Path, Removal>)
    requires Tree(nodes)
    ensures [] in nodes && !nodes[[]].remove
  {}

  method MarkNode(current: Removal, ghost nodes: map<Path, Removal>, ghost m: Path, ghost path: Path)
    requires Tree(nodes) && m in nodes && nodes[m] == current && m != [] && m <= path && (current.remove || m == path)
    modifies current`remove
    ensures Tree(nodes) && forall q :: Hit(Marks(nodes), q) <==> Hit(old(Marks(nodes)), q) || path <= q
  {
    ghost var marks, kids := Marks(nodes), Kids(nodes);
    NodesOnce(nodes, kids, m);
    hide Shape;
    current.remove := true;
    assert Kids(nodes) == kids;
    assert Marks(nodes) == marks + {m};
    forall q
      ensures Hit(Marks(nodes), q) <==> Hit(marks, q) || path <= q
    {
      HitAdded(marks, m, path, q);
    }
  }

  lemma BelowIs(path: Path, i: nat)
    requires i < |path|
    ensures path[..i + 1] == Below(path[..i], path[i])
  {}

  lemma ChildIs(nodes: map<Path, Removal>, at: Path, k: string)
    requires Tree(nodes) && at in nodes && k in nodes[at].children
    ensures Below(at, k) in nodes && nodes[Below(at, k)] == nodes[at].children[k]
    ensures nodes[at].children[k].remove <==> Below(at, k) in Marks(nodes)
  {
    hide Up, Once;
    assert k in Kids(nodes)[at];
  }

  // ----- Counting the nodes --------------------------------------------------------------------------

  ghost function Under(nodes: map<Path, Removal>, at: Path): set<Path> {
    set p | p in nodes && at < p
  }

  /** The nodes under the given children. */
  ghost function Reached(nodes: map<Path, Removal>, at: Path, done: set<string>): set<Path> {
    set p | p in nodes && at < p && p[|at|] in done
  }

  lemma NothingReached(nodes: map<Path, Removal>, at: Path)
    ensures Reached(nodes, at, {}) == {}
  {}

  lemma ReachedIsUnder(nodes: map<Path, Removal>, at: Path, done: set<string>)
    ensures |Reached(nodes, at, done)| <= |Under(nodes, at)|
  {
    SubsetIsNoLarger(Reached(nodes, at, done), Under(nodes, at));
  }

  lemma {:induction false} SubsetIsNoLarger<T>(a: set<T>, b: set<T>)
    requires a <= b
    ensures |a| <= |b|
  {
    assert b == a + (b - a) && a !! (b - a);
  }

  lemma ReachedGrows(nodes: map<Path, Removal>, at: Path, done: set<string>, k: string)
    requires k !in done && Below(at, k) in nodes
    ensures |Reached(nodes, at, done + {k})| == |Reached(nodes, at, done)| + 1 + |Under(nodes, Below(at, k))|
  {
    var b, before, under := Below(at, k), Reached(nodes, at, done), Under(nodes, Below(at, k));
    forall p
      ensures p in Reached(nodes, at, done + {k}) <==> p in before || p == b || p in under
      ensures p in before ==> p != b && p !in under
    {
      StrictlyBelow(at, k, p);
    }
    assert Reached(nodes, at, done + {k}) == (before + {b}) + under;
    assert (before + {b}) !! under && before !! {b};
  }

  lemma StrictlyBelow(at: Path, k: string, p: Path)
    ensures at < p && p[|at|] == k <==> p == Below(at, k) || Below(at, k) < p
    ensures !(Below(at, k) < Below(at, k))
  {
    if at < p && p[|at|] == k {
      assert p[..|at| + 1] == Below(at, k);
    }
  }

  lemma UnderRoot(nodes: map<Path, Removal>)
    requires [] in nodes
    ensures |Under(nodes, [])| < |nodes|
  {
    SubsetIsNoLarger(Under(nodes, []) + {[]}, nodes.Keys);
    assert [] !in Under(nodes, []);
  }

  // ----- Walking the bag along the tree ---------------------------------------------------------

  lemma NoMarksBelow(nodes: map<Path, Removal>, at: Path, k: string, m: Path)
    requires Tree(nodes) && at in nodes && k !in nodes[at].children && m in Marks(nodes)
    ensures !(Below(at, k) <= m)
  {
    BelowPrefix(at, k, m);
    hide Shape, Below;
    if |at| < |m| {
      PrefixesAreNodes(nodes, m, |at|);
    }
  }

  lemma BelowPrefix(at: Path, k: string, m: Path)
    ensures Below(at, k) <= m ==> |at| < |m| && m[..|at|] == at && m[|at|] == k
  {}

  /** The members that the loop has dealt with are pruned, the others are as they were. */
  ghost predicate Pruned(before: map<string, Value>, after: map<string, Value>, at: Path, marks: set<Path>,
                         done: set<string>) {
    (forall k :: k in after <==> k in before && !(k in done && Below(at, k) in marks)) &&
    forall k :: k in after ==> after[k] == if k in done then Prune(before[k], Below(at, k), marks) else before[k]
  }

  lemma AllPruned(nodes: map<Path, Removal>, at: Path, before: map<string, Value>, after: map<string, Value>)
    requires Tree(nodes) && at in nodes && Pruned(before, after, at, Marks(nodes), nodes[at].children.Keys)
    ensures Bag(after) == Prune(Bag(before), at, Marks(nodes))
  {
    hide Shape, Below;
    var marks := Marks(nodes);
    forall k | k in before && k !in nodes[at].children
      ensures Below(at, k) !in marks && Prune(before[k], Below(at, k), marks) == before[k]
    {
      forall m | m in marks
        ensures !(Below(at, k) <= m)
      {
        NoMarksBelow(nodes, at, k, m);
      }
      PruneNothing(before[k], Below(at, k), marks);
    }
    assert Prune(Bag(before), at, marks).members == after;
  }

  lemma PrunedStep(before: map<string, Value>, after: map<string, Value>, at: Path, marks: set<Path>, done: set<string>,
                   k: string, next: map<string, Value>)
    requires Pruned(before, after, at, marks, done) && k !in done
    requires next == if k !in before then after else if Below(at, k) in marks then after - {k}
                     else after[k := Prune(before[k], Below(at, k), marks)]
    ensures Pruned(before, next, at, marks, done + {k})
  {
    hide Prune, Below;
  }

  /** Removes what the tree marks; nothing is written back where nothing was removed. */
  method RemoveBagProperties(bag: map<string, Value>, node: Removal, size: Value -> nat, budget: int, ghost at: Path,
                             ghost nodes: map<Path, Removal>, ghost most: nat)
    returns (r: Option<map<string, Value>>, changed: bool, work: int)
    requires Tree(nodes) && at in nodes && nodes[at] == node
    ensures r.Some? ==> Bag(r.value) == Prune(Bag(bag), at, Marks(nodes))
    ensures r.Some? && !changed ==> r.value == bag
    ensures PruneIsSmall(Bag(bag), at, Marks(nodes), size, most) ==>
              if r.None? then budget < Spent(|Under(nodes, at)|, 1 + 2 * most)
              else work >= budget - Spent(|Under(nodes, at)|, 1 + 2 * most)
    decreases Bag(bag)
  {
    hide Tree, Marks, Below, Prune, Pruned, PruneIsSmall, Spent, Reached, Under;
    ghost var small, cost := PruneIsSmall(Bag(bag), at, Marks(nodes), size, most), 1 + 2 * most;
    var after := bag;
    changed, work := false, budget;
    ghost var marks := Marks(nodes);
    var remaining := node.children.Keys;
    NothingPruned(bag, at, marks);
    assert node.children.Keys - remaining == {};
    NothingReached(nodes, at);
    NothingSpent(cost);
    while remaining != {}
      invariant remaining <= node.children.Keys
      invariant small ==> work >= budget - Spent(|Reached(nodes, at, node.children.Keys - remaining)|, cost)
      invariant Pruned(bag, after, at, marks, node.children.Keys - remaining)
      invariant !changed ==> after == bag
      decreases remaining
    {
      var key :| key in remaining;
      var child := node.children[key];
      ChildIs(nodes, at, key);
      ghost var done := node.children.Keys - remaining;
      remaining := remaining - {key};
      assert node.children.Keys - remaining == done + {key};
      OneMoreChild(nodes, at, done, key, cost);
      work := work - 1;
      if work < 0 {
        return None, changed, work;
      }
      Unpruned(bag, after, at, marks, done, key);
      if key !in after {
        PrunedStep(bag, after, at, marks, done, key, after);
        continue;
      }
      if child.remove {
        PrunedStep(bag, after, at, marks, done, key, after - {key});
        after, changed := after - {key}, true;
        continue;
      }
      var raw := after[key];
      if small {
        SmallBelow(bag, at, marks, size, most, key);
      }
      work := work - size(raw);
      if work < 0 {
        return None, changed, work;
      }
      if raw.Leaf? {
        LeafPruned(raw, Below(at, key), marks);
        assert after[key := raw] == after;
        PrunedStep(bag, after, at, marks, done, key, after);
        continue;
      }
      var nested, altered;
      nested, altered, work := RemoveBagProperties(raw.members, child, size, work, Below(at, key), nodes, most);
      if nested.None? {
        return None, changed, work;
      }
      if !altered {
        assert after[key := raw] == after;
        PrunedStep(bag, after, at, marks, done, key, after);
        continue;
      }
      var encoded := Bag(nested.value);
      work := work - size(encoded);
      if work < 0 || size(encoded) > MAX_BYTES {
        return None, changed, work;
      }
      PrunedStep(bag, after, at, marks, done, key, after[key := encoded]);
      after, changed := after[key := encoded], true;
    }
    assert node.children.Keys - remaining == node.children.Keys;
    ReachedIsUnder(nodes, at, node.children.Keys);
    MoreSpent(|Reached(nodes, at, node.children.Keys)|, |Under(nodes, at)|, cost);
    AllPruned(nodes, at, bag, after);
    r := Some(after);
  }

  /** The value is small, as is what is left of it. */
  ghost predicate PruneIsSmall(v: Value, at: Path, marks: set<Path>, size: Value -> nat, most: nat) {
    most <= 4194304 && Small(v, size, most) && Small(Prune(v, at, marks), size, most)
  }

  lemma SmallBelow(bag: map<string, Value>, at: Path, marks: set<Path>, size: Value -> nat, most: nat, k: string)
    requires PruneIsSmall(Bag(bag), at, marks, size, most) && k in bag && Below(at, k) !in marks
    ensures PruneIsSmall(bag[k], Below(at, k), marks, size, most)
    ensures size(bag[k]) <= most && size(Prune(bag[k], Below(at, k), marks)) <= most <= 4194304
  {
    SmallMember(Bag(bag), size, most, k);
    SmallPruned(Bag(bag), at, marks, size, most, k);
    hide Small, Prune, Below;
  }

  lemma NothingSpent(cost: nat)
    ensures Spent(0, cost) == 0
  {}

  lemma OneMoreChild(nodes: map<Path, Removal>, at: Path, done: set<string>, k: string, cost: nat)
    requires k !in done && Below(at, k) in nodes
    ensures Spent(|Reached(nodes, at, done + {k})|, cost)
         == Spent(|Reached(nodes, at, done)|, cost) + cost + Spent(|Under(nodes, Below(at, k))|, cost)
    ensures Spent(|Reached(nodes, at, done + {k})|, cost) <= Spent(|Under(nodes, at)|, cost)
  {
    ReachedGrows(nodes, at, done, k);
    hide Spent, Reached, Under, Below;
    MoreSpent(|Reached(nodes, at, done)|, |Under(nodes, Below(at, k))|, cost);
    ReachedIsUnder(nodes, at, done + {k});
    MoreSpent(|Reached(nodes, at, done + {k})|, |Under(nodes, at)|, cost);
  }

  lemma NothingPruned(bag: map<string, Value>, at: Path, marks: set<Path>)
    ensures Pruned(bag, bag, at, marks, {})
  {}

  lemma Unpruned(before: map<string, Value>, after: map<string, Value>, at: Path, marks: set<Path>, done: set<string>,
                 k: string)
    requires Pruned(before, after, at, marks, done) && k !in done
    ensures k in after <==> k in before
    ensures k in after ==> after[k] == before[k]
  {
    hide Prune;
  }

  lemma LeafPruned(v: Value, at: Path, marks: set<Path>)
    requires v.Leaf?
    ensures Prune(v, at, marks) == v
  {}

  // ----- The functions ------------------------------------------------------------------------------

  datatype BagError = BadKey | Limit | NotTraversable

  predicate UsableKeys(keys: seq<Option<Path>>) {
    forall i :: 0 <= i < |keys| ==> keys[i].Some? && keys[i].value != []
  }

  function Paths(keys: seq<Option<Path>>): (paths: seq<Path>)
    requires UsableKeys(keys)
    ensures |paths| == |keys| && forall i :: 0 <= i < |keys| ==> paths[i] == keys[i].value
  {
    seq(|keys|, i requires 0 <= i < |keys| && keys[i].Some? => keys[i].value)
  }

  /** The tree marks what the list covers. */
  ghost predicate MarksCover(marks: set<Path>, paths: seq<Path>) {
    forall q :: Hit(marks, q) <==> Covered(paths, q)
  }

  lemma CoverOneMore(before: set<Path>, after: set<Path>, paths: seq<Path>, path: Path)
    requires MarksCover(before, paths) && forall q :: Hit(after, q) <==> Hit(before, q) || path <= q
    ensures MarksCover(after, paths + [path])
  {
    var more := paths + [path];
    forall q
      ensures Covered(more, q) <==> Covered(paths, q) || path <= q
    {
      if Covered(paths, q) {
        var i :| 0 <= i < |paths| && paths[i] <= q;
        assert more[i] <= q;
      }
      assert more[|paths|] == path;
    }
  }

  /** The names in all paths. */
  function Names(keys: seq<Option<Path>>): nat {
    if keys == [] then 0
    else
      var last := |keys| - 1;
      Names(keys[..last]) + if keys[last].Some? then |keys[last].value| else 0
  }

  lemma {:induction false} FewerNames(keys: seq<Option<Path>>, i: nat)
    requires i <= |keys|
    ensures Names(keys[..i]) <= Names(keys)
    ensures i < |keys| && keys[i].Some? ==> Names(keys[..i]) + |keys[i].value| == Names(keys[..i + 1]) <= Names(keys)
    decreases |keys|
  {
    if i < |keys| {
      var front := keys[..|keys| - 1];
      FewerNames(front, i);
      assert front[..i] == keys[..i] && keys[..i + 1][..i] == keys[..i];
      if i + 1 < |keys| {
        assert front[..i + 1] == keys[..i + 1];
      } else {
        assert keys[..i + 1] == keys;
      }
    } else {
      assert keys[..i] == keys;
    }
  }

  /** Keys come parsed: None for one that is not a text or not a path. */
  method BuildRemovals(keys: seq<Option<Path>>) returns (r: Result<Removal, BagError>, ghost nodes: map<Path, Removal>)
    ensures r == Err(BadKey) ==> !UsableKeys(keys)
    ensures r.Ok? ==> UsableKeys(keys) && Tree(nodes) && nodes[[]] == r.value && MarksCover(Marks(nodes), Paths(keys))
    ensures r.Ok? ==> |nodes| <= Names(keys) + 1
    ensures r == Err(Limit) ==> Names(keys) > 65536
    ensures r != Err(NotTraversable)
  {
    hide Shape, MarksCover, Tree, Marks, Kids, Names;
    var root := new Removal();
    nodes := map[[] := root];
    OnlyRoot(root, nodes);
    var count, i := 0, 0;
    ghost var paths: seq<Path> := [];
    NoNames();
    assert keys[..0] == [];
    while i < |keys|
      invariant 0 <= i == |paths| <= |keys| && (forall j :: 0 <= j < i ==> keys[j] == Some(paths[j]) && paths[j] != [])
      invariant Tree(nodes) && [] in nodes && nodes[[]] == root && MarksCover(Marks(nodes), paths)
      invariant forall o :: o in nodes.Values ==> fresh(o)
      invariant count == |nodes| - 1 && count <= Names(keys[..i])
    {
      if keys[i].None? || keys[i].value == [] {
        return Err(BadKey), nodes;
      }
      ghost var marks := Marks(nodes);
      FewerNames(keys, i);
      var ok;
      ok, count, nodes := InsertPath(root, keys[i].value, count, nodes);
      if !ok {
        return Err(Limit), nodes;
      }
      CoverOneMore(marks, Marks(nodes), paths, keys[i].value);
      paths, i := paths + [keys[i].value], i + 1;
    }
    assert UsableKeys(keys) && paths == Paths(keys) && keys[..i] == keys;
    r := Ok(root);
  }

  lemma NoNames()
    ensures Names([]) == 0
  {}

  lemma OnlyRoot(root: Removal, nodes: map<Path, Removal>)
    requires nodes == map[[] := root] && root.children == map[] && !root.remove
    ensures Tree(nodes) && MarksCover(Marks(nodes), [])
  {}

  /** Pruning at once is removing one path after the other, in any order. */
  lemma PruneIsRemoveEach(v: Value, marks: set<Path>, paths: seq<Path>)
    requires [] !in paths && [] !in marks && MarksCover(marks, paths)
    ensures Prune(v, [], marks) == RemoveEach(v, paths)
  {
    hide Prune, RemoveEach, MarksCover;
    forall q
      ensures At(Prune(v, [], marks), q) == At(RemoveEach(v, paths), q)
    {
      PruneAt(v, [], marks, q);
      RemoveEachAt(v, paths, q);
      assert [] + q == q;
      SameCover(marks, paths, q);
    }
    SameAtAll(Prune(v, [], marks), RemoveEach(v, paths));
  }

  lemma SameCover(marks: set<Path>, paths: seq<Path>, q: Path)
    requires MarksCover(marks, paths)
    ensures Hit(marks, q) <==> Covered(paths, q)
  {}

  /** Neither the keys nor the bag before and after use up a limit; nothing in the bag is larger than most. */
  ghost predicate RemovalFits(bag: Value, keys: seq<Option<Path>>, size: Value -> nat, most: nat) {
    UsableKeys(keys) && |keys| <= 65536 && Names(keys) <= 65536 &&
    Small(bag, size, most) && Small(RemoveEach(bag, Paths(keys)), size, most) && most <= 4194304 &&
    Names(keys) * (1 + 2 * most) <= 67108864
  }

  lemma WithinBudget(bag: Value, keys: seq<Option<Path>>, size: Value -> nat, most: nat, nodes: map<Path, Removal>)
    requires [] in nodes && |nodes| <= Names(keys) + 1
    ensures RemovalFits(bag, keys, size, most) ==>
              size(RemoveEach(bag, Paths(keys))) <= 4194304 && Spent(|Under(nodes, [])|, 1 + 2 * most) <= 67108864
  {
    UnderRoot(nodes);
    MoreSpent(|Under(nodes, [])|, Names(keys), 1 + 2 * most);
    hide Under, Names, RemoveEach;
  }

  /** bag_remove_keys: null for what is not a bag. */
  method KqlBagRemoveKeys(bag: Value, keys: seq<Option<Path>>, size: Value -> nat, ghost most: nat)
    returns (r: Result<Option<Value>, BagError>)
    ensures r == Ok(None) <==> bag.Leaf?
    ensures r.Ok? && r.value.Some? ==> UsableKeys(keys) && r.value.value == RemoveEach(bag, Paths(keys))
    ensures r == Err(BadKey) ==> !UsableKeys(keys)
    ensures r != Err(NotTraversable)
    ensures RemovalFits(bag, keys, size, most) ==> r.Ok?
  {
    if bag.Leaf? {
      return Ok(None);
    }
    if |keys| > MAX_PARTS {
      return Err(Limit);
    }
    var root, nodes := BuildRemovals(keys);
    if root.Err? {
      return Err(if root.error == BadKey then BadKey else Limit);
    }
    PruneIsRemoveEach(bag, Marks(nodes), Paths(keys));
    WithinBudget(bag, keys, size, most, nodes);
    hide Shape, MarksCover, RemoveEach, Prune, Small, Spent, Under, Names;
    var after, changed, work := RemoveBagProperties(bag.members, root.value, size, MAX_WORK, [], nodes, most);
    if after.None? {
      return Err(Limit);
    }
    var result := Bag(after.value);
    if size(result) > MAX_BYTES {
      return Err(Limit);
    }
    r := Ok(Some(result));
  }

  /** So much for reading and writing an object on each level. */
  function Costs(levels: nat, most: nat): nat {
    levels * (2 * most)
  }

  lemma CostsOneMore(levels: nat, most: nat)
    ensures Costs(levels + 1, most) == 2 * most + Costs(levels, most)
  {
    assert (levels + 1) * (2 * most) == 2 * most + levels * (2 * most);
  }

  /** Neither the values on the way nor the resulting ones use up a limit; none of them is larger than most. */
  ghost predicate SettingFits(bag: map<string, Value>, path: Path, value: Value, size: Value -> nat, most: nat,
                              budget: int)
    requires path != []
  {
    most <= 4194304 && Costs(|path|, most) <= budget && (forall k :: k in bag ==> Small(bag[k], size, most)) &&
    (Put(Bag(bag), path, value).Some? ==> Small(Put(Bag(bag), path, value).value, size, most))
  }

  lemma FitsInside(bag: map<string, Value>, path: Path, value: Value, size: Value -> nat, most: nat, budget: int,
                   left: int)
    requires |path| > 1 && SettingFits(bag, path, value, size, most, budget) && left >= budget - most
    requires path[0] in bag ==> bag[path[0]].Bag?
    ensures SettingFits(if path[0] in bag then bag[path[0]].members else map[], path[1..], value, size, most, left)
    ensures Costs(|path|, most) == 2 * most + Costs(|path| - 1, most)
  {
    var nested := if path[0] in bag then bag[path[0]].members else map[];
    CostsOneMore(|path| - 1, most);
    hide Costs;
    var after := Put(Bag(nested), path[1..], value);
    if after.Some? {
      assert Put(Bag(bag), path, value) == Some(Bag(bag[path[0] := after.value]));
      SmallMember(Bag(bag[path[0] := after.value]), size, most, path[0]);
    }
    if path[0] in bag {
      assert bag[path[0]] == Bag(nested);
      hide Put;
      assert forall k :: k in nested ==> Small(nested[k], size, most);
    }
  }

  lemma FitsHere(bag: map<string, Value>, path: Path, value: Value, size: Value -> nat, most: nat, budget: int)
    requires path != [] && SettingFits(bag, path, value, size, most, budget)
    ensures most <= 4194304 && Costs(|path|, most) <= budget && 2 * most <= Costs(|path|, most)
    ensures path[0] in bag ==> size(bag[path[0]]) <= most
    ensures var after := Put(Bag(bag), path, value);
            after.Some? ==> size(after.value) <= most && after.value.Bag? && |after.value.members| <= 65536
  {
    CostsOneMore(|path| - 1, most);
    hide Costs, Put;
  }

  lemma PutUnfolds(bag: map<string, Value>, path: Path, value: Value)
    requires path != []
    ensures Put(Bag(bag), path, value)
         == if |path| == 1 then Some(Bag(bag[path[0] := value]))
            else if path[0] in bag && bag[path[0]].Leaf? then None
            else
              var after := Put(Bag(if path[0] in bag then bag[path[0]].members else map[]), path[1..], value);
              if after.None? then None else Some(Bag(bag[path[0] := after.value]))
  {}

  method SetBagProperty(bag: map<string, Value>, path: Path, value: Value, size: Value -> nat, budget: int,
                        ghost most: nat)
    returns (r: Result<Value, BagError>, work: int)
    requires path != []
    ensures r.Ok? ==> Put(Bag(bag), path, value) == Some(r.value)
    ensures r == Err(NotTraversable) ==> Put(Bag(bag), path, value).None?
    ensures r != Err(BadKey)
    ensures SettingFits(bag, path, value, size, most, budget) ==>
              r != Err(Limit) && (r.Ok? ==> work >= budget - Costs(|path|, most))
    decreases |path|
  {
    PutUnfolds(bag, path, value);
    hide Put, Small, Costs, SettingFits;
    var key, inner := path[0], value;
    ghost var fits := SettingFits(bag, path, value, size, most, budget);
    work := budget;
    if fits {
      FitsHere(bag, path, value, size, most, budget);
    }
    if |path| > 1 {
      var nested: map<string, Value> := map[];
      if key in bag {
        work := work - size(bag[key]);
        if work < 0 {
          return Err(Limit), work;
        }
        if bag[key].Leaf? {
          return Err(NotTraversable), work;
        }
        nested := bag[key].members;
      }
      if fits {
        FitsInside(bag, path, value, size, most, budget, work);
      }
      var below;
      below, work := SetBagProperty(nested, path[1..], value, size, work, most);
      if below.Err? {
        return Err(below.error), work;
      }
      inner := below.value;
    }
    if key !in bag && |bag| >= MAX_PARTS {
      return Err(Limit), work;
    }
    var result := Bag(bag[key := inner]);
    if size(result) > MAX_BYTES {
      return Err(Limit), work;
    }
    work := work - size(result);
    if work < 0 {
      return Err(Limit), work;
    }
    r := Ok(result);
  }

  /** bag_set_key */
  method KqlBagSetKey(bag: Value, key: Option<Path>, value: Value, size: Value -> nat, ghost most: nat)
    returns (r: Result<Option<Value>, BagError>)
    ensures r == Ok(None) <==> bag.Leaf?
    ensures r.Ok? && r.value.Some? ==> key.Some? && key.value != [] && Put(bag, key.value, value) == Some(r.value.value)
    ensures r == Err(NotTraversable) ==> key.Some? && key.value != [] && Put(bag, key.value, value).None?
    ensures r == Err(BadKey) <==> bag.Bag? && (key.None? || key.value == [])
    ensures bag.Bag? && key.Some? && key.value != [] &&
            SettingFits(bag.members, key.value, value, size, most, 67108864) ==>
              r != Err(Limit)
  {
    if bag.Leaf? {
      return Ok(None);
    }
    if key.None? || key.value == [] {
      return Err(BadKey);
    }
    var set', work := SetBagProperty(bag.members, key.value, value, size, MAX_WORK, most);
    r := if set'.Ok? then Ok(Some(set'.value)) else Err(set'.error);
  }

  /** bag_has_key: whether anything stands at the path; null for what is not a bag or not a path. */
  method KqlBagHasKey(bag: Value, key: Option<Path>) returns (r: Option<bool>)
    ensures r.None? <==> bag.Leaf? || key.None?
    ensures r.Some? ==> (r.value <==> At(bag, key.value).Some?)
  {
    if bag.Leaf? || key.None? {
      return None;
    }
    var path := key.value;
    if path == [] {
      return Some(true);
    }
    var current, index := bag.members, 0;
    assert path[0..] == path;
    while index < |path|
      invariant 0 <= index < |path|
      invariant At(bag, path) == At(Bag(current), path[index..])
      decreases |path| - index
    {
      var rest := path[index..];
      assert rest[0] == path[index] && rest[1..] == path[index + 1..];
      if path[index] !in current {
        return Some(false);
      }
      if index == |path| - 1 {
        assert rest[1..] == [];
        return Some(true);
      }
      var encoded := current[path[index]];
      if encoded.Leaf? {
        return Some(false);
      }
      current, index := encoded.members, index + 1;
    }
    assert false;
    r := Some(false);
  }

  /** After setting, the path is there with the value, and nothing has changed that is neither above nor below it. */
  lemma SetThenHas(v: Value, path: Path, value: Value)
    requires path != [] && Put(v, path, value).Some?
    ensures At(Put(v, path, value).value, path) == At(value, [])
    ensures forall q :: !(path <= q) && !(q <= path) ==> At(Put(v, path, value).value, q) == At(v, q)
    ensures forall q :: q < path ==> At(Put(v, path, value).value, q) == Some(Inner)
  {
    hide Put, At;
    forall q
      ensures At(Put(v, path, value).value, q) ==
              if path <= q then At(value, q[|path|..]) else if q <= path then Some(Inner) else At(v, q)
    {
      PutAt(v, path, value, q);
    }
    assert path[|path|..] == [];
  }

  /** After removing, neither the path nor anything below it is there, and everything else is. */
  lemma RemoveThenHasNot(v: Value, paths: seq<Path>, q: Path)
    requires [] !in paths
    ensures At(RemoveEach(v, paths), q).Some? <==> At(v, q).Some? && !Covered(paths, q)
  {
    RemoveEachAt(v, paths, q);
  }

  /** The later of two settings of one path counts. */
  lemma LaterSettingCounts(v: Value, path: Path, x: Value, y: Value)
    requires path != [] && Put(v, path, x).Some?
    ensures Put(v, path, y).Some? && Put(Put(v, path, x).value, path, y) == Put(v, path, y)
    decreases |path|
  {
    var w := Put(v, path, x).value;
    if |path| > 1 {
      var k := path[0];
      LaterSettingCounts(if k in v.members then v.members[k] else Bag(map[]), path[1..], x, y);
      var nested := Put(w.members[k], path[1..], y).value;
      assert w.members[k := nested] == v.members[k := nested];
    } else {
      assert v.members[path[0] := x][path[0] := y] == v.members[path[0] := y];
    }
  }
}
