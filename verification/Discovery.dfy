/**
  Embedded JSON: strings that hold the text of a JSON object or array.

  Discovery (discoverResult and discover in internal/ingest/ingest.go) records in a path tree
  where a record holds such strings; normalisation (normalizeKnownEmbeddedJSON) decodes only
  where the tree says so.  The tree is an index: it has to agree with decoding every embedded
  string at every position, which is what Expand does.
 */
module EmbeddedDiscovery {
  import opened SetFacts
  import opened Wrappers

  const MAX_DEPTH: nat := 32

  datatype Json =
    | Null
    | Bool(bit: bool)
    | Number(digits: string)
    | String(text: string)
    | Array(items: seq<Json>)
    | Object(members: seq<Member>)

  datatype Member = Member(key: string, value: Json)

  /** embeddedPathNode.  All elements of an array share one node, as does the content of an embedded string. */
  datatype Node = Node(embedded: bool, objects: map<string, Node>, element: Option<Node>) {
    predicate Active() {
      embedded || objects != map[] || element.Some?
    }

    function Child(key: string): Node {
      if key in objects then objects[key] else EMPTY
    }

    function Element(): Node {
      if element.Some? then element.value else EMPTY
    }

    function WithChild(key: string, child: Node): Node {
      if key in objects || child.Active() then this.(objects := objects[key := child]) else this
    }

    function WithElement(child: Node): Node {
      if element.Some? || child.Active() then this.(element := Some(child)) else this
    }
  }

  const EMPTY: Node := Node(false, map[], None)

  /** decodeEmbeddedJSON: the parser behind it is foreign, but it only accepts objects and arrays. */
  type Decoder = string -> Option<Json>

  ghost predicate DecodesContainers(decode: Decoder) {
    forall s :: decode(s).Some? ==> decode(s).value.Array? || decode(s).value.Object?
  }

  function Left(depth: nat): nat {
    if depth < MAX_DEPTH then MAX_DEPTH - depth else 0
  }

  // ----- Discovery -----------------------------------------------------------------

  /** The tree after visiting `v`, and whether an embedded string was found in it. */
  function Discover(decode: Decoder, v: Json, node: Node, depth: nat): (Node, bool)
    decreases Left(depth), 0
  {
    if depth >= MAX_DEPTH then (node, false)
    else
      match v
      case Array(items) =>
        var (child, found) := DiscoverItems(decode, items, node.Element(), depth + 1);
        (node.WithElement(child), found)
      case Object(members) => DiscoverMembers(decode, members, node, depth + 1)
      case String(text) =>
        if decode(text).Some? then
          (Discover(decode, decode(text).value, node.(embedded := true), depth + 1).0, true)
        else (node, false)
      case _ => (node, false)
  }

  function DiscoverItems(decode: Decoder, items: seq<Json>, node: Node, depth: nat): (Node, bool)
    decreases Left(depth), |items| + 1
  {
    if items == [] then (node, false)
    else
      var (first, found) := Discover(decode, items[0], node, depth);
      var (rest, more) := DiscoverItems(decode, items[1..], first, depth);
      (rest, found || more)
  }

  function DiscoverMembers(decode: Decoder, members: seq<Member>, node: Node, depth: nat): (Node, bool)
    decreases Left(depth), |members| + 1
  {
    if members == [] then (node, false)
    else
      var (child, found) := Discover(decode, members[0].value, node.Child(members[0].key), depth);
      var (rest, more) := DiscoverMembers(decode, members[1..], node.WithChild(members[0].key, child), depth);
      (rest, found || more)
  }

  // ----- Normalisation ----------------------------------------------------------------

  ghost function Normalize(decode: Decoder, v: Json, node: Node, depth: nat): Json
    decreases Left(depth)
  {
    if depth >= MAX_DEPTH then v
    else
      match Opened(decode, v, node)
      case Array(items) =>
        if node.element.None? then Array(items)
        else Array(seq(|items|, i requires 0 <= i < |items| => Normalize(decode, items[i], node.element.value,
            depth + 1)))
      case Object(members) =>
        Object(seq(|members|, i requires 0 <= i < |members| =>
          if members[i].key !in node.objects then members[i]
          else Member(members[i].key, Normalize(decode, members[i].value, node.objects[members[i].key], depth + 1))))
      case scalar => scalar
  }

  /** Where the tree marks an embedded string, the string is replaced by what it decodes to. */
  function Opened(decode: Decoder, v: Json, node: Node): Json {
    if node.embedded && v.String? && decode(v.text).Some? then decode(v.text).value else v
  }

  /** The second result of normalizeKnownEmbeddedJSON: whether some string was replaced. */
  ghost predicate Changes(decode: Decoder, v: Json, node: Node, depth: nat)
    decreases Left(depth)
  {
    depth < MAX_DEPTH &&
    (|| (node.embedded && v.String? && decode(v.text).Some?)
     || match Opened(decode, v, node)
        case Array(items) =>
          node.element.Some? && exists i :: 0 <= i < |items| && Changes(decode, items[i], node.element.value, depth + 1)
        case Object(members) =>
          exists i :: 0 <= i < |members| && members[i].key in node.objects
                      && Changes(decode, members[i].value, node.objects[members[i].key], depth + 1)
        case _ => false)
  }

  // ----- The reference: decode everything ----------------------------------------------

  /** Visiting `v` never reaches the depth cut-off; an embedded string costs one level. */
  ghost predicate Settled(decode: Decoder, v: Json, depth: nat)
    decreases Left(depth)
  {
    depth < MAX_DEPTH &&
    match v
    case Array(items) => forall i :: 0 <= i < |items| ==> Settled(decode, items[i], depth + 1)
    case Object(members) => forall i :: 0 <= i < |members| ==> Settled(decode, members[i].value, depth + 1)
    case String(text) => decode(text).Some? ==> Settled(decode, decode(text).value, depth + 1)
    case _ => true
  }

  /** Every embedded string at every position replaced by its expanded content. */
  ghost function Expand(decode: Decoder, v: Json, depth: nat): Json
    requires Settled(decode, v, depth)
    decreases Left(depth)
  {
    match v
    case Array(items) =>
      Array(seq(|items|, i requires 0 <= i < |items| => Expand(decode, items[i], depth + 1)))
    case Object(members) =>
      Object(seq(|members|, i requires 0 <= i < |members| =>
        Member(members[i].key, Expand(decode, members[i].value, depth + 1))))
    case String(text) =>
      if decode(text).Some? then Expand(decode, decode(text).value, depth + 1) else v
    case scalar => scalar
  }

  /** The tree marks every position of an embedded string of `v`. */
  ghost predicate Covers(decode: Decoder, node: Node, v: Json, depth: nat)
    requires Settled(decode, v, depth)
    decreases Left(depth)
  {
    match v
    case Array(items) => forall i :: 0 <= i < |items| ==> Covers(decode, node.Element(), items[i], depth + 1)
    case Object(members) =>
      forall i :: 0 <= i < |members| ==> Covers(decode, node.Child(members[i].key), members[i].value, depth + 1)
    case String(text) =>
      decode(text).Some? ==> node.embedded && Covers(decode, node, decode(text).value, depth + 1)
    case _ => true
  }

  // ----- A covering tree normalises completely ------------------------------------------

  lemma {:induction false} EmptyTreeKeeps(decode: Decoder, v: Json, depth: nat)
    ensures Normalize(decode, v, EMPTY, depth) == v
  {
    if depth < MAX_DEPTH && v.Object? {
      assert Normalize(decode, v, EMPTY, depth).members == v.members;
    }
  }

  lemma {:induction false} ExpandIsContainer(decode: Decoder, v: Json, depth: nat)
    requires Settled(decode, v, depth) && (v.Array? || v.Object?)
    ensures var e := Expand(decode, v, depth); e.Array? == v.Array? && e.Object? == v.Object?
  {}

  /**
    Normalising with a tree equals decoding everything exactly when the tree covers the record.
    The normaliser counts fewer levels than discovery, so it may run at a smaller depth.
   */
  lemma {:induction false} NormalizeExpandsIffCovered(decode: Decoder, node: Node, v: Json, depth: nat, at: nat)
    requires DecodesContainers(decode)
    requires Settled(decode, v, depth) && at <= depth
    ensures Normalize(decode, v, node, at) == Expand(decode, v, depth) <==> Covers(decode, node, v, depth)
    decreases Left(depth)
  {
    match v
    case Array(items) =>
      forall i | 0 <= i < |items|
        ensures Normalize(decode, items[i], node.Element(), at + 1) == Expand(decode, items[i], depth + 1)
           <==> Covers(decode, node.Element(), items[i], depth + 1)
      {
        NormalizeExpandsIffCovered(decode, node.Element(), items[i], depth + 1, at + 1);
      }
      ItemsNormalized(decode, node, items, at);
      SameItems(decode, node, items, depth, at);
    case Object(members) =>
      forall i | 0 <= i < |members|
        ensures Normalize(decode, members[i].value, node.Child(members[i].key), at + 1) ==
                  Expand(decode, members[i].value, depth + 1)
           <==> Covers(decode, node.Child(members[i].key), members[i].value, depth + 1)
      {
        NormalizeExpandsIffCovered(decode, node.Child(members[i].key), members[i].value, depth + 1, at + 1);
      }
      MembersNormalized(decode, node, members, at);
      SameMembers(decode, node, members, depth, at);
    case String(text) =>
      if decode(text).Some? {
        var nested := decode(text).value;
        NormalizeExpandsIffCovered(decode, node, nested, depth + 1, at);
        ExpandIsContainer(decode, nested, depth + 1);
        if node.embedded {
          assert Opened(decode, v, node) == nested == Opened(decode, nested, node);
          assert Normalize(decode, v, node, at) == Normalize(decode, nested, node, at);
        }
      }
    case _ =>
  }

  lemma ItemsNormalized(decode: Decoder, node: Node, items: seq<Json>, at: nat)
    requires at < MAX_DEPTH
    ensures Normalize(decode, Array(items), node, at)
         == Array(seq(|items|, i requires 0 <= i < |items| => Normalize(decode, items[i], node.Element(), at + 1)))
  {
    if node.element.None? {
      forall i | 0 <= i < |items|
        ensures Normalize(decode, items[i], node.Element(), at + 1) == items[i]
      {
        EmptyTreeKeeps(decode, items[i], at + 1);
      }
    }
  }

  lemma MembersNormalized(decode: Decoder, node: Node, members: seq<Member>, at: nat)
    requires at < MAX_DEPTH
    ensures Normalize(decode, Object(members), node, at)
         == Object(seq(|members|, i requires 0 <= i < |members| =>
              Member(members[i].key, Normalize(decode, members[i].value, node.Child(members[i].key), at + 1))))
  {
    forall i | 0 <= i < |members| && members[i].key !in node.objects
      ensures Normalize(decode, members[i].value, node.Child(members[i].key), at + 1) == members[i].value
    {
      EmptyTreeKeeps(decode, members[i].value, at + 1);
    }
  }

  lemma SameItems(decode: Decoder, node: Node, items: seq<Json>, depth: nat, at: nat)
    requires Settled(decode, Array(items), depth)
    ensures Array(seq(|items|, i requires 0 <= i < |items| => Normalize(decode, items[i], node.Element(), at + 1)))
            == Expand(decode, Array(items), depth)
       <==> forall i :: 0 <= i < |items| ==>
              Normalize(decode, items[i], node.Element(), at + 1) == Expand(decode, items[i], depth + 1)
  {
    var left := seq(|items|, i requires 0 <= i < |items| => Normalize(decode, items[i], node.Element(), at + 1));
    var right := Expand(decode, Array(items), depth).items;
    assert left == right <==> forall i :: 0 <= i < |items| ==> left[i] == right[i];
    forall i | 0 <= i < |items|
      ensures left[i] == Normalize(decode, items[i], node.Element(), at + 1) &&
                right[i] == Expand(decode, items[i], depth + 1)
    {}
  }

  lemma SameMembers(decode: Decoder, node: Node, members: seq<Member>, depth: nat, at: nat)
    requires Settled(decode, Object(members), depth)
    ensures Object(seq(|members|, i requires 0 <= i < |members| =>
              Member(members[i].key, Normalize(decode, members[i].value, node.Child(members[i].key), at + 1))))
            == Expand(decode, Object(members), depth)
       <==> forall i :: 0 <= i < |members| ==>
              Normalize(decode, members[i].value, node.Child(members[i].key), at + 1) ==
                  Expand(decode, members[i].value, depth + 1)
  {
    var left := seq(|members|, i requires 0 <= i < |members| =>
                  Member(members[i].key, Normalize(decode, members[i].value, node.Child(members[i].key), at + 1)));
    var right := Expand(decode, Object(members), depth).members;
    assert left == right <==> forall i :: 0 <= i < |members| ==> left[i] == right[i];
    forall i | 0 <= i < |members|
      ensures left[i].key == members[i].key == right[i].key
      ensures left[i].value == Normalize(decode, members[i].value, node.Child(members[i].key), at + 1)
      ensures right[i].value == Expand(decode, members[i].value, depth + 1)
    {}
  }

  // ----- Trees only grow ------------------------------------------------------------------

  /** Everything `a` marks, `b` marks. */
  ghost predicate Subtree(a: Node, b: Node) {
    && (a.embedded ==> b.embedded)
    && (forall k :: k in a.objects ==> k in b.objects && Subtree(a.objects[k], b.objects[k]))
    && (a.element.Some? ==> b.element.Some? && Subtree(a.element.value, b.element.value))
  }

  lemma {:induction false} SubtreeReflexive(a: Node)
    ensures Subtree(a, a)
  {
    forall k | k in a.objects
      ensures Subtree(a.objects[k], a.objects[k])
    {
      SubtreeReflexive(a.objects[k]);
    }
    if a.element.Some? {
      SubtreeReflexive(a.element.value);
    }
  }

  lemma {:induction false} SubtreeTransitive(a: Node, b: Node, c: Node)
    requires Subtree(a, b) && Subtree(b, c)
    ensures Subtree(a, c)
  {
    forall k | k in a.objects
      ensures Subtree(a.objects[k], c.objects[k])
    {
      SubtreeTransitive(a.objects[k], b.objects[k], c.objects[k]);
    }
    if a.element.Some? {
      SubtreeTransitive(a.element.value, b.element.value, c.element.value);
    }
  }

  /** A record covered by a tree stays covered when the tree grows. */
  lemma {:induction false} CoversGrows(decode: Decoder, a: Node, b: Node, v: Json, depth: nat)
    requires Settled(decode, v, depth) && Subtree(a, b) && Covers(decode, a, v, depth)
    ensures Covers(decode, b, v, depth)
    decreases Left(depth)
  {
    match v
    case Array(items) =>
      forall i | 0 <= i < |items|
        ensures Covers(decode, b.Element(), items[i], depth + 1)
      {
        CoversGrows(decode, a.Element(), b.Element(), items[i], depth + 1);
      }
    case Object(members) =>
      forall i | 0 <= i < |members|
        ensures Covers(decode, b.Child(members[i].key), members[i].value, depth + 1)
      {
        CoversGrows(decode, a.Child(members[i].key), b.Child(members[i].key), members[i].value, depth + 1);
      }
    case String(text) =>
      if decode(text).Some? {
        CoversGrows(decode, a, b, decode(text).value, depth + 1);
      }
    case _ =>
  }

  lemma ChildGrows(node: Node, key: string, child: Node)
    requires Subtree(node.Child(key), child)
    ensures Subtree(node, node.WithChild(key, child)) && node.WithChild(key, child).Child(key) == child
  {
    SubtreeReflexive(node);
    forall k | k in node.objects
      ensures Subtree(node.objects[k], node.WithChild(key, child).Child(k))
    {}
  }

  lemma ElementGrows(node: Node, child: Node)
    requires Subtree(node.Element(), child)
    ensures Subtree(node, node.WithElement(child)) && node.WithElement(child).Element() == child
  {
    SubtreeReflexive(node);
  }

  /** The three facts about a visit: the tree grows, it covers what was visited, and `found` is exact. */
  ghost predicate Visited(decode: Decoder, v: Json, before: Node, after: Node, found: bool, depth: nat) {
    && Subtree(before, after)
    && (Settled(decode, v, depth) ==>
          && Covers(decode, after, v, depth)
          && (found <==> Expand(decode, v, depth) != v))
  }

  lemma {:induction false} DiscoverVisits(decode: Decoder, v: Json, node: Node, depth: nat)
    requires DecodesContainers(decode)
    ensures var (after, found) := Discover(decode, v, node, depth); Visited(decode, v, node, after, found, depth)
    decreases Left(depth), 0
  {
    SubtreeReflexive(node);
    if depth < MAX_DEPTH {
      match v
      case Array(items) =>
        DiscoverItemsVisits(decode, items, node.Element(), depth + 1);
        ElementGrows(node, DiscoverItems(decode, items, node.Element(), depth + 1).0);
        if Settled(decode, v, depth) {
          ItemsExpand(decode, items, depth);
        }
      case Object(members) =>
        DiscoverMembersVisits(decode, members, node, depth + 1);
        if Settled(decode, v, depth) {
          MembersExpand(decode, members, depth);
        }
      case String(text) =>
        if decode(text).Some? {
          var nested, marked := decode(text).value, node.(embedded := true);
          DiscoverVisits(decode, nested, marked, depth + 1);
          SubtreeTransitive(node, marked, Discover(decode, nested, marked, depth + 1).0);
          if Settled(decode, v, depth) {
            ExpandIsContainer(decode, nested, depth + 1);
          }
        }
      case _ =>
    }
  }

  lemma {:induction false} DiscoverItemsVisits(decode: Decoder, items: seq<Json>, node: Node, depth: nat)
    requires DecodesContainers(decode)
    ensures var (after, found) := DiscoverItems(decode, items, node, depth);
            && Subtree(node, after)
            && ((forall i :: 0 <= i < |items| ==> Settled(decode, items[i], depth)) ==>
                 && (forall i :: 0 <= i < |items| ==> Covers(decode, after, items[i], depth))
                 && (found <==> exists i :: 0 <= i < |items| && Expand(decode, items[i], depth) != items[i]))
    decreases Left(depth), |items| + 1
  {
    SubtreeReflexive(node);
    if items != [] {
      var (first, found) := Discover(decode, items[0], node, depth);
      var (rest, more) := DiscoverItems(decode, items[1..], first, depth);
      DiscoverVisits(decode, items[0], node, depth);
      DiscoverItemsVisits(decode, items[1..], first, depth);
      SubtreeTransitive(node, first, rest);
      if forall i :: 0 <= i < |items| ==> Settled(decode, items[i], depth) {
        CoversGrows(decode, first, rest, items[0], depth);
        forall i | 1 <= i < |items|
          ensures items[1..][i - 1] == items[i]
        {}
        assert more <==> exists i :: 1 <= i < |items| && Expand(decode, items[i], depth) != items[i] by {
          if i :| 1 <= i < |items| && Expand(decode, items[i], depth) != items[i] {
            assert items[1..][i - 1] == items[i];
          }
        }
      }
    }
  }

  lemma ChildSubtree(a: Node, b: Node, key: string)
    requires Subtree(a, b)
    ensures Subtree(a.Child(key), b.Child(key))
  {}

  lemma {:induction false} DiscoverMembersVisits(decode: Decoder, members: seq<Member>, node: Node, depth: nat)
    requires DecodesContainers(decode)
    ensures var (after, found) := DiscoverMembers(decode, members, node, depth);
            && Subtree(node, after)
            && ((forall i :: 0 <= i < |members| ==> Settled(decode, members[i].value, depth)) ==>
                 && (forall i :: 0 <= i < |members| ==> Covers(decode, after.Child(members[i].key), members[i].value,
                     depth))
                 && (found <==> exists i ::
                     0 <= i < |members| && Expand(decode, members[i].value, depth) != members[i].value))
    decreases Left(depth), |members| + 1
  {
    hide Covers, Expand, Settled, Subtree;
    SubtreeReflexive(node);
    if members != [] {
      var key, value := members[0].key, members[0].value;
      var (child, found) := Discover(decode, value, node.Child(key), depth);
      var first := node.WithChild(key, child);
      var (rest, more) := DiscoverMembers(decode, members[1..], first, depth);
      DiscoverVisits(decode, value, node.Child(key), depth);
      ChildGrows(node, key, child);
      DiscoverMembersVisits(decode, members[1..], first, depth);
      SubtreeTransitive(node, first, rest);
      if forall i :: 0 <= i < |members| ==> Settled(decode, members[i].value, depth) {
        ChildSubtree(first, rest, key);
        CoversGrows(decode, first.Child(key), rest.Child(key), value, depth);
        forall i | 1 <= i < |members|
          ensures members[1..][i - 1] == members[i]
        {}
        assert more <==> exists i ::
            1 <= i < |members| && Expand(decode, members[i].value, depth) != members[i].value by {
          if i :| 1 <= i < |members| && Expand(decode, members[i].value, depth) != members[i].value {
            assert members[1..][i - 1] == members[i];
          }
        }
      }
    }
  }

  lemma ItemsExpand(decode: Decoder, items: seq<Json>, depth: nat)
    requires Settled(decode, Array(items), depth)
    ensures Expand(decode, Array(items), depth) == Array(items)
       <==> forall i :: 0 <= i < |items| ==> Expand(decode, items[i], depth + 1) == items[i]
  {
    var e := Expand(decode, Array(items), depth).items;
    assert e == items <==> forall i :: 0 <= i < |items| ==> e[i] == items[i];
  }

  lemma MembersExpand(decode: Decoder, members: seq<Member>, depth: nat)
    requires Settled(decode, Object(members), depth)
    ensures Expand(decode, Object(members), depth) == Object(members)
       <==> forall i :: 0 <= i < |members| ==> Expand(decode, members[i].value, depth + 1) == members[i].value
  {
    var e := Expand(decode, Object(members), depth).members;
    assert e == members <==> forall i :: 0 <= i < |members| ==> e[i] == members[i];
  }

  // ----- Which positions are marked ---------------------------------------------------------

  /** A step into a value: to the member with this name, or to any element of an array. */
  datatype Step = Key(name: string) | Item

  /** The tree marks the position at the end of a path. */
  ghost predicate Marked(node: Node, path: seq<Step>) {
    if path == [] then node.embedded
    else
      match path[0]
      case Key(k) => k in node.objects && Marked(node.objects[k], path[1..])
      case Item => node.element.Some? && Marked(node.element.value, path[1..])
  }

  /** A string with embedded JSON stands at the end of a path, nested at most 32 levels deep. */
  ghost predicate EmbeddedAt(decode: Decoder, v: Json, path: seq<Step>, depth: nat)
    decreases Left(depth)
  {
    depth < 32 &&
    match v
    case Array(items) =>
      path != [] && path[0] == Item && exists i ::
        0 <= i < |items| && EmbeddedAt(decode, items[i], path[1..], depth + 1)
    case Object(members) =>
      path != [] && path[0].Key? && exists i ::
        0 <= i < |members| && members[i].key == path[0].name &&
        EmbeddedAt(decode, members[i].value, path[1..], depth + 1)
    case String(text) =>
      decode(text).Some? && (path == [] || EmbeddedAt(decode, decode(text).value, path, depth + 1))
    case _ => false
  }

  ghost predicate AnyItem(decode: Decoder, items: seq<Json>, path: seq<Step>, depth: nat) {
    exists i :: 0 <= i < |items| && EmbeddedAt(decode, items[i], path, depth)
  }

  ghost predicate AnyMember(decode: Decoder, members: seq<Member>, path: seq<Step>, depth: nat) {
    path != [] && path[0].Key? && exists i ::
      0 <= i < |members| && members[i].key == path[0].name && EmbeddedAt(decode, members[i].value, path[1..], depth)
  }

  lemma InactiveMarksNothing(node: Node, path: seq<Step>)
    requires !node.Active()
    ensures !Marked(node, path)
  {}

  lemma WithChildMarks(node: Node, key: string, child: Node, path: seq<Step>)
    ensures Marked(node.WithChild(key, child), path) <==>
            if path != [] && path[0] == Key(key) then Marked(child, path[1..]) else Marked(node, path)
  {
    if path != [] && path[0] == Key(key) {
      if key !in node.objects && !child.Active() {
        InactiveMarksNothing(child, path[1..]);
      }
    }
  }

  lemma ChildMarks(node: Node, key: string, path: seq<Step>)
    ensures Marked(node.Child(key), path) <==> Marked(node, [Key(key)] + path)
  {
    assert ([Key(key)] + path)[1..] == path;
    if key !in node.objects {
      InactiveMarksNothing(EMPTY, path);
    }
  }

  lemma WithElementMarks(node: Node, child: Node, path: seq<Step>)
    ensures Marked(node.WithElement(child), path) <==>
            if path != [] && path[0] == Item then Marked(child, path[1..]) else Marked(node, path)
  {
    if path != [] && path[0] == Item && node.element.None? && !child.Active() {
      InactiveMarksNothing(child, path[1..]);
    }
  }

  lemma ElementMarks(node: Node, path: seq<Step>)
    ensures Marked(node.Element(), path) <==> Marked(node, [Item] + path)
  {
    assert ([Item] + path)[1..] == path;
    if node.element.None? {
      InactiveMarksNothing(EMPTY, path);
    }
  }

  /** Discovery marks the positions of embedded strings, and no others; an embedded string's content is part of it. */
  lemma {:induction false} DiscoverMarks(decode: Decoder, v: Json, node: Node, depth: nat, path: seq<Step>)
    ensures Marked(Discover(decode, v, node, depth).0, path) <==>
            Marked(node, path) || EmbeddedAt(decode, v, path, depth)
    decreases Left(depth), 0
  {
    if depth < MAX_DEPTH {
      match v
      case Array(items) =>
        var child := DiscoverItems(decode, items, node.Element(), depth + 1).0;
        WithElementMarks(node, child, path);
        if path != [] && path[0] == Item {
          DiscoverItemsMarks(decode, items, node.Element(), depth + 1, path[1..]);
          ElementMarks(node, path[1..]);
          assert [Item] + path[1..] == path;
        }
        hide Marked;
        assert EmbeddedAt(decode, v, path, depth) <==>
               path != [] && path[0] == Item && AnyItem(decode, items, path[1..], depth + 1);
      case Object(members) =>
        DiscoverMembersMarks(decode, members, node, depth + 1, path);
        assert EmbeddedAt(decode, v, path, depth) <==> AnyMember(decode, members, path, depth + 1);
      case String(text) =>
        if decode(text).Some? {
          DiscoverMarks(decode, decode(text).value, node.(embedded := true), depth + 1, path);
          assert Marked(node.(embedded := true), path) <==> path == [] || Marked(node, path);
        }
      case _ =>
    }
  }

  lemma {:induction false} DiscoverItemsMarks(decode: Decoder, items: seq<Json>, node: Node, depth: nat,
                                              path: seq<Step>)
    ensures Marked(DiscoverItems(decode, items, node, depth).0, path) <==>
            Marked(node, path) || AnyItem(decode, items, path, depth)
    decreases Left(depth), |items| + 1
  {
    hide Marked, EmbeddedAt;
    if items != [] {
      var first := Discover(decode, items[0], node, depth).0;
      DiscoverMarks(decode, items[0], node, depth, path);
      DiscoverItemsMarks(decode, items[1..], first, depth, path);
      AnyItemSplits(decode, items, path, depth);
    }
  }

  lemma AnyItemSplits(decode: Decoder, items: seq<Json>, path: seq<Step>, depth: nat)
    requires items != []
    ensures AnyItem(decode, items, path, depth) <==>
            EmbeddedAt(decode, items[0], path, depth) || AnyItem(decode, items[1..], path, depth)
  {
    hide EmbeddedAt;
    if i :| 0 <= i < |items| && EmbeddedAt(decode, items[i], path, depth) {
      assert i > 0 ==> items[1..][i - 1] == items[i];
    }
  }

  lemma {:induction false} DiscoverMembersMarks(decode: Decoder, members: seq<Member>, node: Node, depth: nat,
                                                path: seq<Step>)
    ensures Marked(DiscoverMembers(decode, members, node, depth).0, path) <==>
            Marked(node, path) || AnyMember(decode, members, path, depth)
    decreases Left(depth), |members| + 1
  {
    hide Marked, EmbeddedAt;
    if members != [] {
      var key, value := members[0].key, members[0].value;
      var child := Discover(decode, value, node.Child(key), depth).0;
      WithChildMarks(node, key, child, path);
      DiscoverMembersMarks(decode, members[1..], node.WithChild(key, child), depth, path);
      AnyMemberSplits(decode, members, path, depth);
      if path != [] && path[0] == Key(key) {
        DiscoverMarks(decode, value, node.Child(key), depth, path[1..]);
        ChildMarks(node, key, path[1..]);
        assert [Key(key)] + path[1..] == path;
      }
    }
  }

  lemma AnyMemberSplits(decode: Decoder, members: seq<Member>, path: seq<Step>, depth: nat)
    requires members != []
    ensures AnyMember(decode, members, path, depth) <==>
            (path != [] && path[0] == Key(members[0].key) && EmbeddedAt(decode, members[0].value, path[1..], depth)) ||
            AnyMember(decode, members[1..], path, depth)
  {
    hide EmbeddedAt;
    if path != [] && path[0].Key? {
      if i :| 0 <= i < |members| && members[i].key == path[0].name &&
              EmbeddedAt(decode, members[i].value, path[1..], depth) {
        assert i > 0 ==> members[1..][i - 1] == members[i];
      }
    }
  }

  // ----- The tree is no larger than its marks ---------------------------------------------------

  /** Every node below this one leads to a mark. */
  ghost predicate Lean(node: Node) {
    (forall k :: k in node.objects ==> node.objects[k].Active() && Lean(node.objects[k])) &&
    (node.element.Some? ==> node.element.value.Active() && Lean(node.element.value))
  }

  lemma {:induction false} LeadsToMark(node: Node) returns (path: seq<Step>)
    requires Lean(node) && node.Active()
    ensures Marked(node, path)
  {
    if node.embedded {
      path := [];
    } else if node.element.Some? {
      var rest := LeadsToMark(node.element.value);
      path := [Item] + rest;
      assert path[1..] == rest;
    } else {
      var k :| k in node.objects;
      var rest := LeadsToMark(node.objects[k]);
      path := [Key(k)] + rest;
      assert path[1..] == rest;
    }
  }

  ghost predicate SameMarks(a: Node, b: Node) {
    forall path :: Marked(a, path) <==> Marked(b, path)
  }

  lemma SameMarksBelow(a: Node, b: Node)
    requires SameMarks(a, b)
    ensures a.embedded == b.embedded
    ensures forall k :: SameMarks(a.Child(k), b.Child(k))
    ensures SameMarks(a.Element(), b.Element())
  {
    assert Marked(a, []) <==> Marked(b, []);
    hide Marked;
    forall k, path
      ensures Marked(a.Child(k), path) <==> Marked(b.Child(k), path)
    {
      ChildMarks(a, k, path);
      ChildMarks(b, k, path);
    }
    forall path
      ensures Marked(a.Element(), path) <==> Marked(b.Element(), path)
    {
      ElementMarks(a, path);
      ElementMarks(b, path);
    }
  }

  /** With the same marks both nodes are there, or neither is. */
  lemma SameMarksActive(a: Node, b: Node)
    requires Lean(a) && a.Active() && SameMarks(a, b)
    ensures b.Active()
  {
    var path := LeadsToMark(a);
    if !b.Active() {
      InactiveMarksNothing(b, path);
    }
  }

  /** Two such trees with the same marks are the same tree. */
  lemma {:induction false} MarksDecideTree(a: Node, b: Node)
    requires Lean(a) && Lean(b) && SameMarks(a, b)
    ensures a == b
    decreases a
  {
    SameMarksBelow(a, b);
    hide Marked, SameMarks;
    forall k
      ensures k in a.objects <==> k in b.objects
      ensures k in a.objects && k in b.objects ==> a.objects[k] == b.objects[k]
    {
      BothActive(a.Child(k), b.Child(k));
      if k in a.objects && k in b.objects {
        MarksDecideTree(a.objects[k], b.objects[k]);
      }
    }
    BothActive(a.Element(), b.Element());
    if a.element.Some? && b.element.Some? {
      MarksDecideTree(a.element.value, b.element.value);
    }
    assert a.objects == b.objects;
  }

  lemma BothActive(a: Node, b: Node)
    requires Lean(a) && Lean(b) && SameMarks(a, b)
    ensures a.Active() <==> b.Active()
  {
    if a.Active() {
      SameMarksActive(a, b);
    }
    if b.Active() {
      SameMarksActive(b, a);
    }
  }

  /** Discovery adds no node that does not lead to a mark. */
  lemma {:induction false} DiscoverKeepsLean(decode: Decoder, v: Json, node: Node, depth: nat)
    requires Lean(node)
    ensures Lean(Discover(decode, v, node, depth).0)
    ensures node.Active() ==> Discover(decode, v, node, depth).0.Active()
    decreases Left(depth), 0
  {
    if depth < MAX_DEPTH {
      match v
      case Array(items) => DiscoverItemsKeepsLean(decode, items, node.Element(), depth + 1);
      case Object(members) => DiscoverMembersKeepsLean(decode, members, node, depth + 1);
      case String(text) =>
        if decode(text).Some? {
          DiscoverKeepsLean(decode, decode(text).value, node.(embedded := true), depth + 1);
        }
      case _ =>
    }
  }

  lemma {:induction false} DiscoverItemsKeepsLean(decode: Decoder, items: seq<Json>, node: Node, depth: nat)
    requires Lean(node)
    ensures Lean(DiscoverItems(decode, items, node, depth).0)
    ensures node.Active() ==> DiscoverItems(decode, items, node, depth).0.Active()
    decreases Left(depth), |items| + 1
  {
    if items != [] {
      DiscoverKeepsLean(decode, items[0], node, depth);
      DiscoverItemsKeepsLean(decode, items[1..], Discover(decode, items[0], node, depth).0, depth);
    }
  }

  lemma {:induction false} DiscoverMembersKeepsLean(decode: Decoder, members: seq<Member>, node: Node, depth: nat)
    requires Lean(node)
    ensures Lean(DiscoverMembers(decode, members, node, depth).0)
    ensures node.Active() ==> DiscoverMembers(decode, members, node, depth).0.Active()
    decreases Left(depth), |members| + 1
  {
    if members != [] {
      var key := members[0].key;
      var child := Discover(decode, members[0].value, node.Child(key), depth).0;
      DiscoverKeepsLean(decode, members[0].value, node.Child(key), depth);
      assert node.Active() ==> node.WithChild(key, child).Active() by {
        assert key in node.WithChild(key, child).objects || node.WithChild(key, child) == node;
      }
      DiscoverMembersKeepsLean(decode, members[1..], node.WithChild(key, child), depth);
    }
  }

  // ----- What normalisation decodes -----------------------------------------------------------

  /** Strings at marked positions replaced by what they decode to, their content treated in the same way. */
  ghost function DecodedWhere(decode: Decoder, v: Json, tree: Node, path: seq<Step>, depth: nat): Json
    decreases Left(depth)
  {
    if depth >= 32 then v
    else
      match (if v.String? && Marked(tree, path) && decode(v.text).Some? then decode(v.text).value else v)
      case Array(items) =>
        Array(seq(|items|, i requires 0 <= i < |items| =>
          DecodedWhere(decode, items[i], tree, path + [Item], depth + 1)))
      case Object(members) =>
        Object(seq(|members|, i requires 0 <= i < |members| =>
          Member(members[i].key,
                 DecodedWhere(decode, members[i].value, tree, path + [Key(members[i].key)], depth + 1))))
      case scalar => scalar
  }

  /** The node is what the tree has below the path. */
  ghost predicate BelowPath(tree: Node, path: seq<Step>, node: Node) {
    forall rest: seq<Step> :: Marked(node, rest) <==> Marked(tree, path + rest)
  }

  lemma BelowStep(tree: Node, path: seq<Step>, node: Node, step: Step, next: Node)
    requires BelowPath(tree, path, node)
    requires forall rest: seq<Step> :: Marked(next, rest) <==> Marked(node, [step] + rest)
    ensures BelowPath(tree, path + [step], next)
  {
    hide Marked;
    forall rest: seq<Step>
      ensures Marked(next, rest) <==> Marked(tree, path + [step] + rest)
    {
      assert path + ([step] + rest) == path + [step] + rest;
    }
  }

  lemma ItemsDecoded(decode: Decoder, items: seq<Json>, tree: Node, path: seq<Step>, node: Node, depth: nat)
    requires depth < MAX_DEPTH
    requires forall i ::
               0 <= i < |items| ==>
               Normalize(decode, items[i], node.Element(), depth + 1) ==
               DecodedWhere(decode, items[i], tree, path + [Item], depth + 1)
    ensures Normalize(decode, Array(items), node, depth) == DecodedWhere(decode, Array(items), tree, path, depth)
  {
    ItemsNormalized(decode, node, items, depth);
    hide Normalize, Marked;
    var a := seq(|items|, i requires 0 <= i < |items| => Normalize(decode, items[i], node.Element(), depth + 1));
    var b := seq(|items|, i requires 0 <= i < |items| =>
      DecodedWhere(decode, items[i], tree, path + [Item], depth + 1));
    assert a == b;
  }

  lemma MembersDecoded(decode: Decoder, members: seq<Member>, tree: Node, path: seq<Step>, node: Node, depth: nat)
    requires depth < MAX_DEPTH
    requires forall i ::
               0 <= i < |members| ==>
               Normalize(decode, members[i].value, node.Child(members[i].key), depth + 1) ==
               DecodedWhere(decode, members[i].value, tree, path + [Key(members[i].key)], depth + 1)
    ensures Normalize(decode, Object(members), node, depth) == DecodedWhere(decode, Object(members), tree, path, depth)
  {
    MembersNormalized(decode, node, members, depth);
    hide Normalize, Marked;
    var a := seq(|members|, i requires 0 <= i < |members| =>
               Member(members[i].key, Normalize(decode, members[i].value, node.Child(members[i].key), depth + 1)));
    var b := seq(|members|, i requires 0 <= i < |members| =>
               Member(members[i].key,
                      DecodedWhere(decode, members[i].value, tree, path + [Key(members[i].key)], depth + 1)));
    assert a == b;
  }

  /** What is not a container, and where normalisation gives up, stays as it is; an opened string is its content. */
  lemma OnlyContainers(decode: Decoder, v: Json, tree: Node, path: seq<Step>, node: Node, depth: nat)
    requires node.embedded <==> Marked(tree, path)
    ensures var o := Opened(decode, v, node);
            if depth >= MAX_DEPTH then
              Normalize(decode, v, node, depth) == v == DecodedWhere(decode, v, tree, path, depth)
            else if o.Array? || o.Object? then
              Normalize(decode, v, node, depth) == Normalize(decode, o, node, depth) &&
              DecodedWhere(decode, v, tree, path, depth) == DecodedWhere(decode, o, tree, path, depth)
            else Normalize(decode, v, node, depth) == o == DecodedWhere(decode, v, tree, path, depth)
  {
    hide Marked;
  }

  lemma BelowHere(tree: Node, path: seq<Step>, node: Node)
    requires BelowPath(tree, path, node)
    ensures node.embedded <==> Marked(tree, path)
  {
    assert Marked(node, []) <==> Marked(tree, path + []);
    assert path + [] == path;
  }

  /** Normalisation decodes exactly the strings at marked positions. */
  lemma {:induction false} NormalizeIsDecodedWhere(decode: Decoder, v: Json, tree: Node, path: seq<Step>, node: Node,
                                                   depth: nat)
    requires BelowPath(tree, path, node)
    ensures Normalize(decode, v, node, depth) == DecodedWhere(decode, v, tree, path, depth)
    decreases Left(depth)
  {
    hide Normalize, DecodedWhere, BelowPath, Marked, Opened;
    BelowHere(tree, path, node);
    OnlyContainers(decode, v, tree, path, node, depth);
    if depth < MAX_DEPTH {
      match Opened(decode, v, node)
      case Array(items) =>
        ElementBelow(tree, path, node);
        forall i | 0 <= i < |items|
          ensures Normalize(decode, items[i], node.Element(), depth + 1)
               == DecodedWhere(decode, items[i], tree, path + [Item], depth + 1)
        {
          NormalizeIsDecodedWhere(decode, items[i], tree, path + [Item], node.Element(), depth + 1);
        }
        ItemsDecoded(decode, items, tree, path, node, depth);
      case Object(members) =>
        forall i | 0 <= i < |members|
          ensures Normalize(decode, members[i].value, node.Child(members[i].key), depth + 1)
               == DecodedWhere(decode, members[i].value, tree, path + [Key(members[i].key)], depth + 1)
        {
          ChildBelow(tree, path, node, members[i].key);
          NormalizeIsDecodedWhere(decode, members[i].value, tree, path + [Key(members[i].key)],
                                  node.Child(members[i].key), depth + 1);
        }
        MembersDecoded(decode, members, tree, path, node, depth);
      case _ =>
    }
  }

  lemma ElementBelow(tree: Node, path: seq<Step>, node: Node)
    requires BelowPath(tree, path, node)
    ensures BelowPath(tree, path + [Item], node.Element())
  {
    hide Marked, BelowPath;
    forall rest: seq<Step>
      ensures Marked(node.Element(), rest) <==> Marked(node, [Item] + rest)
    {
      ElementMarks(node, rest);
    }
    BelowStep(tree, path, node, Item, node.Element());
  }

  lemma ChildBelow(tree: Node, path: seq<Step>, node: Node, key: string)
    requires BelowPath(tree, path, node)
    ensures BelowPath(tree, path + [Key(key)], node.Child(key))
  {
    hide Marked, BelowPath;
    forall rest: seq<Step>
      ensures Marked(node.Child(key), rest) <==> Marked(node, [Key(key)] + rest)
    {
      ChildMarks(node, key, rest);
    }
    BelowStep(tree, path, node, Key(key), node.Child(key));
  }

  // ----- The stored rows -----------------------------------------------------------------

  lemma {:induction false} UnchangedIsSame(decode: Decoder, v: Json, node: Node, depth: nat)
    requires !Changes(decode, v, node, depth)
    ensures Normalize(decode, v, node, depth) == v
    decreases Left(depth)
  {
    if depth < MAX_DEPTH {
      match Opened(decode, v, node)
      case Array(items) =>
        if node.element.Some? {
          forall i | 0 <= i < |items|
            ensures Normalize(decode, items[i], node.element.value, depth + 1) == items[i]
          {
            UnchangedIsSame(decode, items[i], node.element.value, depth + 1);
          }
        }
      case Object(members) =>
        forall i | 0 <= i < |members| && members[i].key in node.objects
          ensures Normalize(decode, members[i].value, node.objects[members[i].key], depth + 1) == members[i].value
        {
          UnchangedIsSame(decode, members[i].value, node.objects[members[i].key], depth + 1);
        }
        assert Normalize(decode, v, node, depth).members == members;
      case _ =>
    }
  }

  /** prepareParsedEvent on a record that is discovered in full: the tree after it and the stored value. */
  ghost function PrepareDiscovered(decode: Decoder, tree: Node, v: Json): (Node, Json) {
    var (after, found) := Discover(decode, v, tree, 0);
    (after, if found then Normalize(decode, v, after, 0) else v)
  }

  /** prepareParsedEvent on a record that only consults the tree. */
  ghost function PrepareKnown(decode: Decoder, tree: Node, v: Json): Json {
    if tree.Active() && Changes(decode, v, tree, 0) then Normalize(decode, v, tree, 0) else v
  }

  /** A fully discovered record is stored with every embedded string decoded. */
  lemma DiscoveredRecordIsExpanded(decode: Decoder, tree: Node, v: Json)
    requires DecodesContainers(decode) && Settled(decode, v, 0)
    ensures PrepareDiscovered(decode, tree, v).1 == Expand(decode, v, 0)
    ensures Covers(decode, PrepareDiscovered(decode, tree, v).0, v, 0)
    ensures Subtree(tree, PrepareDiscovered(decode, tree, v).0)
  {
    DiscoverVisits(decode, v, tree, 0);
    var (after, found) := Discover(decode, v, tree, 0);
    NormalizeExpandsIffCovered(decode, after, v, 0, 0);
  }

  /** A record that is not discovered is stored fully decoded exactly when the tree covers it. */
  lemma KnownRecordIsExpandedIffCovered(decode: Decoder, tree: Node, v: Json)
    requires DecodesContainers(decode) && Settled(decode, v, 0)
    ensures PrepareKnown(decode, tree, v) == Expand(decode, v, 0) <==> Covers(decode, tree, v, 0)
  {
    NormalizeExpandsIffCovered(decode, tree, v, 0, 0);
    if !tree.Active() {
      assert tree == EMPTY;
      EmptyTreeKeeps(decode, v, 0);
    } else if !Changes(decode, v, tree, 0) {
      UnchangedIsSame(decode, v, tree, 0);
    }
  }

  /** A record that only consults the tree: its strings at marked positions are decoded, and nothing else changes. */
  lemma KnownIsDecodedWhere(decode: Decoder, tree: Node, v: Json)
    ensures PrepareKnown(decode, tree, v) == DecodedWhere(decode, v, tree, [], 0)
  {
    hide Normalize, DecodedWhere, Changes, Marked;
    RootIsBelow(tree);
    NormalizeIsDecodedWhere(decode, v, tree, [], tree, 0);
    if !tree.Active() {
      EmptyTreeKeeps(decode, v, 0);
    } else if !Changes(decode, v, tree, 0) {
      UnchangedIsSame(decode, v, tree, 0);
    }
  }

  lemma RootIsBelow(tree: Node)
    ensures BelowPath(tree, [], tree)
  {
    hide Marked;
    forall rest: seq<Step>
      ensures Marked(tree, rest) <==> Marked(tree, [] + rest)
    {
      assert [] + rest == rest;
    }
  }

  /** The tree after discovering a sequence of records. */
  ghost function TreeAfter(decode: Decoder, tree: Node, records: seq<Json>): Node
    decreases |records|
  {
    if records == [] then tree else TreeAfter(decode, Discover(decode, records[0], tree, 0).0, records[1..])
  }

  lemma {:induction false} FinalTreeCovers(decode: Decoder, tree: Node, records: seq<Json>, i: nat)
    requires DecodesContainers(decode)
    requires i < |records| ==> Settled(decode, records[i], 0)
    ensures Subtree(tree, TreeAfter(decode, tree, records))
    ensures i < |records| ==> Covers(decode, TreeAfter(decode, tree, records), records[i], 0)
    decreases |records|
  {
    hide Subtree, Covers, Settled, Discover;
    SubtreeReflexive(tree);
    if records != [] {
      var first := Discover(decode, records[0], tree, 0).0;
      var last := TreeAfter(decode, tree, records);
      DiscoverVisits(decode, records[0], tree, 0);
      FinalTreeCovers(decode, first, records[1..], if i == 0 then |records| else i - 1);
      SubtreeTransitive(tree, first, last);
      if i == 0 {
        CoversGrows(decode, first, last, records[0], 0);
      }
    }
  }

  /** Discoveries are never lost: the final tree decodes every record discovered on the way. */
  lemma DiscoveriesLast(decode: Decoder, tree: Node, records: seq<Json>, i: nat)
    requires DecodesContainers(decode)
    requires i < |records| && Settled(decode, records[i], 0)
    ensures PrepareKnown(decode, TreeAfter(decode, tree, records), records[i]) == Expand(decode, records[i], 0)
  {
    FinalTreeCovers(decode, tree, records, i);
    KnownRecordIsExpandedIffCovered(decode, TreeAfter(decode, tree, records), records[i]);
  }

  // ----- Which records are discovered -----------------------------------------------------

  const TWO_TO_THE_64: nat := 0x1_0000_0000_0000_0000

  /** A 64-bit hash, both as its set of one bits and as its value. */
  datatype Hash = Hash(bits: set<nat>, value: nat)

  /** topLevelKeyFingerprint: the hashes of the keys combined with xor and with a wrapping sum. */
  datatype Fingerprint = Fingerprint(xor: set<nat>, sum: nat, count: nat)

  function Xor(a: set<nat>, b: set<nat>): set<nat> {
    (a - b) + (b - a)
  }

  function Mix(f: Fingerprint, h: Hash): Fingerprint {
    Fingerprint(Xor(f.xor, h.bits), (f.sum + h.value) % TWO_TO_THE_64, f.count + 1)
  }

  function FingerprintOf(hash: string -> Hash, keys: seq<string>): Fingerprint {
    if keys == [] then Fingerprint({}, 0, 0) else Mix(FingerprintOf(hash, keys[1..]), hash(keys[0]))
  }

  function KeySet(keys: seq<string>): set<string> {
    set k | k in keys
  }

  ghost predicate Distinct(keys: seq<string>) {
    forall i, j :: 0 <= i < j < |keys| ==> keys[i] != keys[j]
  }

  lemma MixCommutes(f: Fingerprint, a: Hash, b: Hash)
    ensures Mix(Mix(f, a), b) == Mix(Mix(f, b), a)
  {
    assert Xor(Xor(f.xor, a.bits), b.bits) == Xor(Xor(f.xor, b.bits), a.bits);
  }

  function Without(keys: seq<string>, i: nat): seq<string>
    requires i < |keys|
  {
    keys[..i] + keys[i + 1..]
  }

  lemma {:induction false} FingerprintWithout(hash: string -> Hash, keys: seq<string>, i: nat)
    requires i < |keys|
    ensures FingerprintOf(hash, keys) == Mix(FingerprintOf(hash, Without(keys, i)), hash(keys[i]))
  {
    if i == 0 {
      assert Without(keys, 0) == keys[1..];
    } else {
      hide Mix;
      var rest := Without(keys[1..], i - 1);
      FingerprintWithout(hash, keys[1..], i - 1);
      assert Without(keys, i) == [keys[0]] + rest;
      MixCommutes(FingerprintOf(hash, rest), hash(keys[i]), hash(keys[0]));
    }
  }

  lemma FirstKey(keys: seq<string>)
    ensures keys != [] ==> keys[0] in KeySet(keys)
  {}

  /** The fingerprint depends on the set of keys alone, not on their order. */
  lemma {:induction false} FingerprintOfSet(hash: string -> Hash, a: seq<string>, b: seq<string>)
    requires Distinct(a) && Distinct(b) && KeySet(a) == KeySet(b)
    ensures FingerprintOf(hash, a) == FingerprintOf(hash, b)
    decreases |a|
  {
    if a == [] {
      FirstKey(b);
    } else {
      assert a[0] in KeySet(b);
      var i: nat :| i < |b| && b[i] == a[0];
      RestKeys(a);
      MiddleKeys(b, i);
      FingerprintOfSet(hash, a[1..], Without(b, i));
      FingerprintWithout(hash, b, i);
    }
  }

  lemma RestKeys(a: seq<string>)
    requires a != [] && Distinct(a)
    ensures KeySet(a[1..]) == KeySet(a) - {a[0]} && Distinct(a[1..])
  {
    forall k | k in KeySet(a) - {a[0]}
      ensures k in KeySet(a[1..])
    {
      var j :| 0 <= j < |a| && a[j] == k;
      assert a[1..][j - 1] == k;
    }
  }

  lemma MiddleKeys(b: seq<string>, i: nat)
    requires i < |b| && Distinct(b)
    ensures KeySet(Without(b, i)) == KeySet(b) - {b[i]} && Distinct(Without(b, i))
  {
    var rest := Without(b, i);
    forall j | 0 <= j < |rest|
      ensures rest[j] == b[if j < i then j else j + 1]
    {}
    forall k | k in KeySet(b) - {b[i]}
      ensures k in KeySet(rest)
    {
      var j :| 0 <= j < |b| && b[j] == k;
      assert rest[if j < i then j else j - 1] == k;
    }
  }

  lemma {:induction false} CountIsLength(hash: string -> Hash, keys: seq<string>)
    ensures FingerprintOf(hash, keys).count == |keys|
  {
    if keys != [] {
      CountIsLength(hash, keys[1..]);
    }
  }

  lemma {:induction false} DistinctCount(keys: seq<string>)
    requires Distinct(keys)
    ensures |KeySet(keys)| == |keys|
  {
    if keys != [] {
      RestKeys(keys);
      DistinctCount(keys[1..]);
      FirstKey(keys);
      assert |KeySet(keys) - {keys[0]}| == |KeySet(keys)| - 1;
    }
  }

  /**
    What the code takes for a known list of keys: an earlier one with the same fingerprint has all of them.
    Repeated keys count in the fingerprint.
   */
  predicate Known(hash: string -> Hash, observed: set<seq<string>>, keys: seq<string>) {
    exists other | other in observed :: FingerprintOf(hash, other) == FingerprintOf(hash, keys) &&
        KeySet(keys) <= KeySet(other)
  }

  /** Without repeated keys that is exactly to have the same set of keys, whatever collisions the hash has. */
  lemma KnownIsSameSet(hash: string -> Hash, observed: set<seq<string>>, keys: seq<string>)
    requires Distinct(keys) && forall other :: other in observed ==> Distinct(other)
    ensures Known(hash, observed, keys) <==> exists other :: other in observed && KeySet(other) == KeySet(keys)
  {
    DistinctCount(keys);
    CountIsLength(hash, keys);
    forall other | other in observed
      ensures FingerprintOf(hash, other) == FingerprintOf(hash, keys) && KeySet(keys) <= KeySet(other) <==>
              KeySet(other) == KeySet(keys)
    {
      DistinctCount(other);
      CountIsLength(hash, other);
      if KeySet(other) == KeySet(keys) {
        FingerprintOfSet(hash, keys, other);
      } else if KeySet(keys) <= KeySet(other) && |keys| == |other| {
        SubsetOfSameSize(KeySet(keys), KeySet(other));
      }
    }
  }

  /** A key set that is filed under a fingerprint. */
  datatype TopLevelKeySet = TopLevelKeySet(keys: set<string>, count: nat)

  /** topLevelKeySets: the lists of keys observed so far, filed under their fingerprints. */
  class KeySets {
    const hash: string -> Hash
    var filed: map<Fingerprint, seq<TopLevelKeySet>>
    ghost var observed: set<seq<string>>

    ghost predicate Valid()
      reads this
    {
      && (forall f, i :: f in filed && 0 <= i < |filed[f]| ==> StandsFor(f, filed[f][i]))
      && (forall keys :: keys in observed ==>
          FingerprintOf(hash, keys) in filed && Filed(filed[FingerprintOf(hash, keys)], keys))
    }

    ghost predicate StandsFor(f: Fingerprint, candidate: TopLevelKeySet)
      reads this
    {
      exists keys :: keys in observed && FingerprintOf(hash, keys) == f &&
          candidate == TopLevelKeySet(KeySet(keys), f.count)
    }

    ghost predicate Filed(candidates: seq<TopLevelKeySet>, keys: seq<string>) {
      exists i :: 0 <= i < |candidates| && KeySet(keys) <= candidates[i].keys
    }

    constructor (hash: string -> Hash)
      ensures Valid() && observed == {} && this.hash == hash
    {
      this.hash := hash;
      filed, observed := map[], {};
    }

    /** Whether all keys are among those of the candidate. */
    method Matches(keys: seq<string>, candidate: TopLevelKeySet) returns (matches: bool)
      ensures matches <==> KeySet(keys) <= candidate.keys
    {
      matches := true;
      var k := 0;
      while k < |keys| && matches
        invariant 0 <= k <= |keys|
        invariant matches <==> forall i :: 0 <= i < k ==> keys[i] in candidate.keys
      {
        matches := keys[k] in candidate.keys;
        k := k + 1;
      }
      if !matches {
        assert keys[k - 1] in KeySet(keys);
      }
    }

    /** observeTopLevelKeySet */
    method Observe(keys: seq<string>) returns (seen: bool)
      requires Valid()
      modifies this
      ensures Valid()
      ensures seen <==> Known(hash, old(observed), keys)
      ensures observed == old(observed) + {keys}
    {
      hide FingerprintOf, KeySet, Known, Filed;
      var f := FingerprintOf(hash, keys);
      var candidates := if f in filed then filed[f] else [];
      FiledIsKnown(keys, f, candidates);
      seen := FindKeys(keys, f, candidates);
      if seen {
        MoreObserved(keys);
      } else {
        FileKeys(keys, f, candidates);
      }
    }

    method FindKeys(keys: seq<string>, f: Fingerprint, candidates: seq<TopLevelKeySet>) returns (seen: bool)
      requires forall i :: 0 <= i < |candidates| ==> candidates[i].count == f.count
      ensures seen <==> Filed(candidates, keys)
    {
      for c := 0 to |candidates|
        invariant forall i :: 0 <= i < c ==> !(KeySet(keys) <= candidates[i].keys)
      {
        var matches := Matches(keys, candidates[c]);
        if matches && candidates[c].count == f.count {
          return true;
        }
      }
      seen := false;
    }

    lemma FiledIsKnown(keys: seq<string>, f: Fingerprint, candidates: seq<TopLevelKeySet>)
      requires Valid() && f == FingerprintOf(hash, keys) && candidates == if f in filed then filed[f] else []
      ensures Filed(candidates, keys) <==> Known(hash, observed, keys)
      ensures Filed(candidates, keys) ==> f in filed
      ensures forall i :: 0 <= i < |candidates| ==> candidates[i].count == f.count
    {
      hide FingerprintOf, KeySet;
      forall i | 0 <= i < |candidates|
        ensures candidates[i].count == f.count
      {
        assert StandsFor(f, candidates[i]);
      }
      if i :| 0 <= i < |candidates| && KeySet(keys) <= candidates[i].keys {
        assert StandsFor(f, candidates[i]);
      }
      if other :| other in observed && FingerprintOf(hash, other) == f && KeySet(keys) <= KeySet(other) {
        var i :| 0 <= i < |candidates| && KeySet(other) <= candidates[i].keys;
        assert KeySet(keys) <= candidates[i].keys;
      }
    }

    ghost method MoreObserved(keys: seq<string>)
      requires Valid() && FingerprintOf(hash, keys) in filed && Filed(filed[FingerprintOf(hash, keys)], keys)
      modifies `observed
      ensures Valid() && observed == old(observed) + {keys}
    {
      hide FingerprintOf, KeySet, Filed;
      observed := observed + {keys};
      forall f, i | f in filed && 0 <= i < |filed[f]|
        ensures StandsFor(f, filed[f][i])
      {
        assert old(StandsFor(f, filed[f][i]));
      }
    }

    method FileKeys(keys: seq<string>, f: Fingerprint, candidates: seq<TopLevelKeySet>)
      requires Valid() && f == FingerprintOf(hash, keys)
      requires candidates == if f in filed then filed[f] else []
      modifies this
      ensures Valid() && observed == old(observed) + {keys}
    {
      hide FingerprintOf, KeySet;
      var grown := candidates + [TopLevelKeySet(KeySet(keys), f.count)];
      assert grown[|candidates|].keys == KeySet(keys);
      ghost var before := filed;
      filed := filed[f := grown];
      observed := observed + {keys};
      forall g, i | g in filed && 0 <= i < |filed[g]|
        ensures StandsFor(g, filed[g][i])
      {
        if g != f || i < |candidates| {
          assert g in before && i < |before[g]| && filed[g][i] == before[g][i];
          assert old(StandsFor(g, filed[g][i]));
        }
      }
      forall other | other in observed
        ensures FingerprintOf(hash, other) in filed && Filed(filed[FingerprintOf(hash, other)], other)
      {
        if other != keys {
          var g := FingerprintOf(hash, other);
          assert g in before && Filed(before[g], other);
          var i :| 0 <= i < |before[g]| && KeySet(other) <= before[g][i].keys;
          assert filed[g][i] == before[g][i];
        }
      }
    }
  }
}
