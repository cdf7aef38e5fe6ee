/** Reading the key of a value: frameSetKey, readSetKey and setValueKey in internal/database/kql_sets.go. */
module SetReader {
  import opened DecimalText
  import opened Limits
  import opened Numbers
  import opened SetKeys
  import opened Wrappers

  const MAX_STORAGE: int := 2 * MAX_BYTES

  datatype KeyError = Nesting | Nodes | Work | NumberRefused | Duplicate | Storage

  /** There is no key, or it is longer than what may be stored. */
  ghost predicate TooLong(v: Json, depth: nat) {
    KeyOf(v, depth).None? || |KeyOf(v, depth).value| > MAX_STORAGE
  }

  // ----- What a reading costs ----------------------------------------------------------------

  /** The work for a value: one step for every value in it, and the length of every key. */
  ghost function Cost(v: Json, depth: nat): nat
    decreases v, 1
  {
    1 + (match v
         case Array(items) => ItemsCost(items, depth + 1)
         case Object(members) => MembersCost(members, depth + 1)
         case _ => 0) +
    if KeyOf(v, depth).Some? then |KeyOf(v, depth).value| else 0
  }

  ghost function ItemsCost(items: seq<Json>, depth: nat): nat
    decreases items, 0
  {
    if items == [] then 0 else ItemsCost(items[..|items| - 1], depth) + Cost(items[|items| - 1], depth)
  }

  ghost function MembersCost(members: seq<Member>, depth: nat): nat
    decreases members, 0
  {
    if members == [] then 0
    else MembersCost(members[..|members| - 1], depth) + Cost(members[|members| - 1].value, depth)
  }

  /** How many values there are in a value, itself included. */
  ghost function Count(v: Json): nat
    decreases v, 1
  {
    1 + match v
        case Array(items) => ItemsCount(items)
        case Object(members) => MembersCount(members)
        case _ => 0
  }

  ghost function ItemsCount(items: seq<Json>): nat
    decreases items, 0
  {
    if items == [] then 0 else ItemsCount(items[..|items| - 1]) + Count(items[|items| - 1])
  }

  ghost function MembersCount(members: seq<Member>): nat
    decreases members, 0
  {
    if members == [] then 0 else MembersCount(members[..|members| - 1]) + Count(members[|members| - 1].value)
  }

  lemma ItemsStep(items: seq<Json>, i: nat, depth: nat)
    requires i < |items|
    ensures ItemsCost(items[..i + 1], depth) == ItemsCost(items[..i], depth) + Cost(items[i], depth)
    ensures ItemsCount(items[..i + 1]) == ItemsCount(items[..i]) + Count(items[i])
  {
    assert items[..i + 1][..i] == items[..i];
  }

  lemma MembersStep(members: seq<Member>, i: nat, depth: nat)
    requires i < |members|
    ensures MembersCost(members[..i + 1], depth) == MembersCost(members[..i], depth) + Cost(members[i].value, depth)
    ensures MembersCount(members[..i + 1]) == MembersCount(members[..i]) + Count(members[i].value)
  {
    assert members[..i + 1][..i] == members[..i];
  }

  lemma {:induction false} ItemsGrow(items: seq<Json>, i: nat, depth: nat)
    requires i <= |items|
    ensures ItemsCost(items[..i], depth) <= ItemsCost(items, depth) && ItemsCount(items[..i]) <= ItemsCount(items)
    decreases |items| - i
  {
    hide ItemsCost, ItemsCount;
    if i < |items| {
      ItemsStep(items, i, depth);
      ItemsGrow(items, i + 1, depth);
    } else {
      assert items[..i] == items;
    }
  }

  lemma {:induction false} MembersGrow(members: seq<Member>, i: nat, depth: nat)
    requires i <= |members|
    ensures MembersCost(members[..i], depth) <= MembersCost(members, depth)
    ensures MembersCount(members[..i]) <= MembersCount(members)
    decreases |members| - i
  {
    hide MembersCost, MembersCount;
    if i < |members| {
      MembersStep(members, i, depth);
      MembersGrow(members, i + 1, depth);
    } else {
      assert members[..i] == members;
    }
  }

  /**
    What the failures say: the value has no key at this depth, or the reading costs more than there was in a budget,
    or the key is too long.
   */
  ghost predicate Justified(error: KeyError, v: Json, depth: nat, work: int, cost: nat, nodes: int, count: nat) {
    match error
    case Work => work < cost
    case Nodes => nodes < count
    case Storage => TooLong(v, depth)
    case _ => KeyOf(v, depth).None?
  }

  /** The budgets that the readings of one call share. */
  class Budget {
    var work: int
    var nodes: int

    constructor (work: int, nodes: int)
      ensures this.work == work && this.nodes == nodes
    {
      this.work, this.nodes := work, nodes;
    }
  }

  /** The text already in the buffer, and one more frame, unless the limit would be passed. */
  method FrameSetKey(buffer: string, key: string) returns (r: Result<string, KeyError>)
    ensures r.Ok? ==> r.value == buffer + Frame(key) && |r.value| < MAX_STORAGE
    ensures r.Err? <==> |buffer| + |Frame(key)| >= MAX_STORAGE
    ensures r.Err? ==> r.error == Storage
  {
    var header := NatText(|key|);
    if |header| + 1 + |key| > MAX_STORAGE - |buffer| - 1 {
      return Err(Storage);
    }
    r := Ok(buffer + header + ":" + key);
    assert r.value == buffer + (header + ":" + key);
  }

  lemma {:induction false} FramesAppend(ks: seq<string>, k: string)
    ensures Frames(ks + [k]) == Frames(ks) + Frame(k)
  {
    hide Frame;
    if ks == [] {
      assert [k][1..] == [];
    } else {
      assert (ks + [k])[1..] == ks[1..] + [k];
      FramesAppend(ks[1..], k);
    }
  }

  lemma {:induction false} FramesOfConcat(a: seq<string>, b: seq<string>)
    ensures Frames(a + b) == Frames(a) + Frames(b)
  {
    hide Frame;
    if a == [] {
      assert a + b == b;
    } else {
      assert (a + b)[1..] == a[1..] + b;
      FramesOfConcat(a[1..], b);
    }
  }

  /** Every text of the list, and every front part, is shorter than all the frames. */
  lemma FramesCover(ks: seq<string>, i: nat)
    requires i < |ks|
    ensures |Frames(ks[..i + 1])| <= |Frames(ks)| && |ks[i]| <= |Frames(ks)|
  {
    assert ks == ks[..i + 1] + ks[i + 1..];
    assert ks[..i + 1] == ks[..i] + [ks[i]];
    FramesOfConcat(ks[..i + 1], ks[i + 1..]);
    FramesAppend(ks[..i], ks[i]);
  }

  lemma ArrayKeyIs(items: seq<Json>, depth: nat)
    requires KeyOf(Array(items), depth).Some?
    ensures KeysOf(items, depth + 1).Some?
    ensures KeyOf(Array(items), depth).value == "a[" + Frames(KeysOf(items, depth + 1).value) + "]"
  {
    hide Frames;
  }

  /** A list with an element that is refused as too long is too long itself. */
  lemma LongElement(items: seq<Json>, depth: nat, i: nat)
    requires i < |items| && TooLong(items[i], depth + 1)
    ensures TooLong(Array(items), depth)
  {
    hide Frames;
    if KeyOf(Array(items), depth).Some? {
      var ks := KeysOf(items, depth + 1).value;
      FramesCover(ks, i);
    }
  }

  /** So is one whose first elements fill the buffer. */
  lemma LongList(items: seq<Json>, depth: nat, ks: seq<string>, k: string)
    requires |ks| < |items| && forall j :: 0 <= j < |ks| ==> KeyOf(items[j], depth + 1) == Some(ks[j])
    requires KeyOf(items[|ks|], depth + 1) == Some(k) && |"a[" + Frames(ks)| + |Frame(k)| >= MAX_STORAGE
    ensures TooLong(Array(items), depth)
  {
    hide KeyOf, KeysOf, Frames, Frame;
    if KeyOf(Array(items), depth).Some? {
      ArrayKeyIs(items, depth);
      var all := KeysOf(items, depth + 1).value;
      assert all == ks + [k] + all[|ks| + 1..];
      LongFront(ks, k, all[|ks| + 1..]);
    }
  }

  lemma LongFront(ks: seq<string>, k: string, rest: seq<string>)
    ensures |Frames(ks)| + |Frame(k)| <= |Frames(ks + [k] + rest)|
  {
    hide Frames, Frame;
    FramesAppend(ks, k);
    FramesOfConcat(ks + [k], rest);
  }

  lemma {:induction false} FlattenHas(es: seq<Entry>, e: Entry)
    requires e in es
    ensures e.key in Flatten(es)
  {
    if e != es[0] {
      assert es == [es[0]] + es[1..];
      FlattenHas(es[1..], e);
    }
  }

  /** An object with a member that is refused as too long is too long itself. */
  lemma LongMember(members: seq<Member>, depth: nat, i: nat)
    requires i < |members| && TooLong(members[i].value, depth + 1)
    ensures TooLong(Object(members), depth)
  {
    hide Frames, Flatten, SortEntries;
    if KeyOf(Object(members), depth).Some? {
      var es := EntriesOf(members, depth + 1).value;
      LongEntry(es, es[i]);
    }
  }

  lemma LongEntry(es: seq<Entry>, e: Entry)
    requires DistinctNames(es) && e in es
    ensures |e.key| <= |Frames(Flatten(SortEntries(es)))|
  {
    SortSorts(es);
    hide SortEntries, Frames;
    assert e in Entries(SortEntries(es));
    FlattenHas(SortEntries(es), e);
    var ks := Flatten(SortEntries(es));
    var j :| 0 <= j < |ks| && ks[j] == e.key;
    FramesCover(ks, j);
  }

  lemma {:induction false} FlattenOfConcat(a: seq<Entry>, b: seq<Entry>)
    ensures Flatten(a + b) == Flatten(a) + Flatten(b)
  {
    if a == [] {
      assert a + b == b;
    } else {
      assert (a + b)[1..] == a[1..] + b;
      FlattenOfConcat(a[1..], b);
    }
  }

  lemma EntriesCover(ss: seq<Entry>, i: nat)
    requires i < |ss|
    ensures |Frames(Flatten(ss[..i + 1]))| <= |Frames(Flatten(ss))|
  {
    hide Frames, Flatten;
    assert ss == ss[..i + 1] + ss[i + 1..];
    FlattenOfConcat(ss[..i + 1], ss[i + 1..]);
    FramesOfConcat(Flatten(ss[..i + 1]), Flatten(ss[i + 1..]));
  }

  lemma LongObject(members: seq<Member>, depth: nat, key: string)
    requires KeyOf(Object(members), depth) == Some(key) && |key| > MAX_STORAGE
    ensures TooLong(Object(members), depth)
  {}

  lemma {:induction false} KeysRead(items: seq<Json>, depth: nat, ks: seq<string>)
    requires |ks| == |items| && forall i :: 0 <= i < |ks| ==> KeyOf(items[i], depth) == Some(ks[i])
    ensures KeysOf(items, depth) == Some(ks)
  {
    hide KeyOf;
    if items != [] {
      KeysRead(items[1..], depth, ks[1..]);
      assert ks == [ks[0]] + ks[1..];
    }
  }

  lemma {:induction false} EntriesRead(members: seq<Member>, depth: nat, es: seq<Entry>)
    requires |es| == |members|
    requires forall i :: 0 <= i < |es| ==>
               es[i].name == members[i].name && KeyOf(members[i].value, depth) == Some(es[i].key)
    ensures EntriesOf(members, depth) == Some(es)
  {
    hide KeyOf;
    if members != [] {
      EntriesRead(members[1..], depth, es[1..]);
      assert es == [es[0]] + es[1..];
    }
  }

  // ----- Sorting names, then looking their keys up, is sorting entries ---------------------

  function InsertName(n: string, ns: seq<string>): seq<string> {
    if ns == [] || Less(n, ns[0]) then [n] + ns else [ns[0]] + InsertName(n, ns[1..])
  }

  /** sort.Strings */
  function SortNames(ns: seq<string>): seq<string> {
    if ns == [] then [] else InsertName(ns[0], SortNames(ns[1..]))
  }

  function Names(es: seq<Entry>): (ns: seq<string>)
    ensures |ns| == |es| && forall i :: 0 <= i < |es| ==> ns[i] == es[i].name
  {
    seq(|es|, i requires 0 <= i < |es| => es[i].name)
  }

  lemma {:induction false} InsertCommutes(e: Entry, es: seq<Entry>)
    ensures Names(InsertEntry(e, es)) == InsertName(e.name, Names(es))
  {
    if es != [] {
      InsertCommutes(e, es[1..]);
      assert Names(es)[1..] == Names(es[1..]);
    }
  }

  lemma {:induction false} SortCommutes(es: seq<Entry>)
    ensures Names(SortEntries(es)) == SortNames(Names(es))
  {
    if es != [] {
      SortCommutes(es[1..]);
      assert Names(es)[1..] == Names(es[1..]);
      InsertCommutes(es[0], SortEntries(es[1..]));
    }
  }

  /** The map holds the key of every entry under its name. */
  ghost predicate Holds(properties: map<string, string>, es: seq<Entry>) {
    (forall e :: e in es ==> e.name in properties && properties[e.name] == e.key) &&
    (forall n :: n in properties ==> exists i :: 0 <= i < |es| && es[i].name == n)
  }

  lemma {:induction false} SortKeepsHeld(properties: map<string, string>, es: seq<Entry>)
    requires DistinctNames(es) && Holds(properties, es)
    ensures forall e :: e in SortEntries(es) ==> e.name in properties && properties[e.name] == e.key
  {
    SortSorts(es);
    forall e | e in SortEntries(es)
      ensures e in es
    {
      assert e in Entries(SortEntries(es));
    }
  }

  lemma FlattenAppend(es: seq<Entry>, e: Entry)
    ensures Flatten(es + [e]) == Flatten(es) + [e.name, e.key]
  {
    if es == [] {
      assert [e][1..] == [];
    } else {
      assert (es + [e])[1..] == es[1..] + [e];
      FlattenAppend(es[1..], e);
    }
  }

  lemma EntryFramed(es: seq<Entry>, e: Entry)
    ensures Frames(Flatten(es + [e])) == Frames(Flatten(es)) + Frame(e.name) + Frame(e.key)
  {
    hide Frame, Frames;
    FlattenAppend(es, e);
    FramesAppend(Flatten(es), e.name);
    FramesAppend(Flatten(es) + [e.name], e.key);
    assert Flatten(es) + [e.name, e.key] == (Flatten(es) + [e.name]) + [e.key];
  }

  // ----- The readers ------------------------------------------------------------------------

  method ReadSetKey(v: Json, depth: nat, budget: Budget) returns (r: Result<string, KeyError>)
    modifies budget
    ensures r.Ok? ==> KeyOf(v, depth) == Some(r.value) && budget.work >= 0 && budget.nodes >= 0
    ensures r.Ok? && (v.Array? || v.Object?) ==> |r.value| <= MAX_STORAGE
    ensures r.Ok? ==> budget.work == old(budget.work) - Cost(v, depth) && budget.nodes == old(budget.nodes) - Count(v)
    ensures r.Err? ==> Justified(r.error, v, depth, old(budget.work), Cost(v, depth), old(budget.nodes), Count(v))
    decreases v, 1
  {
    if depth > MAX_SET_KEY_DEPTH {
      return Err(Nesting);
    }
    budget.nodes := budget.nodes - 1;
    if budget.nodes < 0 {
      return Err(Nodes);
    }
    budget.work := budget.work - 1;
    if budget.work < 0 {
      return Err(Work);
    }
    var key;
    match v {
      case Null => key := "z";
      case Bool(bit) => key := if bit then "b1" else "b0";
      case String(text) => key := "s" + text;
      case Number(l) =>
        var number := NormalizeNumber(Render(l), l);
        if number.None? {
          return Err(NumberRefused);
        }
        key := NumberKey(number.value);
      case Array(items) =>
        var read := ReadArray(items, depth, budget);
        if read.Err? {
          return Err(read.error);
        }
        key := read.value;
      case Object(members) =>
        var read := ReadObject(members, depth, budget);
        if read.Err? {
          return Err(read.error);
        }
        key := read.value;
    }
    budget.work := budget.work - |key|;
    if budget.work < 0 {
      return Err(Work);
    }
    r := Ok(key);
  }

  lemma ArrayRead(items: seq<Json>, depth: nat, ks: seq<string>)
    requires depth <= MAX_SET_KEY_DEPTH
    requires |ks| == |items| && forall i :: 0 <= i < |ks| ==> KeyOf(items[i], depth + 1) == Some(ks[i])
    ensures KeyOf(Array(items), depth) == Some("a[" + Frames(ks) + "]")
  {
    KeysRead(items, depth + 1, ks);
  }

  method ReadArray(items: seq<Json>, depth: nat, budget: Budget) returns (r: Result<string, KeyError>)
    requires depth <= MAX_SET_KEY_DEPTH && budget.nodes >= 0
    modifies budget
    ensures r.Ok? ==> KeyOf(Array(items), depth) == Some(r.value) && |r.value| <= MAX_STORAGE && budget.nodes >= 0
    ensures r.Ok? ==> budget.work == old(budget.work) - ItemsCost(items, depth + 1)
    ensures r.Ok? ==> budget.nodes == old(budget.nodes) - ItemsCount(items)
    ensures r.Err? ==> Justified(r.error, Array(items), depth, old(budget.work), ItemsCost(items, depth + 1),
                                 old(budget.nodes), ItemsCount(items))
    decreases items, 0
  {
    hide KeyOf, Frame, TooLong, ItemsCost, ItemsCount, Cost, Count;
    NoItems(depth + 1);
    assert items[..0] == [];
    var buffer := "a[";
    ghost var ks: seq<string> := [];
    var i := 0;
    while i < |items|
      invariant 0 <= i == |ks| <= |items| && budget.nodes >= 0
      invariant forall j :: 0 <= j < i ==> KeyOf(items[j], depth + 1) == Some(ks[j])
      invariant buffer == "a[" + Frames(ks) && |buffer| < MAX_STORAGE
      invariant budget.work == old(budget.work) - ItemsCost(items[..i], depth + 1)
      invariant budget.nodes == old(budget.nodes) - ItemsCount(items[..i])
    {
      hide Frames;
      ItemsStep(items, i, depth + 1);
      ItemsGrow(items, i + 1, depth + 1);
      var child := ReadSetKey(items[i], depth + 1, budget);
      if child.Err? {
        ChildRefused(items, depth, i);
        if TooLong(items[i], depth + 1) {
          LongElement(items, depth, i);
        }
        return Err(child.error);
      }
      var framed := FrameSetKey(buffer, child.value);
      if framed.Err? {
        LongList(items, depth, ks, child.value);
        return Err(Storage);
      }
      FramesAppend(ks, child.value);
      buffer, ks, i := framed.value, ks + [child.value], i + 1;
    }
    hide Frames;
    assert items[..i] == items;
    ArrayRead(items, depth, ks);
    r := Ok(buffer + "]");
  }

  lemma NoItems(depth: nat)
    ensures ItemsCost([], depth) == 0 && ItemsCount([]) == 0 && MembersCost([], depth) == 0 && MembersCount([]) == 0
  {}

  lemma ChildRefused(items: seq<Json>, depth: nat, i: nat)
    requires i < |items|
    ensures KeyOf(items[i], depth + 1).None? ==> KeyOf(Array(items), depth).None?
  {}

  lemma MemberRefused(members: seq<Member>, depth: nat, i: nat)
    requires i < |members|
    ensures KeyOf(members[i].value, depth + 1).None? ==> KeyOf(Object(members), depth).None?
    ensures (exists j :: 0 <= j < i && members[j].name == members[i].name) ==> KeyOf(Object(members), depth).None?
  {}

  lemma ObjectRead(members: seq<Member>, depth: nat, es: seq<Entry>)
    requires depth <= MAX_SET_KEY_DEPTH && |es| == |members| && DistinctNames(es)
    requires forall i :: 0 <= i < |es| ==>
               es[i].name == members[i].name && KeyOf(members[i].value, depth + 1) == Some(es[i].key)
    ensures KeyOf(Object(members), depth) == Some("o{" + Frames(Flatten(SortEntries(es))) + "}")
  {
    EntriesRead(members, depth + 1, es);
  }

  lemma HeldIsEarlier(properties: map<string, string>, es: seq<Entry>, members: seq<Member>, i: nat)
    requires i == |es| < |members| && Holds(properties, es) && members[i].name in properties
    requires forall j :: 0 <= j < i ==> es[j].name == members[j].name
    ensures exists j :: 0 <= j < i && members[j].name == members[i].name
  {
    var j :| 0 <= j < |es| && es[j].name == members[i].name;
    assert members[j].name == members[i].name;
  }

  method ReadObject(members: seq<Member>, depth: nat, budget: Budget) returns (r: Result<string, KeyError>)
    requires depth <= MAX_SET_KEY_DEPTH && budget.nodes >= 0
    modifies budget
    ensures r.Ok? ==> KeyOf(Object(members), depth) == Some(r.value) && |r.value| <= MAX_STORAGE && budget.nodes >= 0
    ensures r.Ok? ==> budget.work == old(budget.work) - MembersCost(members, depth + 1)
    ensures r.Ok? ==> budget.nodes == old(budget.nodes) - MembersCount(members)
    ensures r.Err? ==> Justified(r.error, Object(members), depth, old(budget.work), MembersCost(members, depth + 1),
                                 old(budget.nodes), MembersCount(members))
    decreases members, 0
  {
    hide KeyOf, Frames, Flatten, SortEntries, TooLong, MembersCost, MembersCount, Cost, Count;
    NoItems(depth + 1);
    assert members[..0] == [];
    var properties: map<string, string> := map[];
    var names: seq<string> := [];
    ghost var es: seq<Entry> := [];
    var i := 0;
    while i < |members|
      invariant 0 <= i == |es| <= |members| && budget.nodes >= 0
      invariant forall j :: 0 <= j < i ==>
                  es[j].name == members[j].name && KeyOf(members[j].value, depth + 1) == Some(es[j].key)
      invariant DistinctNames(es) && Holds(properties, es) && names == Names(es)
      invariant budget.work == old(budget.work) - MembersCost(members[..i], depth + 1)
      invariant budget.nodes == old(budget.nodes) - MembersCount(members[..i])
    {
      hide DistinctNames, Holds;
      MembersStep(members, i, depth + 1);
      MembersGrow(members, i + 1, depth + 1);
      MemberRefused(members, depth, i);
      var name := members[i].name;
      if name in properties {
        HeldIsEarlier(properties, es, members, i);
        return Err(Duplicate);
      }
      var child := ReadSetKey(members[i].value, depth + 1, budget);
      if child.Err? {
        if TooLong(members[i].value, depth + 1) {
          LongMember(members, depth, i);
        }
        return Err(child.error);
      }
      HoldsOneMore(properties, es, Entry(name, child.value));
      properties, names := properties[name := child.value], names + [name];
      es, i := es + [Entry(name, child.value)], i + 1;
    }
    assert members[..i] == members;
    ObjectRead(members, depth, es);
    var framed := WriteObject(properties, names, es);
    if framed.Err? {
      LongObject(members, depth, "o{" + Frames(Flatten(SortEntries(es))) + "}");
      return Err(Storage);
    }
    r := Ok(framed.value);
  }

  lemma HoldsOneMore(properties: map<string, string>, es: seq<Entry>, e: Entry)
    requires DistinctNames(es) && Holds(properties, es) && e.name !in properties
    ensures DistinctNames(es + [e]) && Holds(properties[e.name := e.key], es + [e])
  {
    forall x | x in es
      ensures x.name != e.name
    {
      assert x.name in properties;
    }
    var extended := properties[e.name := e.key];
    forall n | n in extended
      ensures exists i :: 0 <= i < |es + [e]| && (es + [e])[i].name == n
    {
      if n in properties {
        var i :| 0 <= i < |es| && es[i].name == n;
        assert (es + [e])[i].name == n;
      } else {
        assert (es + [e])[|es|].name == n;
      }
    }
  }

  method FrameEntry(buffer: string, name: string, key: string, ghost es: seq<Entry>)
    returns (r: Result<string, KeyError>)
    requires buffer == "o{" + Frames(Flatten(es))
    ensures r.Ok? ==> r.value == "o{" + Frames(Flatten(es + [Entry(name, key)])) && |r.value| < MAX_STORAGE
    ensures r.Err? ==> |"o{" + Frames(Flatten(es + [Entry(name, key)]))| >= MAX_STORAGE
  {
    hide *;
    EntryFramed(es, Entry(name, key));
    r := FrameSetKey(buffer, name);
    if r.Ok? {
      r := FrameSetKey(r.value, key);
    }
  }

  lemma EntriesGrow(ss: seq<Entry>, i: nat)
    requires i < |ss|
    ensures ss[..i] + [ss[i]] == ss[..i + 1]
  {}

  lemma HeldEntry(properties: map<string, string>, ss: seq<Entry>, i: nat)
    requires i < |ss| && forall e :: e in ss ==> e.name in properties && properties[e.name] == e.key
    ensures ss[i].name in properties && ss[i] == Entry(ss[i].name, properties[ss[i].name])
  {
    assert ss[i] in ss;
  }

  method WriteObject(properties: map<string, string>, names: seq<string>, ghost es: seq<Entry>)
    returns (r: Result<string, KeyError>)
    requires DistinctNames(es) && Holds(properties, es) && names == Names(es)
    ensures r.Ok? ==> r.value == "o{" + Frames(Flatten(SortEntries(es))) + "}" && |r.value| <= MAX_STORAGE
    ensures r.Err? ==> |"o{" + Frames(Flatten(SortEntries(es))) + "}"| > MAX_STORAGE
  {
    SortCommutes(es);
    SortKeepsHeld(properties, es);
    EmptyFrames();
    hide *;
    var sorted := SortNames(names);
    ghost var ss := SortEntries(es);
    var buffer := "o{";
    var i := 0;
    while i < |sorted|
      invariant 0 <= i <= |sorted| == |ss|
      invariant buffer == "o{" + Frames(Flatten(ss[..i])) && |buffer| < MAX_STORAGE
    {
      var name := sorted[i];
      HeldEntry(properties, ss, i);
      r := FrameEntry(buffer, name, properties[name], ss[..i]);
      EntriesGrow(ss, i);
      if r.Err? {
        EntriesCover(ss, i);
        return;
      }
      buffer, i := r.value, i + 1;
    }
    assert ss[..i] == ss;
    r := Ok(buffer + "}");
  }

  lemma EmptyFrames()
    ensures Frames(Flatten([])) == ""
  {}

  /** One element of an array: its raw text, that text without insignificant spaces, and the value it stands for. */
  datatype ParsedElement = Element(raw: string, compact: string, value: Json)

  type Element = e: ParsedElement | e.compact != "" witness Element("null", "null", Null)

  /** The work for one element of an array. */
  ghost function ElementCost(e: Element): nat {
    |e.raw| +
    if e.value.Array? || e.value.Object? then Cost(e.value, 0)
    else 1 + if KeyOf(e.value, 0).Some? then |KeyOf(e.value, 0).value| else 0
  }

  /** The scalar fast path and the recursive reader give the same keys. */
  method SetValueKey(element: Element, budget: Budget) returns (r: Result<string, KeyError>)
    modifies budget
    ensures r.Ok? ==> KeyOf(element.value, 0) == Some(r.value) && budget.work >= 0
    ensures r.Ok? ==> budget.work == old(budget.work) - ElementCost(element)
    ensures r.Err? ==> Justified(r.error, element.value, 0, old(budget.work), ElementCost(element), MAX_PARTS,
                                 Count(element.value))
  {
    budget.work := budget.work - |element.raw|;
    if budget.work < 0 {
      return Err(Work);
    }
    if !element.value.Array? && !element.value.Object? {
      var key := "z";
      match element.value {
        case String(text) => key := "s" + text;
        case Bool(bit) => key := if bit then "b1" else "b0";
        case Number(l) =>
          var number := NormalizeNumber(Render(l), l);
          if number.None? {
            return Err(NumberRefused);
          }
          key := NumberKey(number.value);
        case _ =>
      }
      budget.work := budget.work - (|key| + 1);
      if budget.work < 0 {
        return Err(Work);
      }
      return Ok(key);
    }
    budget.nodes := MAX_PARTS;
    r := ReadSetKey(element.value, 0, budget);
  }
}
