/** Arrays as sets: dynamicSet, kqlSetOperation, kqlSetEquals and kqlJaccardIndex in internal/database/kql_sets.go. */
module SetAlgebra {
  import opened Limits
  import opened SetFacts
  import opened SetKeys
  import opened SetReader
  import opened Wrappers

  // ----- The operations on equality classes -----------------------------------------------

  /** Some element has the value v. */
  ghost predicate Among(v: Json, es: seq<Element>) {
    exists i :: 0 <= i < |es| && Equal(v, es[i].value)
  }

  /** The first element of every class, in order. */
  ghost function Firsts(es: seq<Element>): seq<Element> {
    if es == [] then []
    else
      var front, last := es[..|es| - 1], es[|es| - 1];
      if Among(last.value, front) then Firsts(front) else Firsts(front) + [last]
  }

  /** The elements that are, or are not, among the others. */
  ghost function Select(es: seq<Element>, others: seq<Element>, among: bool): seq<Element> {
    if es == [] then []
    else
      var front, last := es[..|es| - 1], es[|es| - 1];
      Select(front, others, among) + if Among(last.value, others) == among then [last] else []
  }

  datatype Operation = Union | Intersect | Difference

  ghost function Combine(op: Operation, a: seq<Element>, b: seq<Element>): seq<Element> {
    match op
    case Union => Firsts(a + b)
    case Intersect => Select(a, b, true)
    case Difference => Select(a, b, false)
  }

  /** The operation on a list of arrays, from the left. */
  ghost function Fold(op: Operation, arrays: seq<seq<Element>>): seq<Element>
    requires arrays != []
  {
    if |arrays| == 1 then Firsts(arrays[0])
    else Combine(op, Fold(op, arrays[..|arrays| - 1]), arrays[|arrays| - 1])
  }

  /** The same classes, in any order and any number. */
  ghost predicate SameClasses(a: seq<Element>, b: seq<Element>) {
    (forall i :: 0 <= i < |a| ==> Among(a[i].value, b)) && (forall i :: 0 <= i < |b| ==> Among(b[i].value, a))
  }

  // ----- Keys stand for classes ---------------------------------------------------------------

  ghost predicate Keyed(es: seq<Element>) {
    forall i :: 0 <= i < |es| ==> KeyOf(es[i].value, 0).Some?
  }

  function Key(e: Element): string
    requires KeyOf(e.value, 0).Some?
  {
    KeyOf(e.value, 0).value
  }

  ghost function KeySet(es: seq<Element>): set<string>
    requires Keyed(es)
  {
    set i | 0 <= i < |es| :: Key(es[i])
  }

  lemma AmongIsKey(e: Element, es: seq<Element>)
    requires Keyed(es) && KeyOf(e.value, 0).Some?
    ensures Among(e.value, es) <==> Key(e) in KeySet(es)
  {
    hide Equal, KeyOf;
    forall i | 0 <= i < |es|
      ensures Equal(e.value, es[i].value) <==> Key(e) == Key(es[i])
    {
      KeysDecideEquality(e.value, 0, es[i].value, 0);
    }
  }

  lemma KeySetAppend(es: seq<Element>, e: Element)
    requires Keyed(es) && KeyOf(e.value, 0).Some?
    ensures Keyed(es + [e]) && KeySet(es + [e]) == KeySet(es) + {Key(e)}
  {
    hide KeyOf;
    var all := es + [e];
    forall i | 0 <= i < |es|
      ensures Key(es[i]) in KeySet(all)
    {
      assert all[i] == es[i];
    }
    assert all[|es|] == e;
  }

  lemma {:induction false} KeySetConcat(a: seq<Element>, b: seq<Element>)
    requires Keyed(a) && Keyed(b)
    ensures Keyed(a + b) && KeySet(a + b) == KeySet(a) + KeySet(b)
  {
    hide KeyOf;
    if b == [] {
      assert a + b == a;
    } else {
      var front, last := b[..|b| - 1], b[|b| - 1];
      KeySetConcat(a, front);
      KeySetAppend(a + front, last);
      KeySetAppend(front, last);
      assert a + b == (a + front) + [last] && b == front + [last];
    }
  }

  // ----- The set and its listing --------------------------------------------------------------

  /** The elements still in the map, in the order in which they came. */
  ghost function Listing(order: seq<string>, values: map<string, Element>): seq<Element> {
    if order == [] then []
    else
      var front, last := order[..|order| - 1], order[|order| - 1];
      Listing(front, values) + if last in values then [values[last]] else []
  }

  ghost function Weight(order: seq<string>, values: map<string, Element>): int {
    if order == [] then 0
    else
      var front, last := order[..|order| - 1], order[|order| - 1];
      Weight(front, values) + if last in values then |last| + |values[last].raw| else 0
  }

  ghost predicate Distinct(order: seq<string>) {
    forall i, j :: 0 <= i < j < |order| ==> order[i] != order[j]
  }

  ghost predicate RightKeys(values: map<string, Element>) {
    forall k :: k in values ==> KeyOf(values[k].value, 0) == Some(k)
  }

  ghost predicate Consistent(order: seq<string>, values: map<string, Element>) {
    Distinct(order) && RightKeys(values) && forall k :: k in values ==> k in order
  }

  lemma {:induction false} ListingIgnores(order: seq<string>, values: map<string, Element>, more: map<string, Element>)
    requires forall k :: k in order ==> (k in values <==> k in more) && (k in values ==> values[k] == more[k])
    ensures Listing(order, values) == Listing(order, more) && Weight(order, values) == Weight(order, more)
  {
    if order != [] {
      ListingIgnores(order[..|order| - 1], values, more);
    }
  }

  lemma NoKeys()
    ensures Keyed([]) && KeySet([]) == {}
  {}

  lemma AddedKey(order: seq<string>, values: map<string, Element>, key: string, element: Element)
    requires Consistent(order, values) && (forall k :: k in order ==> k in values) && key !in values
    requires KeyOf(element.value, 0) == Some(key)
    ensures Consistent(order + [key], values[key := element])
    ensures Listing(order + [key], values[key := element]) == Listing(order, values) + [element]
    ensures Weight(order + [key], values[key := element]) == Weight(order, values) + |key| + |element.raw|
  {
    hide KeyOf;
    assert key !in order;
    ListingIgnores(order, values, values[key := element]);
    assert (order + [key])[..|order|] == order;
  }

  lemma WeightWithout(order: seq<string>, values: map<string, Element>, k: string)
    requires Distinct(order) && k in order && k in values
    ensures Weight(order, values - {k}) == Weight(order, values) - |k| - |values[k].raw|
  {
    var front, last := order[..|order| - 1], order[|order| - 1];
    if last == k {
      assert k !in front;
      ListingIgnores(front, values, values - {k});
    } else {
      assert order == front + [last];
      WeightWithout(front, values, k);
    }
  }

  class DynamicSet {
    var values: map<string, Element>
    var order: seq<string>
    var size: int

    ghost predicate Valid()
      reads this
    {
      Consistent(order, values) && size == Weight(order, values)
    }

    /** Nothing has been deleted. */
    ghost predicate Full()
      reads this
    {
      forall k :: k in order ==> k in values
    }

    ghost function Contents(): seq<Element>
      reads this
    {
      Listing(order, values)
    }

    constructor ()
      ensures Valid() && Full() && Contents() == [] && values == map[]
    {
      values, order, size := map[], [], 0;
    }

    /** The element enters at the end, unless its class is already there. */
    method Add(key: string, element: Element) returns (ok: bool)
      requires Valid() && Full() && KeyOf(element.value, 0) == Some(key)
      modifies this
      ensures Valid() && Full()
      ensures ok ==> Contents() == if key in old(values) then old(Contents()) else old(Contents()) + [element]
      ensures ok ==> values.Keys == old(values).Keys + {key}
      ensures !ok ==> unchanged(this)
      ensures !ok ==> key !in values && (|values| == MAX_PARTS || size + |key| + |element.raw| > MAX_STORAGE)
    {
      hide KeyOf, Consistent, Listing, Weight;
      if key in values {
        return true;
      }
      if |values| == MAX_PARTS {
        return false;
      }
      var added := |key| + |element.raw|;
      if added > MAX_STORAGE - size {
        return false;
      }
      AddedKey(order, values, key, element);
      values := values[key := element];
      order := order + [key];
      size := size + added;
      ok := true;
    }

    method Delete(key: string)
      requires Valid() && key in values
      modifies this
      ensures Valid() && order == old(order) && values == old(values) - {key}
    {
      hide KeyOf, Weight, Listing, Distinct;
      WeightWithout(order, values, key);
      size := size - (|key| + |values[key].raw|);
      values := values - {key};
    }

    /** Deletes the keys that the other set does not have, in the arbitrary order of the map. */
    method KeepCommon(current: DynamicSet)
      requires Valid() && current != this
      modifies this
      ensures Valid() && order == old(order)
      ensures values == map k | k in old(values) && k in current.values :: old(values)[k]
    {
      hide *;
      var remaining := values.Keys;
      while remaining != {}
        invariant Valid() && order == old(order) && remaining <= old(values).Keys
        invariant forall k :: k in values <==> k in old(values) && (k in remaining || k in current.values)
        invariant forall k :: k in values ==> values[k] == old(values)[k]
        decreases remaining
      {
        var key :| key in remaining;
        if key !in current.values {
          Delete(key);
        }
        remaining := remaining - {key};
      }
    }

    /** Deletes the keys of the other set, in the arbitrary order of that set's map. */
    method RemoveAll(current: DynamicSet)
      requires Valid() && current != this
      modifies this
      ensures Valid() && order == old(order)
      ensures values == map k | k in old(values) && k !in current.values :: old(values)[k]
    {
      hide *;
      var remaining := current.values.Keys;
      while remaining != {}
        invariant Valid() && order == old(order) && remaining <= current.values.Keys
        invariant forall k :: k in values <==> k in old(values) && (k in remaining || k !in current.values)
        invariant forall k :: k in values ==> values[k] == old(values)[k]
        decreases remaining
      {
        var key :| key in remaining;
        if key in values {
          Delete(key);
        }
        remaining := remaining - {key};
      }
    }
  }

  // ----- What the listings are --------------------------------------------------------------------

  /** One more element, whose key tells whether its class is there. */
  lemma FirstsStep(es: seq<Element>, e: Element)
    requires Keyed(es) && KeyOf(e.value, 0).Some?
    ensures Firsts(es + [e]) == if Key(e) in KeySet(es) then Firsts(es) else Firsts(es) + [e]
  {
    hide KeyOf, KeySet, Among;
    AmongIsKey(e, es);
    assert (es + [e])[..|es|] == es;
  }

  lemma {:induction false} FirstsKeys(es: seq<Element>)
    requires Keyed(es)
    ensures Keyed(Firsts(es)) && KeySet(Firsts(es)) == KeySet(es)
  {
    if es != [] {
      hide KeyOf, KeySet, Firsts;
      var front, last := es[..|es| - 1], es[|es| - 1];
      assert es == front + [last];
      FirstsKeys(front);
      FirstsStep(front, last);
      KeySetAppend(front, last);
      if Key(last) !in KeySet(front) {
        KeySetAppend(Firsts(front), last);
      }
    }
  }

  /** Dropping the repetitions of what is added changes nothing. */
  lemma {:induction false} FirstsOfFirsts(a: seq<Element>, b: seq<Element>)
    requires Keyed(a) && Keyed(b)
    ensures Keyed(Firsts(b)) && Firsts(a + Firsts(b)) == Firsts(a + b)
  {
    FirstsKeys(b);
    if b != [] {
      hide KeyOf, KeySet, Firsts;
      var front, last := b[..|b| - 1], b[|b| - 1];
      assert b == front + [last] && a + b == (a + front) + [last];
      FirstsOfFirsts(a, front);
      FirstsStep(front, last);
      FirstsKeys(front);
      KeySetConcat(a, front);
      KeySetConcat(a, Firsts(front));
      FirstsStep(a + front, last);
      if Key(last) !in KeySet(front) {
        assert a + Firsts(b) == (a + Firsts(front)) + [last];
        FirstsStep(a + Firsts(front), last);
      }
    }
  }

  /** Deleting keys from the map selects from the listing. */
  lemma {:induction false} ListingSelects(order: seq<string>, values: map<string, Element>, kept: map<string, Element>,
                                          others: seq<Element>, among: bool)
    requires RightKeys(values) && Keyed(others)
    requires kept == map k | k in values && (k in KeySet(others)) == among :: values[k]
    ensures Listing(order, kept) == Select(Listing(order, values), others, among)
  {
    hide KeyOf, KeySet, Among;
    if order != [] {
      var front, last := order[..|order| - 1], order[|order| - 1];
      ListingSelects(front, values, kept, others, among);
      if last in values {
        AmongIsKey(values[last], others);
        var before := Listing(front, values);
        assert (before + [values[last]])[..|before|] == before;
      } else {
        assert Listing(order, values) == Listing(front, values) && Listing(order, kept) == Listing(front, kept);
      }
    }
  }

  // ----- Texts ------------------------------------------------------------------------------------

  /** The elements' compact texts, separated by commas. */
  function Joined(es: seq<Element>): string {
    if es == [] then ""
    else if |es| == 1 then es[0].compact
    else Joined(es[..|es| - 1]) + "," + es[|es| - 1].compact
  }

  /** The text of one list after another is one text after the other, with a comma between them. */
  lemma {:induction false} JoinedConcat(a: seq<Element>, b: seq<Element>)
    requires a != [] && b != []
    ensures Joined(a + b) == Joined(a) + "," + Joined(b)
  {
    var last := |b| - 1;
    assert (a + b)[..|a + b| - 1] == a + b[..last];
    if last == 0 {
      assert a + [] == a;
    } else {
      JoinedConcat(a, b[..last]);
    }
  }

  lemma JoinedOne(e: Element)
    ensures Joined([e]) == e.compact && Joined([]) == ""
  {}

  lemma {:induction false} JoinedIsEmpty(es: seq<Element>)
    ensures Joined(es) == "" <==> es == []
  {}

  /** appendArrayElement */
  method AppendElement(buffer: string, e: Element, ghost es: seq<Element>) returns (r: Option<string>)
    requires buffer == "[" + Joined(es)
    ensures r.Some? ==> r.value == "[" + Joined(es + [e]) && |r.value| < MAX_BYTES
    ensures r.None? ==> |"[" + Joined(es + [e])| >= MAX_BYTES
  {
    JoinedIsEmpty(es);
    assert (es + [e])[..|es|] == es;
    var extra := |e.compact|;
    if |buffer| > 1 {
      extra := extra + 1;
    }
    if extra > MAX_BYTES - |buffer| - 1 {
      return None;
    }
    var text := buffer;
    if |buffer| > 1 {
      text := text + ",";
    }
    r := Some(text + e.compact);
  }

  method WriteSet(s: DynamicSet) returns (r: Result<string, SetError>)
    requires s.Valid()
    ensures r.Err? ==> |"[" + Joined(s.Contents()) + "]"| > MAX_BYTES
    ensures r.Ok? ==> r.value == "[" + Joined(s.Contents()) + "]"
  {
    hide Joined;
    NothingJoined();
    var encoded, i := "[", 0;
    while i < |s.order|
      invariant 0 <= i <= |s.order|
      invariant encoded == "[" + Joined(Listing(s.order[..i], s.values))
    {
      var key := s.order[i];
      assert s.order[..i + 1][..i] == s.order[..i];
      if key in s.values {
        JoinedGrows(s.order, s.values, i + 1);
        var appended := AppendElement(encoded, s.values[key], Listing(s.order[..i], s.values));
        if appended.None? {
          return Err(ArrayTooLarge);
        }
        encoded := appended.value;
      } else {
        assert Listing(s.order[..i + 1], s.values) == Listing(s.order[..i], s.values);
      }
      i := i + 1;
    }
    assert s.order[..i] == s.order;
    r := Ok(encoded + "]");
  }

  lemma {:induction false} JoinedGrows(order: seq<string>, values: map<string, Element>, i: nat)
    requires i <= |order|
    ensures |Joined(Listing(order[..i], values))| <= |Joined(Listing(order, values))|
    decreases |order|
  {
    if i < |order| {
      var front := order[..|order| - 1];
      JoinedGrows(front, values, i);
      assert front[..i] == order[..i];
      JoinedMore(Listing(front, values), order, values);
    } else {
      assert order[..i] == order;
    }
  }

  lemma JoinedMore(listed: seq<Element>, order: seq<string>, values: map<string, Element>)
    requires order != [] && listed == Listing(order[..|order| - 1], values)
    ensures |Joined(listed)| <= |Joined(Listing(order, values))|
  {
    var last := order[|order| - 1];
    if last in values {
      assert (listed + [values[last]])[..|listed|] == listed;
    } else {
      assert Listing(order, values) == listed;
    }
  }

  lemma NothingJoined()
    ensures Joined([]) == ""
  {}

  // ----- What fits into the limits ------------------------------------------------------------

  /** What the keys and texts of the elements take. */
  ghost function Storage(es: seq<Element>): nat {
    if es == [] then 0
    else
      var last := es[|es| - 1];
      Storage(es[..|es| - 1]) + |last.raw| + if KeyOf(last.value, 0).Some? then |KeyOf(last.value, 0).value| else 0
  }

  /** The work for reading the elements. */
  ghost function ReadCost(es: seq<Element>): nat {
    if es == [] then 0 else ReadCost(es[..|es| - 1]) + ElementCost(es[|es| - 1])
  }

  /** An element that can be read: it has a key, which is not too long, and not too many values in it. */
  ghost predicate Readable(e: Element) {
    KeyOf(e.value, 0).Some? && !TooLong(e.value, 0) && Count(e.value) <= MAX_PARTS
  }

  ghost predicate AllReadable(es: seq<Element>) {
    forall i :: 0 <= i < |es| ==> Readable(es[i])
  }

  /** Elements that can be read and kept as a set with so much work. */
  ghost predicate Fits(es: seq<Element>, work: int) {
    AllReadable(es) && |es| <= MAX_PARTS && Storage(es) <= MAX_STORAGE && ReadCost(es) <= work
  }

  lemma {:induction false} StorageConcat(a: seq<Element>, b: seq<Element>)
    ensures Storage(a + b) == Storage(a) + Storage(b)
  {
    hide KeyOf;
    if b == [] {
      assert a + b == a;
    } else {
      assert (a + b)[..|a + b| - 1] == a + b[..|b| - 1];
      StorageConcat(a, b[..|b| - 1]);
    }
  }

  lemma {:induction false} CostGrows(es: seq<Element>, i: nat)
    requires i <= |es|
    ensures ReadCost(es[..i]) <= ReadCost(es) && Storage(es[..i]) <= Storage(es)
    decreases |es|
  {
    hide KeyOf, ElementCost;
    if i < |es| {
      var front := es[..|es| - 1];
      CostGrows(front, i);
      assert front[..i] == es[..i];
    } else {
      assert es[..i] == es;
    }
  }

  lemma CostStep(es: seq<Element>, i: nat)
    requires i < |es|
    ensures ReadCost(es[..i + 1]) == ReadCost(es[..i]) + ElementCost(es[i])
  {
    hide ElementCost;
    assert es[..i + 1][..i] == es[..i];
  }

  lemma {:induction false} FirstsAreFewer(es: seq<Element>)
    ensures Storage(Firsts(es)) <= Storage(es) && |Firsts(es)| <= |es|
  {
    hide KeyOf, Among;
    if es != [] {
      var front, last := es[..|es| - 1], es[|es| - 1];
      FirstsAreFewer(front);
      assert (Firsts(front) + [last])[..|Firsts(front)|] == Firsts(front);
    }
  }

  lemma {:induction false} SelectAreFewer(es: seq<Element>, others: seq<Element>, among: bool)
    ensures Storage(Select(es, others, among)) <= Storage(es) && |Select(es, others, among)| <= |es|
  {
    hide KeyOf, Among;
    if es != [] {
      var front, last := es[..|es| - 1], es[|es| - 1];
      SelectAreFewer(front, others, among);
      var chosen := Select(front, others, among);
      assert (chosen + [last])[..|chosen|] == chosen;
      assert chosen + [] == chosen;
    }
  }

  lemma {:induction false} WeightIsStorage(order: seq<string>, values: map<string, Element>)
    requires RightKeys(values)
    ensures Weight(order, values) == Storage(Listing(order, values))
  {
    hide KeyOf, RightKeys, Storage;
    if order == [] {
      NoStorage();
    } else {
      var front, last := order[..|order| - 1], order[|order| - 1];
      WeightIsStorage(front, values);
      var listed := Listing(front, values);
      if last in values {
        RightKey(values, last);
        StorageOfOne(listed, values[last]);
      } else {
        assert Listing(order, values) == listed;
      }
    }
  }

  lemma NoStorage()
    ensures Storage([]) == 0
  {}

  lemma RightKey(values: map<string, Element>, key: string)
    requires RightKeys(values) && key in values
    ensures KeyOf(values[key].value, 0) == Some(key)
  {}

  lemma {:induction false} KeysAreFewer(es: seq<Element>)
    requires Keyed(es)
    ensures |KeySet(es)| <= |es|
  {
    hide KeyOf;
    if es != [] {
      var front, last := es[..|es| - 1], es[|es| - 1];
      hide KeySet;
      assert es == front + [last];
      KeysAreFewer(front);
      KeySetAppend(front, last);
    } else {
      NoKeys();
    }
  }

  /** A set takes no more than the elements that it was read from. */
  lemma SetIsSmaller(s: DynamicSet, es: seq<Element>)
    requires FirstsIn(s, es)
    ensures |s.values| <= |es| && s.size <= Storage(es)
  {
    hide KeyOf, Weight, Listing, Storage, Firsts, KeySet;
    assert |s.values| == |s.values.Keys|;
    KeysAreFewer(es);
    WeightIsStorage(s.order, s.values);
    FirstsAreFewer(es);
  }

  // ----- Reading an array ---------------------------------------------------------------------

  datatype SetError = BadCall | ArrayTooLarge | SetTooLarge | NoKey(reason: KeyError)

  /** An argument: not a text, or a text with its length and the elements of the array it holds, if it holds one. */
  datatype Argument = Other | Text(length: nat, elements: Option<seq<Element>>)

  predicate IsArray(a: Argument) {
    a.Text? && a.elements.Some?
  }

  function Elements(a: Argument): seq<Element> {
    if IsArray(a) then a.elements.value else []
  }

  ghost predicate FirstsIn(s: DynamicSet, es: seq<Element>)
    reads s
  {
    s.Valid() && s.Full() && Keyed(es) && s.Contents() == Firsts(es) && s.values.Keys == KeySet(es)
  }

  /** The class of e enters the set if none of es has it. */
  method AddFirst(s: DynamicSet, key: string, e: Element, ghost es: seq<Element>) returns (ok: bool)
    requires FirstsIn(s, es) && KeyOf(e.value, 0) == Some(key)
    modifies s
    ensures ok ==> FirstsIn(s, es + [e])
    ensures !ok ==> |es| >= MAX_PARTS || Storage(es + [e]) > MAX_STORAGE
  {
    hide KeyOf, Consistent, Listing, Weight, KeySet, Firsts, Equal, Among, Storage;
    SetIsSmaller(s, es);
    StorageOfOne(es, e);
    ok := s.Add(key, e);
    KeySetAppend(es, e);
    FirstsStep(es, e);
  }

  lemma StorageOfOne(es: seq<Element>, e: Element)
    requires KeyOf(e.value, 0).Some?
    ensures Storage(es + [e]) == Storage(es) + |e.raw| + |KeyOf(e.value, 0).value|
  {
    hide KeyOf;
    assert (es + [e])[..|es|] == es;
  }

  method ReadElements(elements: seq<Element>, budget: Budget) returns (r: Result<DynamicSet, SetError>)
    modifies budget
    ensures r.Ok? ==> fresh(r.value) && FirstsIn(r.value, elements)
    ensures r.Ok? ==> budget.work == old(budget.work) - ReadCost(elements)
    ensures Fits(elements, old(budget.work)) ==> r.Ok?
    ensures r.Err? && r.error.NoKey? && r.error.reason in {NumberRefused, Duplicate, Nesting} ==> !Keyed(elements)
  {
    hide Consistent, Listing, Weight, KeySet, Equal, Among, ElementCost, Readable, Storage;
    var current := new DynamicSet();
    NoKeys();
    assert elements[..0] == [] && Firsts([]) == [] && ReadCost([]) == 0;
    var i := 0;
    while i < |elements|
      invariant 0 <= i <= |elements| && fresh(current)
      invariant FirstsIn(current, elements[..i]) && budget.work == old(budget.work) - ReadCost(elements[..i])
    {
      hide KeyOf, FirstsIn, ReadCost, Justified;
      CostStep(elements, i);
      CostGrows(elements, i + 1);
      assert elements[..i] + [elements[i]] == elements[..i + 1];
      ghost var work := budget.work;
      var key := SetValueKey(elements[i], budget);
      if key.Err? {
        NotReadable(key.error, elements[i], work);
        return Err(NoKey(key.error));
      }
      var ok := AddFirst(current, key.value, elements[i], elements[..i]);
      if !ok {
        return Err(SetTooLarge);
      }
      i := i + 1;
    }
    assert elements[..i] == elements;
    r := Ok(current);
  }

  lemma NotReadable(error: KeyError, e: Element, work: int)
    requires Justified(error, e.value, 0, work, ElementCost(e), MAX_PARTS, Count(e.value))
    ensures Readable(e) ==> work < ElementCost(e)
    ensures error in {NumberRefused, Duplicate, Nesting} ==> KeyOf(e.value, 0).None?
  {
    hide KeyOf, ElementCost, Count;
  }

  /** The work for one argument, and what can be read of it with so much work. */
  ghost function ArgumentCost(a: Argument): nat {
    (if a.Text? then a.length else 0) + ReadCost(Elements(a))
  }

  ghost predicate ArgumentFits(a: Argument, work: int) {
    (a.Text? ==> a.length <= MAX_BYTES) && Fits(Elements(a), work - if a.Text? then a.length else 0)
  }

  method ReadDynamicSet(a: Argument, budget: Budget) returns (r: Result<Option<DynamicSet>, SetError>)
    modifies budget
    ensures r == Ok(None) ==> !(a.Text? && a.elements.Some?)
    ensures r.Ok? && r.value.Some? ==> IsArray(a) && fresh(r.value.value) && FirstsIn(r.value.value, Elements(a))
    ensures r.Ok? && r.value.Some? ==> budget.work == old(budget.work) - ArgumentCost(a)
    ensures ArgumentFits(a, old(budget.work)) ==> r.Ok? && (r.value.Some? <==> IsArray(a))
    ensures r.Err? && r.error.NoKey? && r.error.reason in {NumberRefused, Duplicate, Nesting} ==> !Keyed(Elements(a))
  {
    if a.Text? {
      budget.work := budget.work - a.length;
      if budget.work < 0 {
        return Err(NoKey(Work));
      }
      if a.length > MAX_BYTES {
        return Err(ArrayTooLarge);
      }
    }
    if !IsArray(a) {
      return Ok(None);
    }
    if |a.elements.value| > MAX_PARTS {
      return Err(ArrayTooLarge);
    }
    hide FirstsIn, Keyed, ReadCost, Storage, AllReadable;
    var current := ReadElements(a.elements.value, budget);
    r := if current.Ok? then Ok(Some(current.value)) else Err(current.error);
  }

  // ----- The operations ----------------------------------------------------------------------------

  ghost function Arrays(args: seq<Argument>): (arrays: seq<seq<Element>>)
    ensures |arrays| == |args| && forall i :: 0 <= i < |args| ==> arrays[i] == Elements(args[i])
  {
    seq(|args|, i requires 0 <= i < |args| => Elements(args[i]))
  }

  ghost predicate AllKeyed(arrays: seq<seq<Element>>) {
    forall i :: 0 <= i < |arrays| ==> Keyed(arrays[i])
  }

  /** set_union: every key of the other set, in its order. */
  method Unite(result: DynamicSet, order: seq<string>, values: map<string, Element>, ghost a: seq<Element>,
               ghost fs: seq<Element>)
    returns (ok: bool)
    requires FirstsIn(result, a) && |fs| == |order|
    requires forall k :: 0 <= k < |order| ==>
               order[k] in values && fs[k] == values[order[k]] && KeyOf(fs[k].value, 0) == Some(order[k])
    modifies result
    ensures ok ==> FirstsIn(result, a + fs)
    ensures !ok ==> |a + fs| > MAX_PARTS || Storage(a + fs) > MAX_STORAGE
  {
    hide FirstsIn, Storage, KeyOf;
    assert a + [] == a;
    var i := 0;
    while i < |order|
      invariant 0 <= i <= |order|
      invariant FirstsIn(result, a + fs[..i])
    {
      assert (a + fs[..i]) + [fs[i]] == a + fs[..i + 1];
      assert (a + fs)[..|a| + i + 1] == a + fs[..i + 1];
      CostGrows(a + fs, |a| + i + 1);
      ok := AddFirst(result, order[i], values[order[i]], a + fs[..i]);
      if !ok {
        return;
      }
      i := i + 1;
    }
    assert fs[..i] == fs;
    ok := true;
  }

  lemma Repetitions(s: DynamicSet, a: seq<Element>, b: seq<Element>)
    requires FirstsIn(s, a + Firsts(b)) && Keyed(a) && Keyed(b)
    ensures FirstsIn(s, a + b)
  {
    FirstsOfFirsts(a, b);
    FirstsKeys(b);
    hide KeySet, KeyOf, Firsts, Keyed;
    KeySetConcat(a, b);
    KeySetConcat(a, Firsts(b));
  }

  lemma {:induction false} OrderIsListed(order: seq<string>, values: map<string, Element>)
    requires forall k :: k in order ==> k in values
    ensures |Listing(order, values)| == |order|
    ensures forall i :: 0 <= i < |order| ==> Listing(order, values)[i] == values[order[i]]
  {
    if order != [] {
      var n := |order| - 1;
      OrderIsListed(order[..n], values);
      assert order[n] in values;
      assert Listing(order, values) == Listing(order[..n], values) + [values[order[n]]];
    }
  }

  lemma FullIsListed(s: DynamicSet)
    requires s.Valid() && s.Full()
    ensures |s.Contents()| == |s.order|
    ensures forall k :: 0 <= k < |s.order| ==> s.order[k] in s.values && s.Contents()[k] == s.values[s.order[k]]
    ensures forall k :: 0 <= k < |s.order| ==> KeyOf(s.Contents()[k].value, 0) == Some(s.order[k])
  {
    hide Listing, KeyOf;
    OrderIsListed(s.order, s.values);
  }

  lemma {:induction false} FoldKeyed(op: Operation, arrays: seq<seq<Element>>)
    requires arrays != [] && AllKeyed(arrays)
    ensures Keyed(Fold(op, arrays))
  {
    hide KeyOf, Firsts, Select;
    if |arrays| == 1 {
      FirstsKeys(arrays[0]);
    } else {
      var front, last := arrays[..|arrays| - 1], arrays[|arrays| - 1];
      FoldKeyed(op, front);
      if op == Union {
        KeySetConcat(Fold(op, front), last);
        FirstsKeys(Fold(op, front) + last);
      } else {
        SelectKeys(Fold(op, front), last, op == Intersect);
      }
    }
  }

  lemma {:induction false} SelectKeys(es: seq<Element>, others: seq<Element>, among: bool)
    requires Keyed(es) && Keyed(others)
    ensures Keyed(Select(es, others, among))
    ensures forall k :: k in KeySet(Select(es, others, among)) <==> k in KeySet(es) && (k in KeySet(others)) == among
  {
    hide KeyOf, KeySet, Among;
    if es == [] {
      NoKeys();
    } else {
      var front, last := es[..|es| - 1], es[|es| - 1];
      assert es == front + [last];
      SelectKeys(front, others, among);
      KeySetAppend(front, last);
      AmongIsKey(last, others);
      if Among(last.value, others) == among {
        KeySetAppend(Select(front, others, among), last);
      } else {
        assert Select(es, others, among) == Select(front, others, among);
      }
    }
  }

  /** The set holds the list, and can take more elements when the operation adds any. */
  ghost predicate Holding(op: Operation, s: DynamicSet, es: seq<Element>)
    reads s
  {
    s.Valid() && s.Contents() == es && (op == Union ==> FirstsIn(s, es))
  }

  lemma FirstsAreFirsts(s: DynamicSet, es: seq<Element>)
    requires FirstsIn(s, es)
    ensures FirstsIn(s, Firsts(es))
  {
    FirstsOfFirsts([], es);
    FirstsKeys(es);
    assert [] + Firsts(es) == Firsts(es) && [] + es == es;
  }

  method Apply(op: Operation, result: DynamicSet, current: DynamicSet, ghost a: seq<Element>, ghost b: seq<Element>)
    returns (ok: bool)
    requires result != current && Holding(op, result, a) && FirstsIn(current, b)
    modifies result
    ensures ok ==> Holding(op, result, Combine(op, a, b))
    ensures !ok ==> |a + b| > MAX_PARTS || Storage(a + b) > MAX_STORAGE
  {
    hide KeyOf, KeySet, Listing, Weight, Firsts, Select, Equal, Keyed, Storage;
    ghost var order, values := result.order, result.values;
    ok := true;
    match op {
      case Union =>
        FullIsListed(current);
        FirstsAreFewer(b);
        StorageConcat(a, b);
        StorageConcat(a, Firsts(b));
        ok := Unite(result, current.order, current.values, a, Firsts(b));
        if ok {
          Repetitions(result, a, b);
          FirstsAreFirsts(result, a + b);
        }
      case Intersect =>
        result.KeepCommon(current);
        ListingSelects(order, values, result.values, b, true);
      case Difference =>
        result.RemoveAll(current);
        ListingSelects(order, values, result.values, b, false);
    }
  }

  ghost predicate AllArrays(args: seq<Argument>) {
    forall j :: 0 <= j < |args| ==> IsArray(args[j]) && Keyed(Elements(args[j]))
  }

  /** The elements of all arguments. */
  ghost function Together(arrays: seq<seq<Element>>): seq<Element> {
    if arrays == [] then [] else Together(arrays[..|arrays| - 1]) + arrays[|arrays| - 1]
  }

  ghost function TotalCost(args: seq<Argument>): nat {
    if args == [] then 0 else TotalCost(args[..|args| - 1]) + ArgumentCost(args[|args| - 1])
  }

  /** Arguments that stay within all limits: of each text, of the set that they make up, and of the work. */
  ghost predicate Within(args: seq<Argument>, work: int) {
    (forall i :: 0 <= i < |args| ==>
       (args[i].Text? ==> args[i].length <= MAX_BYTES) && AllReadable(Elements(args[i]))) &&
    TotalCost(args) <= work && |Together(Arrays(args))| <= MAX_PARTS && Storage(Together(Arrays(args))) <= MAX_STORAGE
  }

  lemma {:induction false} TogetherHas(arrays: seq<seq<Element>>, i: nat)
    requires i < |arrays|
    ensures |Together(arrays[..i + 1])| <= |Together(arrays)|
    ensures Storage(Together(arrays[..i + 1])) <= Storage(Together(arrays))
    ensures |arrays[i]| <= |Together(arrays)| && Storage(arrays[i]) <= Storage(Together(arrays))
    ensures Together(arrays[..i + 1]) == Together(arrays[..i]) + arrays[i]
    decreases |arrays|
  {
    hide Storage;
    var last := |arrays| - 1;
    assert arrays[..i + 1][..i] == arrays[..i];
    StorageConcat(Together(arrays[..last]), arrays[last]);
    if i < last {
      TogetherHas(arrays[..last], i);
      assert arrays[..last][..i + 1] == arrays[..i + 1];
    } else {
      assert arrays[..i + 1] == arrays;
    }
  }

  lemma {:induction false} TotalCostHas(args: seq<Argument>, i: nat)
    requires i < |args|
    ensures TotalCost(args[..i + 1]) == TotalCost(args[..i]) + ArgumentCost(args[i]) <= TotalCost(args)
    decreases |args|
  {
    hide ArgumentCost;
    var last := |args| - 1;
    assert args[..i + 1][..i] == args[..i];
    if i < last {
      TotalCostHas(args[..last], i);
      assert args[..last][..i + 1] == args[..i + 1];
    } else {
      assert args[..i + 1] == args;
    }
  }

  lemma WithinArgument(args: seq<Argument>, i: nat, work: int)
    requires i < |args|
    ensures Within(args, work) ==> ArgumentFits(args[i], work - TotalCost(args[..i]))
    ensures TotalCost(args[..i + 1]) == TotalCost(args[..i]) + ArgumentCost(args[i]) && TotalCost(args[..0]) == 0
  {
    hide TotalCost, Together, Storage, ReadCost, AllReadable, ArgumentCost, ArgumentFits, Within;
    TotalCostHas(args, i);
    NoCost();
    assert args[..0] == [];
    if Within(args, work) {
      TogetherHas(Arrays(args), i);
      WithinParts(args, i, work);
      FitsAlone(args[i], work - TotalCost(args[..i]));
    }
  }

  lemma WithinParts(args: seq<Argument>, i: nat, work: int)
    requires Within(args, work) && i < |args|
    ensures (args[i].Text? ==> args[i].length <= MAX_BYTES) && AllReadable(Elements(args[i])) && TotalCost(args) <= work
    ensures |Together(Arrays(args))| <= MAX_PARTS && Storage(Together(Arrays(args))) <= MAX_STORAGE
  {
    hide TotalCost, Together, Storage, AllReadable, Arrays;
  }

  lemma FitsAlone(a: Argument, work: int)
    requires (a.Text? ==> a.length <= MAX_BYTES) && AllReadable(Elements(a)) && ArgumentCost(a) <= work
    requires |Elements(a)| <= MAX_PARTS && Storage(Elements(a)) <= MAX_STORAGE
    ensures ArgumentFits(a, work)
  {
    hide Storage, ReadCost, AllReadable;
  }

  lemma NoCost()
    ensures TotalCost([]) == 0
  {}

  lemma {:induction false} FoldIsSmaller(op: Operation, arrays: seq<seq<Element>>)
    requires arrays != []
    ensures |Fold(op, arrays)| <= |Together(arrays)| && Storage(Fold(op, arrays)) <= Storage(Together(arrays))
  {
    hide Storage, Firsts, Select;
    var last := |arrays| - 1;
    StorageConcat(Together(arrays[..last]), arrays[last]);
    if last == 0 {
      FirstsAreFewer(arrays[0]);
      NothingTogether(arrays);
    } else {
      FoldIsSmaller(op, arrays[..last]);
      var folded := Fold(op, arrays[..last]);
      StorageConcat(folded, arrays[last]);
      FirstsAreFewer(folded + arrays[last]);
      SelectAreFewer(folded, arrays[last], op == Intersect);
    }
  }

  lemma NothingTogether(arrays: seq<seq<Element>>)
    requires |arrays| == 1
    ensures Together(arrays) == arrays[0]
  {
    assert Together(arrays[..0]) == [];
    assert [] + arrays[0] == arrays[0];
  }

  lemma FoldFits(op: Operation, args: seq<Argument>, i: nat, work: int)
    requires 0 < i < |args| && Within(args, work)
    ensures var all := Fold(op, Arrays(args)[..i]) + Arrays(args)[i];
            |all| <= MAX_PARTS && Storage(all) <= MAX_STORAGE
  {
    var arrays := Arrays(args);
    TogetherHas(arrays, i);
    FoldIsSmaller(op, arrays[..i]);
    hide Storage, Together, Fold;
    StorageConcat(Fold(op, arrays[..i]), arrays[i]);
    StorageConcat(Together(arrays[..i]), arrays[i]);
  }

  method FoldArrays(op: Operation, args: seq<Argument>, budget: Budget)
    returns (r: Result<Option<DynamicSet>, SetError>)
    requires args != []
    modifies budget
    ensures r == Ok(None) ==> exists i :: 0 <= i < |args| && !(args[i].Text? && args[i].elements.Some?)
    ensures r.Ok? && r.value.Some? ==>
              fresh(r.value.value) && AllArrays(args) && Holding(op, r.value.value, Fold(op, Arrays(args)))
    ensures Within(args, old(budget.work)) ==> r.Ok?
  {
    hide *;
    ghost var arrays, start := Arrays(args), budget.work;
    WithinArgument(args, 0, start);
    r := ReadDynamicSet(args[0], budget);
    if r.Err? || r.value.None? {
      return;
    }
    var result := r.value.value;
    StartHolding(op, result, arrays[0]);
    assert arrays[..1] == [arrays[0]];
    var i := 1;
    while i < |args|
      invariant 1 <= i <= |args| && fresh(result)
      invariant forall j :: 0 <= j < i ==> IsArray(args[j]) && Keyed(arrays[j])
      invariant Holding(op, result, Fold(op, arrays[..i])) && budget.work == start - TotalCost(args[..i])
    {
      WithinArgument(args, i, start);
      r := ReadDynamicSet(args[i], budget);
      if r.Err? || r.value.None? {
        return;
      }
      FirstsAreKeyed(r.value.value, arrays[i]);
      var ok := Apply(op, result, r.value.value, Fold(op, arrays[..i]), arrays[i]);
      if !ok {
        if Within(args, start) {
          FoldFits(op, args, i, start);
        }
        return Err(SetTooLarge);
      }
      FoldStep(op, arrays, i);
      i := i + 1;
    }
    assert arrays[..i] == arrays;
    AllArraysRead(args, arrays);
    r := Ok(Some(result));
  }

  lemma FirstsAreKeyed(s: DynamicSet, es: seq<Element>)
    requires FirstsIn(s, es)
    ensures Keyed(es)
  {}

  lemma AllArraysRead(args: seq<Argument>, arrays: seq<seq<Element>>)
    requires arrays == Arrays(args) && forall j :: 0 <= j < |args| ==> IsArray(args[j]) && Keyed(arrays[j])
    ensures AllArrays(args)
  {}

  /** set_union, set_intersect and set_difference: null when an argument is not an array. */
  method KqlSetOperation(op: Operation, args: seq<Argument>) returns (r: Result<Option<string>, SetError>)
    ensures !(2 <= |args| <= 64) ==> r == Err(BadCall)
    ensures r == Ok(None) ==> exists i :: 0 <= i < |args| && !(args[i].Text? && args[i].elements.Some?)
    ensures r.Ok? && r.value.Some? ==>
              args != [] && AllArrays(args) && r.value.value == "[" + Joined(Fold(op, Arrays(args))) + "]"
    ensures 2 <= |args| <= 64 && Within(args, 67108864) && |Joined(Fold(op, Arrays(args)))| <= 4194302 ==> r.Ok?
  {
    if |args| < 2 || |args| > 64 {
      return Err(BadCall);
    }
    hide Joined, Fold, Arrays, FirstsIn, AllArrays, Within;
    var budget := new Budget(MAX_WORK, MAX_PARTS);
    var folded := FoldArrays(op, args, budget);
    if folded.Err? {
      return Err(folded.error);
    }
    if folded.value.None? {
      return Ok(None);
    }
    var text := WriteSet(folded.value.value);
    r := if text.Ok? then Ok(Some(text.value)) else Err(text.error);
  }

  lemma StartHolding(op: Operation, s: DynamicSet, es: seq<Element>)
    requires FirstsIn(s, es)
    ensures Holding(op, s, Fold(op, [es])) && Keyed(es)
  {
    FirstsAreFirsts(s, es);
  }

  lemma FoldStep(op: Operation, arrays: seq<seq<Element>>, i: nat)
    requires 1 <= i < |arrays|
    ensures Fold(op, arrays[..i + 1]) == Combine(op, Fold(op, arrays[..i]), arrays[i])
  {
    hide Combine, Firsts;
    assert arrays[..i + 1][..i] == arrays[..i];
  }

  // ----- What the operations mean -------------------------------------------------------------------

  /** The class of the element at k does not come up before. */
  ghost predicate New(es: seq<Element>, k: nat)
    requires k < |es|
  {
    forall l :: 0 <= l < k ==> !Equal(es[k].value, es[l].value)
  }

  /** The positions of the elements that are listed: ascending, and where a class comes up for the first time. */
  ghost predicate FirstPlaces(es: seq<Element>, places: seq<nat>) {
    Ascends(places, |es|) && forall k: nat :: k < |es| ==> (k in places <==> New(es, k))
  }

  ghost predicate Ascends(places: seq<nat>, n: nat) {
    (forall i :: 0 <= i < |places| ==> places[i] < n) && forall i, j :: 0 <= i < j < |places| ==> places[i] < places[j]
  }

  /** A list is given by the elements at these positions. */
  ghost predicate At(es: seq<Element>, places: seq<nat>, listed: seq<Element>) {
    |listed| == |places| && forall i :: 0 <= i < |places| ==> places[i] < |es| && listed[i] == es[places[i]]
  }

  lemma NewInFront(es: seq<Element>, last: nat)
    requires last + 1 == |es|
    ensures forall k: nat :: k < last ==> (New(es[..last], k) <==> New(es, k))
    ensures New(es, last) <==> !Among(es[last].value, es[..last])
  {
    hide Equal;
  }

  lemma AtMore(es: seq<Element>, last: nat, places: seq<nat>, listed: seq<Element>)
    requires last + 1 == |es| && At(es[..last], places, listed) && Ascends(places, last)
    ensures At(es, places, listed) && Ascends(places, |es|)
    ensures At(es, places + [last], listed + [es[last]]) && Ascends(places + [last], |es|)
  {}

  /** What is read from one array are its first elements of each class, in the array's order. */
  lemma {:induction false} FirstsInOrder(es: seq<Element>) returns (places: seq<nat>)
    ensures FirstPlaces(es, places) && At(es, places, Firsts(es))
  {
    if es == [] {
      return [];
    }
    hide Equal, New, Among, At, Ascends;
    var last := |es| - 1;
    places := FirstsInOrder(es[..last]);
    NewInFront(es, last);
    AtMore(es, last, places, Firsts(es[..last]));
    NotYet(places, last);
    if New(es, last) {
      places := places + [last];
    }
  }

  lemma NotYet(places: seq<nat>, last: nat)
    requires Ascends(places, last)
    ensures last !in places
  {}

  /** Intersection and difference keep the order of the first argument. */
  lemma {:induction false} SelectInOrder(es: seq<Element>, others: seq<Element>, among: bool) returns (places: seq<nat>)
    ensures Ascends(places, |es|) && At(es, places, Select(es, others, among))
    ensures forall k: nat :: k < |es| ==> (k in places <==> Among(es[k].value, others) == among)
  {
    if es == [] {
      return [];
    }
    hide Among, At, Ascends;
    var last := |es| - 1;
    places := SelectInOrder(es[..last], others, among);
    assert forall k: nat :: k < last ==> es[..last][k] == es[k];
    AtMore(es, last, places, Select(es[..last], others, among));
    NotYet(places, last);
    if Among(es[last].value, others) == among {
      places := places + [last];
    } else {
      assert Select(es, others, among) == Select(es[..last], others, among);
    }
  }

  /** No two listed elements are of one class. */
  ghost predicate OncePerClass(es: seq<Element>) {
    forall i, j :: 0 <= i < j < |es| ==> !Equal(es[i].value, es[j].value)
  }

  /** Membership of a class in the result, for each operation. */
  ghost predicate Belongs(op: Operation, v: Json, arrays: seq<seq<Element>>)
    requires arrays != []
  {
    match op
    case Union => exists i :: 0 <= i < |arrays| && Among(v, arrays[i])
    case Intersect => forall i :: 0 <= i < |arrays| ==> Among(v, arrays[i])
    case Difference => Among(v, arrays[0]) && forall i :: 1 <= i < |arrays| ==> !Among(v, arrays[i])
  }

  /** The result holds the classes that the set operation asks for, and each of them once. */
  lemma {:induction false} FoldIsTheSetOperation(op: Operation, arrays: seq<seq<Element>>, e: Element)
    requires arrays != [] && AllKeyed(arrays) && KeyOf(e.value, 0).Some?
    ensures Among(e.value, Fold(op, arrays)) <==> Belongs(op, e.value, arrays)
  {
    hide KeyOf, Firsts, Select, Among, KeySet, Keyed;
    var n := |arrays| - 1;
    var front, last := arrays[..n], arrays[n];
    FoldKeyed(op, arrays);
    AmongIsKey(e, Fold(op, arrays));
    if n == 0 {
      FirstsKeys(last);
      AmongIsKey(e, last);
    } else {
      FoldIsTheSetOperation(op, front, e);
      FoldKeyed(op, front);
      AmongIsKey(e, Fold(op, front));
      AmongIsKey(e, last);
      if op == Union {
        KeySetConcat(Fold(op, front), last);
        FirstsKeys(Fold(op, front) + last);
      } else {
        SelectKeys(Fold(op, front), last, op == Intersect);
      }
      BelongsStep(op, e.value, arrays);
    }
  }

  lemma BelongsStep(op: Operation, v: Json, arrays: seq<seq<Element>>)
    requires |arrays| >= 2
    ensures Belongs(op, v, arrays) <==>
            match op
            case Union => Belongs(op, v, arrays[..|arrays| - 1]) || Among(v, arrays[|arrays| - 1])
            case Intersect => Belongs(op, v, arrays[..|arrays| - 1]) && Among(v, arrays[|arrays| - 1])
            case Difference => Belongs(op, v, arrays[..|arrays| - 1]) && !Among(v, arrays[|arrays| - 1])
  {
    hide Among;
    var n := |arrays| - 1;
    assert forall i :: 0 <= i < n ==> arrays[..n][i] == arrays[i];
  }

  /** Whatever the operation, the result lists elements of the arguments, and no class twice. */
  lemma {:induction false} FoldListsOnce(op: Operation, arrays: seq<seq<Element>>)
    requires arrays != [] && AllKeyed(arrays)
    ensures OncePerClass(Fold(op, arrays))
  {
    var n := |arrays| - 1;
    var front, last := arrays[..n], arrays[n];
    hide Equal, KeyOf;
    if n == 0 {
      FirstsOnce(last);
    } else {
      FoldKeyed(op, front);
      FoldListsOnce(op, front);
      if op == Union {
        KeySetConcat(Fold(op, front), last);
        FirstsOnce(Fold(op, front) + last);
      } else {
        SelectOnce(Fold(op, front), last, op == Intersect);
      }
    }
  }

  lemma {:induction false} FirstsOnce(es: seq<Element>)
    requires Keyed(es)
    ensures OncePerClass(Firsts(es))
  {
    if es != [] {
      hide Firsts, KeyOf, Equal, KeySet, Among;
      var front, last := es[..|es| - 1], es[|es| - 1];
      assert es == front + [last];
      FirstsOnce(front);
      FirstsStep(front, last);
      FirstsKeys(front);
      if Key(last) !in KeySet(front) {
        OnceMore(Firsts(front), last);
      }
    }
  }

  lemma OnceMore(es: seq<Element>, e: Element)
    requires Keyed(es) && KeyOf(e.value, 0).Some? && Key(e) !in KeySet(es) && OncePerClass(es)
    ensures OncePerClass(es + [e])
  {
    hide KeyOf, Equal;
    forall i | 0 <= i < |es|
      ensures !Equal(es[i].value, e.value)
    {
      KeysDecideEquality(es[i].value, 0, e.value, 0);
    }
  }

  lemma {:induction false} SelectOnce(es: seq<Element>, others: seq<Element>, among: bool)
    requires Keyed(es) && Keyed(others) && OncePerClass(es)
    ensures OncePerClass(Select(es, others, among))
  {
    if es != [] {
      hide KeyOf, Equal, KeySet, Among, OncePerClass;
      var front, last := es[..|es| - 1], es[|es| - 1];
      assert es == front + [last];
      OnceFewer(es);
      SelectOnce(front, others, among);
      SelectKeys(front, others, among);
      if Among(last.value, others) == among {
        OnceMore(Select(front, others, among), last);
      } else {
        assert Select(es, others, among) == Select(front, others, among);
      }
    }
  }

  lemma OnceFewer(es: seq<Element>)
    requires es != [] && Keyed(es) && OncePerClass(es)
    ensures OncePerClass(es[..|es| - 1]) && Key(es[|es| - 1]) !in KeySet(es[..|es| - 1])
  {
    hide KeyOf, Equal;
    var last := |es| - 1;
    forall i | 0 <= i < last
      ensures Key(es[i]) != Key(es[last])
    {
      KeysDecideEquality(es[i].value, 0, es[last].value, 0);
    }
  }

  // ----- Equality and similarity --------------------------------------------------------------------

  lemma KeySetsDecide(a: seq<Element>, b: seq<Element>)
    requires Keyed(a) && Keyed(b)
    ensures KeySet(a) == KeySet(b) <==> SameClasses(a, b)
  {
    hide KeyOf, Among;
    forall i | 0 <= i < |a|
      ensures Among(a[i].value, b) <==> Key(a[i]) in KeySet(b)
    {
      AmongIsKey(a[i], b);
    }
    forall i | 0 <= i < |b|
      ensures Among(b[i].value, a) <==> Key(b[i]) in KeySet(a)
    {
      AmongIsKey(b[i], a);
    }
  }

  /** Two sets with equally many keys, one within the other. */
  method KqlSetEquals(left: Argument, right: Argument) returns (r: Result<Option<bool>, SetError>)
    ensures r == Ok(None) ==> !(left.Text? && left.elements.Some?) || !(right.Text? && right.elements.Some?)
    ensures r.Ok? && r.value.Some? ==>
              IsArray(left) && IsArray(right) && (r.value.value <==> SameClasses(Elements(left), Elements(right)))
    ensures BothFit(left, right, 67108864) ==> r.Ok?
  {
    WorkIs();
    hide *;
    var budget := new Budget(MAX_WORK, MAX_PARTS);
    if BothFit(left, right, MAX_WORK) {
      FitApart(left, right, MAX_WORK);
    }
    var a := ReadDynamicSet(left, budget);
    if a.Err? {
      return Err(a.error);
    }
    if a.value.None? {
      return Ok(None);
    }
    var b := ReadDynamicSet(right, budget);
    if b.Err? {
      return Err(b.error);
    }
    if b.value.None? {
      return Ok(None);
    }
    FirstsHaveKeys(a.value.value, Elements(left));
    FirstsHaveKeys(b.value.value, Elements(right));
    KeySetsDecide(Elements(left), Elements(right));
    var leftKeys, rightKeys := a.value.value.values.Keys, b.value.value.values.Keys;
    if |leftKeys| != |rightKeys| {
      return Ok(Some(false));
    }
    var remaining := leftKeys;
    while remaining != {}
      invariant remaining <= leftKeys && leftKeys - remaining <= rightKeys
      decreases remaining
    {
      var key :| key in remaining;
      if key !in rightKeys {
        return Ok(Some(false));
      }
      remaining := remaining - {key};
    }
    assert leftKeys <= rightKeys;
    SubsetOfSameSize(leftKeys, rightKeys);
    r := Ok(Some(true));
  }

  lemma FirstsHaveKeys(s: DynamicSet, es: seq<Element>)
    requires FirstsIn(s, es)
    ensures Keyed(es) && s.values.Keys == KeySet(es)
  {}

  lemma NoKeysNoElements(es: seq<Element>)
    requires Keyed(es)
    ensures KeySet(es) == {} <==> es == []
  {
    hide KeyOf;
    if es != [] {
      assert Key(es[0]) in KeySet(es);
    }
  }

  method CountCommon(left: set<string>, right: set<string>) returns (count: nat)
    ensures count == |left * right|
  {
    var remaining := left;
    count := 0;
    while remaining != {}
      invariant remaining <= left && count == |(left - remaining) * right|
      decreases remaining
    {
      var key :| key in remaining;
      var next := remaining - {key};
      if key in right {
        assert (left - next) * right == (left - remaining) * right + {key};
        count := count + 1;
      } else {
        assert (left - next) * right == (left - remaining) * right;
      }
      remaining := next;
    }
    assert left - remaining == left;
  }

  /** Two arguments that can be read one after the other with so much work. */
  ghost predicate BothFit(left: Argument, right: Argument, work: int) {
    ArgumentFits(left, work) && ArgumentFits(right, work - ArgumentCost(left))
  }

  lemma WorkIs()
    ensures MAX_WORK == 67108864
  {}

  lemma FitApart(left: Argument, right: Argument, work: int)
    requires BothFit(left, right, work)
    ensures ArgumentFits(left, work) && ArgumentFits(right, work - ArgumentCost(left))
  {}

  /** jaccard_index: the share of the classes of either array that are in both. */
  method KqlJaccardIndex(left: Argument, right: Argument) returns (r: Result<Option<real>, SetError>)
    ensures r == Ok(None) ==> !(left.Text? && left.elements.Some?) || !(right.Text? && right.elements.Some?)
    ensures r.Ok? && r.value.Some? ==>
              IsArray(left) && IsArray(right) && Keyed(Elements(left)) && Keyed(Elements(right))
    ensures r.Ok? && r.value.Some? ==>
              var (a, b) := (KeySet(Elements(left)), KeySet(Elements(right)));
              a + b != {} && r.value.value == |a * b| as real / |a + b| as real
    ensures BothFit(left, right, 67108864) && r.Err? ==>
              r.error == BadCall && Elements(left) == Elements(right) == []
  {
    WorkIs();
    hide *;
    var budget := new Budget(MAX_WORK, MAX_PARTS);
    if BothFit(left, right, MAX_WORK) {
      FitApart(left, right, MAX_WORK);
    }
    var a := ReadDynamicSet(left, budget);
    if a.Err? {
      return Err(a.error);
    }
    if a.value.None? {
      return Ok(None);
    }
    var b := ReadDynamicSet(right, budget);
    if b.Err? {
      return Err(b.error);
    }
    if b.value.None? {
      return Ok(None);
    }
    FirstsHaveKeys(a.value.value, Elements(left));
    FirstsHaveKeys(b.value.value, Elements(right));
    var leftKeys, rightKeys := a.value.value.values.Keys, b.value.value.values.Keys;
    var intersection := CountCommon(leftKeys, rightKeys);
    var union := |leftKeys| + |rightKeys| - intersection;
    assert union == |leftKeys + rightKeys|;
    NoKeysNoElements(Elements(left));
    NoKeysNoElements(Elements(right));
    if union == 0 {
      return Err(BadCall);
    }
    r := Ok(Some(intersection as real / union as real));
  }
}
