/**
  Canonical keys of JSON values: setValueKey, readSetKey and frameSetKey in
  internal/database/kql_sets.go.  Strings stand for sequences of bytes.
 */
module SetKeys {
  import opened Conversion
  import opened DecimalText
  import opened Numbers
  import opened SetFacts
  import opened Wrappers

  const MAX_SET_KEY_DEPTH: nat := 64

  type NumberText = l: Literal | WellFormed(l) witness Literal("", "0", false, "", None)

  datatype Json =
    | Null
    | Bool(bit: bool)
    | Number(literal: NumberText)
    | String(text: string)
    | Array(items: seq<Json>)
    | Object(members: seq<Member>)

  datatype Member = Member(name: string, value: Json)

  // ----- Equality of JSON values ------------------------------------------------------------

  /** Numbers are equal as exact decimals, and the order of an object's members does not matter. */
  ghost predicate Equal(a: Json, b: Json)
    decreases a
  {
    match (a, b)
    case (Null, Null) => true
    case (Bool(x), Bool(y)) => x == y
    case (Number(x), Number(y)) => SameValue(ValueOf(x), ValueOf(y))
    case (String(x), String(y)) => x == y
    case (Array(xs), Array(ys)) => |xs| == |ys| && forall i :: 0 <= i < |xs| ==> Equal(xs[i], ys[i])
    case (Object(xs), Object(ys)) => SameMembers(xs, ys)
    case _ => false
  }

  ghost predicate SameMembers(xs: seq<Member>, ys: seq<Member>)
    decreases xs
  {
    |xs| == |ys| &&
    forall i :: 0 <= i < |xs| ==> exists j ::
        0 <= j < |ys| && xs[i].name == ys[j].name && Equal(xs[i].value, ys[j].value)
  }

  // ----- The order of names --------------------------------------------------------------------

  predicate Less(a: string, b: string) {
    b != "" && (a == "" || a[0] < b[0] || (a[0] == b[0] && Less(a[1..], b[1..])))
  }

  lemma {:induction false} LessTransitive(a: string, b: string, c: string)
    requires Less(a, b) && Less(b, c)
    ensures Less(a, c)
  {
    if a != "" && a[0] == b[0] == c[0] {
      LessTransitive(a[1..], b[1..], c[1..]);
    }
  }

  lemma {:induction false} LessTotal(a: string, b: string)
    ensures a == b || Less(a, b) || Less(b, a)
    ensures !(Less(a, b) && Less(b, a)) && !Less(a, a)
  {
    if a != "" && b != "" {
      LessTotal(a[1..], b[1..]);
      if a[0] == b[0] && a[1..] == b[1..] {
        assert a == [a[0]] + a[1..] && b == [b[0]] + b[1..];
      }
    }
    if a != "" {
      LessTotal(a[1..], a[1..]);
    }
  }

  /** A member name with the key of its value. */
  datatype Entry = Entry(name: string, key: string)

  predicate DistinctNames(es: seq<Entry>) {
    forall i, j :: 0 <= i < j < |es| ==> es[i].name != es[j].name
  }

  ghost predicate Ascending(es: seq<Entry>) {
    forall i, j :: 0 <= i < j < |es| ==> Less(es[i].name, es[j].name)
  }

  function InsertEntry(e: Entry, es: seq<Entry>): seq<Entry> {
    if es == [] || Less(e.name, es[0].name) then [e] + es else [es[0]] + InsertEntry(e, es[1..])
  }

  /** sort.Strings on the names. */
  function SortEntries(es: seq<Entry>): seq<Entry> {
    if es == [] then [] else InsertEntry(es[0], SortEntries(es[1..]))
  }

  ghost function Entries(es: seq<Entry>): set<Entry> {
    set e | e in es
  }

  lemma {:induction false} InsertKeepsOrder(e: Entry, es: seq<Entry>)
    requires Ascending(es) && forall i :: 0 <= i < |es| ==> es[i].name != e.name
    ensures Ascending(InsertEntry(e, es)) && Entries(InsertEntry(e, es)) == Entries(es) + {e}
  {
    hide Less;
    if es != [] && !Less(e.name, es[0].name) {
      LessTotal(e.name, es[0].name);
      InsertKeepsOrder(e, es[1..]);
      assert es == [es[0]] + es[1..];
      forall x | x in InsertEntry(e, es[1..])
        ensures Less(es[0].name, x.name)
      {
        assert x in Entries(InsertEntry(e, es[1..]));
      }
    } else if es != [] {
      forall i | 0 <= i < |es|
        ensures Less(e.name, es[i].name)
      {
        if i > 0 {
          LessTransitive(e.name, es[0].name, es[i].name);
        }
      }
    }
  }

  lemma {:induction false} SortSorts(es: seq<Entry>)
    requires DistinctNames(es)
    ensures Ascending(SortEntries(es)) && Entries(SortEntries(es)) == Entries(es)
  {
    if es != [] {
      var rest := SortEntries(es[1..]);
      SortSorts(es[1..]);
      forall i | 0 <= i < |rest|
        ensures rest[i].name != es[0].name
      {
        assert rest[i] in Entries(es[1..]);
      }
      InsertKeepsOrder(es[0], rest);
      assert es == [es[0]] + es[1..];
    }
  }

  /** The sorted list depends on the set of entries alone. */
  lemma {:induction false} AscendingUnique(a: seq<Entry>, b: seq<Entry>)
    requires Ascending(a) && Ascending(b) && Entries(a) == Entries(b)
    ensures a == b
  {
    HeadIsEntry(a);
    HeadIsEntry(b);
    if a != [] && b != [] {
      LessTotal(a[0].name, b[0].name);
      assert a[0] == b[0];
      assert Entries(a[1..]) == Entries(a) - {a[0]} by {
        TailEntries(a);
      }
      assert Entries(b[1..]) == Entries(b) - {b[0]} by {
        TailEntries(b);
      }
      AscendingUnique(a[1..], b[1..]);
      assert a == [a[0]] + a[1..] && b == [b[0]] + b[1..];
    }
  }

  lemma HeadIsEntry(a: seq<Entry>)
    ensures a == [] <==> Entries(a) == {}
    ensures a != [] ==> a[0] in Entries(a)
  {
    if a != [] {
      assert a[0] in Entries(a);
    }
  }

  lemma TailEntries(a: seq<Entry>)
    requires a != [] && Ascending(a)
    ensures Entries(a[1..]) == Entries(a) - {a[0]}
  {
    LessTotal(a[0].name, a[0].name);
    forall e | e in Entries(a) - {a[0]}
      ensures e in Entries(a[1..])
    {
      var i :| 0 <= i < |a| && a[i] == e;
      assert a[1..][i - 1] == e;
    }
  }

  // ----- Frames ------------------------------------------------------------------------------------

  /** strconv.Itoa on a length. */
  function NatText(n: nat): (s: string)
    ensures s != "" && AllDigits(s)
  {
    var last := ('0' as nat + n % 10) as char;
    if n < 10 then [last] else NatText(n / 10) + [last]
  }

  function IntText(n: int): string {
    if n < 0 then "-" + NatText(-n) else NatText(n)
  }

  lemma {:induction false} NatTextValue(n: nat)
    ensures NatOf(NatText(n)) == n
  {
    if n >= 10 {
      NatTextValue(n / 10);
      assert NatText(n)[..|NatText(n)| - 1] == NatText(n / 10);
    } else {
      assert NatText(n)[..0] == "" && NatOf("") == 0;
    }
  }

  lemma IntTextInjective(m: int, n: int)
    requires IntText(m) == IntText(n)
    ensures m == n
  {
    assert IsDigit(NatText(if m < 0 then -m else m)[0]) && IsDigit(NatText(if n < 0 then -n else n)[0]);
    if m < 0 {
      assert NatText(-m) == IntText(m)[1..] == IntText(n)[1..] == NatText(-n);
      NatTextValue(-m);
      NatTextValue(-n);
    } else {
      NatTextValue(m);
      NatTextValue(n);
    }
  }

  /** frameSetKey: the length, a colon, the text. */
  function Frame(s: string): string {
    NatText(|s|) + ":" + s
  }

  function Frames(ks: seq<string>): string {
    if ks == [] then "" else Frame(ks[0]) + Frames(ks[1..])
  }

  /** A run of digits ended by a colon can be read off the front of a text in one way only. */
  lemma HeaderEnds(h: string, g: string, x: string, y: string)
    requires AllDigits(h) && AllDigits(g)
    requires h + ":" + x == g + ":" + y
    ensures h == g && x == y
  {
    var s := h + ":" + x;
    assert s[|h|] == ':' && s[|g|] == ':';
    assert forall i :: 0 <= i < |h| ==> s[i] == h[i];
    assert forall i :: 0 <= i < |g| ==> s[i] == g[i];
    assert h == s[..|h|] && x == s[|h| + 1..];
    assert g == s[..|g|] && y == s[|g| + 1..];
  }

  lemma FrameSplits(x: string, y: string, r: string, s: string)
    requires Frame(x) + r == Frame(y) + s
    ensures x == y && r == s
  {
    hide NatText;
    assert Frame(x) + r == NatText(|x|) + ":" + (x + r);
    assert Frame(y) + s == NatText(|y|) + ":" + (y + s);
    HeaderEnds(NatText(|x|), NatText(|y|), x + r, y + s);
    NatTextValue(|x|);
    NatTextValue(|y|);
    assert x == (x + r)[..|x|] && r == (x + r)[|x|..];
    assert y == (y + s)[..|y|] && s == (y + s)[|y|..];
  }

  lemma FramesNonempty(ks: seq<string>)
    ensures Frames(ks) == "" <==> ks == []
  {
    if ks != [] {
      assert |Frame(ks[0])| > 0;
    }
  }

  lemma {:induction false} FramesInjective(a: seq<string>, b: seq<string>)
    requires Frames(a) == Frames(b)
    ensures a == b
  {
    FramesNonempty(a);
    FramesNonempty(b);
    if a != [] && b != [] {
      hide Frame;
      FrameSplits(a[0], b[0], Frames(a[1..]), Frames(b[1..]));
      FramesInjective(a[1..], b[1..]);
      assert a == [a[0]] + a[1..] && b == [b[0]] + b[1..];
    }
  }

  /** Name and key of each entry in turn. */
  function Flatten(es: seq<Entry>): seq<string> {
    if es == [] then [] else [es[0].name, es[0].key] + Flatten(es[1..])
  }

  lemma {:induction false} FlattenInjective(a: seq<Entry>, b: seq<Entry>)
    requires Flatten(a) == Flatten(b)
    ensures a == b
  {
    if a == [] || b == [] {
    } else {
      assert Flatten(a)[0] == a[0].name && Flatten(a)[1] == a[0].key && Flatten(a)[2..] == Flatten(a[1..]);
      assert Flatten(b)[0] == b[0].name && Flatten(b)[1] == b[0].key && Flatten(b)[2..] == Flatten(b[1..]);
      FlattenInjective(a[1..], b[1..]);
      assert a == [a[0]] + a[1..] && b == [b[0]] + b[1..];
    }
  }

  // ----- Keys ------------------------------------------------------------------------------------------

  function NumberKey(n: Normalized): string {
    "n" + (if n.negative then "-" else "+") + n.digits + ":" + IntText(n.scale)
  }

  /** readSetKey without its budgets: None for a refused number, a repeated name or too deep a nesting. */
  function KeyOf(v: Json, depth: nat): Option<string>
    decreases v, 1
  {
    if depth > MAX_SET_KEY_DEPTH then None
    else
      match v
      case Null => Some("z")
      case Bool(bit) => Some(if bit then "b1" else "b0")
      case String(text) => Some("s" + text)
      case Number(l) => if NormalForm(l).None? then None else Some(NumberKey(NormalForm(l).value))
      case Array(items) =>
        (match KeysOf(items, depth + 1)
         case None => None
         case Some(ks) => Some("a[" + Frames(ks) + "]"))
      case Object(members) =>
        match EntriesOf(members, depth + 1)
        case None => None
        case Some(es) => if !DistinctNames(es) then None else Some("o{" + Frames(Flatten(SortEntries(es))) + "}")
  }

  function KeysOf(items: seq<Json>, depth: nat): (ks: Option<seq<string>>)
    ensures ks.Some? ==> |ks.value| == |items|
    ensures ks.Some? ==> forall i :: 0 <= i < |items| ==> KeyOf(items[i], depth) == Some(ks.value[i])
    decreases items, 0
  {
    if items == [] then Some([])
    else
      match (KeyOf(items[0], depth), KeysOf(items[1..], depth))
      case (Some(k), Some(ks)) => Some([k] + ks)
      case _ => None
  }

  function EntriesOf(members: seq<Member>, depth: nat): (es: Option<seq<Entry>>)
    ensures es.Some? ==> |es.value| == |members|
    ensures es.Some? ==> forall i :: 0 <= i < |members| ==>
              es.value[i].name == members[i].name && KeyOf(members[i].value, depth) == Some(es.value[i].key)
    decreases members, 0
  {
    if members == [] then Some([])
    else
      match (KeyOf(members[0].value, depth), EntriesOf(members[1..], depth))
      case (Some(k), Some(es)) => Some([Entry(members[0].name, k)] + es)
      case _ => None
  }

  // ----- Which values have keys ------------------------------------------------------------------

  /** Arrays and objects stand in one another at most so many levels deep. */
  ghost predicate Shallow(v: Json, levels: nat)
    decreases v
  {
    match v
    case Array(items) => forall i :: 0 <= i < |items| ==> levels > 0 && Shallow(items[i], levels - 1)
    case Object(members) => forall i :: 0 <= i < |members| ==> levels > 0 && Shallow(members[i].value, levels - 1)
    case _ => true
  }

  /** No object has two members of one name, and every number has a normal form within the machine's integers. */
  ghost predicate Proper(v: Json)
    decreases v
  {
    match v
    case Number(l) => NormalForm(l).Some?
    case Array(items) => forall i :: 0 <= i < |items| ==> Proper(items[i])
    case Object(members) =>
      (forall i, j :: 0 <= i < j < |members| ==> members[i].name != members[j].name) &&
      forall i :: 0 <= i < |members| ==> Proper(members[i].value)
    case _ => true
  }

  /** A value has a key if and only if it is nested at most 64 levels deep and proper. */
  lemma {:induction false} HasKeyIff(v: Json, depth: nat)
    ensures KeyOf(v, depth).Some? <==> KeyFits(v, depth)
    decreases v
  {
    if depth <= 64 {
      match v
      case Array(items) =>
        hide KeyOf, KeyFits;
        forall i | 0 <= i < |items|
          ensures KeyOf(items[i], depth + 1).Some? <==> KeyFits(items[i], depth + 1)
        {
          HasKeyIff(items[i], depth + 1);
        }
        ArrayHasKeyIff(items, depth);
      case Object(members) =>
        hide KeyOf, KeyFits;
        forall i | 0 <= i < |members|
          ensures KeyOf(members[i].value, depth + 1).Some? <==> KeyFits(members[i].value, depth + 1)
        {
          HasKeyIff(members[i].value, depth + 1);
        }
        ObjectHasKeyIff(members, depth);
      case _ =>
    }
  }

  ghost predicate KeyFits(v: Json, depth: nat) {
    depth <= 64 && Shallow(v, 64 - depth) && Proper(v)
  }

  lemma ArrayHasKeyIff(items: seq<Json>, depth: nat)
    requires depth <= 64
    requires forall i :: 0 <= i < |items| ==> (KeyOf(items[i], depth + 1).Some? <==> KeyFits(items[i], depth + 1))
    ensures KeyOf(Array(items), depth).Some? <==> KeyFits(Array(items), depth)
  {
    hide KeyOf;
    KeysIff(items, depth + 1);
    ArrayHasKey(items, depth);
  }

  lemma ObjectHasKeyIff(members: seq<Member>, depth: nat)
    requires depth <= 64
    requires forall i :: 0 <= i < |members| ==>
               (KeyOf(members[i].value, depth + 1).Some? <==> KeyFits(members[i].value, depth + 1))
    ensures KeyOf(Object(members), depth).Some? <==> KeyFits(Object(members), depth)
  {
    hide KeyOf;
    EntriesIff(members, depth + 1);
    ObjectHasKey(members, depth);
  }

  lemma ArrayHasKey(items: seq<Json>, depth: nat)
    requires depth <= 64
    ensures KeyOf(Array(items), depth).Some? <==> KeysOf(items, depth + 1).Some?
  {
    hide Frames, KeysOf;
  }

  lemma ObjectHasKey(members: seq<Member>, depth: nat)
    requires depth <= 64
    ensures KeyOf(Object(members), depth).Some? <==>
            EntriesOf(members, depth + 1).Some? &&
            forall i, j :: 0 <= i < j < |members| ==> members[i].name != members[j].name
  {
    hide Frames, Flatten, SortEntries;
    var es := EntriesOf(members, depth + 1);
    hide EntriesOf;
    if es.Some? {
      assert forall i :: 0 <= i < |members| ==> es.value[i].name == members[i].name;
    }
  }

  lemma {:induction false} KeysIff(items: seq<Json>, depth: nat)
    ensures KeysOf(items, depth).Some? <==> forall i :: 0 <= i < |items| ==> KeyOf(items[i], depth).Some?
  {
    hide KeyOf;
    if items != [] {
      KeysIff(items[1..], depth);
      assert forall i :: 0 < i < |items| ==> items[i] == items[1..][i - 1];
    }
  }

  lemma {:induction false} EntriesIff(members: seq<Member>, depth: nat)
    ensures EntriesOf(members, depth).Some? <==>
            forall i :: 0 <= i < |members| ==> KeyOf(members[i].value, depth).Some?
  {
    hide KeyOf;
    if members != [] {
      EntriesIff(members[1..], depth);
      assert forall i :: 0 < i < |members| ==> members[i] == members[1..][i - 1];
    }
  }

  // ----- Keys are equal exactly when values are equal ------------------------------------------

  /** The first character of a key tells the kind of the value. */
  function Tag(v: Json): char {
    match v
    case Null => 'z'
    case Bool(_) => 'b'
    case Number(_) => 'n'
    case String(_) => 's'
    case Array(_) => 'a'
    case Object(_) => 'o'
  }

  lemma KeyTag(v: Json, depth: nat)
    requires KeyOf(v, depth).Some?
    ensures KeyOf(v, depth).value != "" && KeyOf(v, depth).value[0] == Tag(v)
  {}

  lemma NumberKeyInjective(m: Normalized, n: Normalized)
    requires AllDigits(m.digits) && AllDigits(n.digits) && NumberKey(m) == NumberKey(n)
    ensures m == n
  {
    hide NatText, IntText;
    var a, b := NumberKey(m), NumberKey(n);
    assert a[1] == if m.negative then '-' else '+';
    assert b[1] == if n.negative then '-' else '+';
    assert a[2..] == m.digits + ":" + IntText(m.scale);
    assert b[2..] == n.digits + ":" + IntText(n.scale);
    HeaderEnds(m.digits, n.digits, IntText(m.scale), IntText(n.scale));
    IntTextInjective(m.scale, n.scale);
  }

  lemma NumbersDecide(k: NumberText, l: NumberText)
    requires NormalForm(k).Some? && NormalForm(l).Some?
    ensures NumberKey(NormalForm(k).value) == NumberKey(NormalForm(l).value) <==> SameValue(ValueOf(k), ValueOf(l))
  {
    NormalFormKeepsValue(k);
    NormalFormKeepsValue(l);
    NormalFormDecides(k, l);
    hide NormalForm, SameValue, NumberKey, ValueOf;
    if NumberKey(NormalForm(k).value) == NumberKey(NormalForm(l).value) {
      NumberKeyInjective(NormalForm(k).value, NormalForm(l).value);
    }
  }

  lemma BracketInjective(open: string, x: string, y: string, close: string)
    requires open + x + close == open + y + close
    ensures x == y
  {
    var s := open + x + close;
    assert |x| == |y|;
    assert x == s[|open|..|open| + |x|] && y == s[|open|..|open| + |x|];
  }

  lemma {:induction false} EntryCount(es: seq<Entry>)
    requires DistinctNames(es)
    ensures |Entries(es)| == |es|
  {
    if es != [] {
      EntryCount(es[1..]);
      assert es == [es[0]] + es[1..];
      assert Entries(es) == Entries(es[1..]) + {es[0]};
      assert es[0] !in Entries(es[1..]);
    }
  }

  /** An object's text decides the set of its entries, and their number. */
  lemma ObjectTextDecides(es: seq<Entry>, fs: seq<Entry>)
    requires DistinctNames(es) && DistinctNames(fs)
    ensures Frames(Flatten(SortEntries(es))) == Frames(Flatten(SortEntries(fs))) <==> Entries(es) == Entries(fs)
    ensures Entries(es) == Entries(fs) ==> |es| == |fs|
  {
    SortSorts(es);
    SortSorts(fs);
    hide Frames, Flatten, SortEntries, Ascending, Entries;
    EntryCount(es);
    EntryCount(fs);
    if Entries(es) == Entries(fs) {
      AscendingUnique(SortEntries(es), SortEntries(fs));
    }
    if Frames(Flatten(SortEntries(es))) == Frames(Flatten(SortEntries(fs))) {
      FramesInjective(Flatten(SortEntries(es)), Flatten(SortEntries(fs)));
      FlattenInjective(SortEntries(es), SortEntries(fs));
    }
  }

  /** Two values that have keys have the same key exactly when they are equal, whatever depth each was read at. */
  lemma {:induction false} KeysDecideEquality(a: Json, da: nat, b: Json, db: nat)
    requires KeyOf(a, da).Some? && KeyOf(b, db).Some?
    ensures KeyOf(a, da) == KeyOf(b, db) <==> Equal(a, b)
    decreases a, 1
  {
    KeyTag(a, da);
    KeyTag(b, db);
    match (a, b) {
      case (Number(k), Number(l)) => NumbersDecide(k, l);
      case (String(x), String(y)) => assert ("s" + x)[1..] == x && ("s" + y)[1..] == y;
      case (Array(xs), Array(ys)) => ArraysDecide(a, da, b, db);
      case (Object(xs), Object(ys)) => ObjectsDecide(a, da, b, db);
      case _ => assert Tag(a) == Tag(b) ==> a.Null? || a.Bool?;
    }
  }

  lemma ArrayKey(items: seq<Json>, depth: nat)
    requires KeyOf(Array(items), depth).Some?
    ensures KeysOf(items, depth + 1).Some?
    ensures KeyOf(Array(items), depth).value == "a[" + Frames(KeysOf(items, depth + 1).value) + "]"
  {}

  lemma {:induction false} ArraysDecide(a: Json, da: nat, b: Json, db: nat)
    requires a.Array? && b.Array?
    requires KeyOf(a, da).Some? && KeyOf(b, db).Some?
    ensures KeyOf(a, da) == KeyOf(b, db) <==> Equal(a, b)
    decreases a, 0
  {
    hide KeyOf, KeysOf, Frames;
    var xs, ys := a.items, b.items;
    ArrayKey(xs, da);
    ArrayKey(ys, db);
    var ks, ls := KeysOf(xs, da + 1).value, KeysOf(ys, db + 1).value;
    forall i | 0 <= i < |xs| && |xs| == |ys|
      ensures ks[i] == ls[i] <==> Equal(xs[i], ys[i])
    {
      KeysDecideEquality(xs[i], da + 1, ys[i], db + 1);
    }
    if KeyOf(a, da) == KeyOf(b, db) {
      BracketInjective("a[", Frames(ks), Frames(ls), "]");
      FramesInjective(ks, ls);
    }
    if Equal(a, b) {
      assert ks == ls;
    }
  }

  lemma ObjectKey(members: seq<Member>, depth: nat)
    requires KeyOf(Object(members), depth).Some?
    ensures EntriesOf(members, depth + 1).Some? && DistinctNames(EntriesOf(members, depth + 1).value)
    ensures KeyOf(Object(members), depth).value ==
              "o{" + Frames(Flatten(SortEntries(EntriesOf(members, depth + 1).value))) + "}"
  {}

  lemma {:induction false} ObjectsDecide(a: Json, da: nat, b: Json, db: nat)
    requires a.Object? && b.Object?
    requires KeyOf(a, da).Some? && KeyOf(b, db).Some?
    ensures KeyOf(a, da) == KeyOf(b, db) <==> Equal(a, b)
    decreases a, 0
  {
    hide KeyOf, EntriesOf, Frames, Flatten, SortEntries, DistinctNames, SameMembers, Entries;
    var xs, ys := a.members, b.members;
    ObjectKey(xs, da);
    ObjectKey(ys, db);
    var es, fs := EntriesOf(xs, da + 1).value, EntriesOf(ys, db + 1).value;
    forall i, j | 0 <= i < |xs| && 0 <= j < |ys|
      ensures es[i].key == fs[j].key <==> Equal(xs[i].value, ys[j].value)
    {
      assert xs[i].value < a;
      KeysDecideEquality(xs[i].value, da + 1, ys[j].value, db + 1);
    }
    ObjectTextDecides(es, fs);
    MembersDecide(xs, es, ys, fs);
    assert Equal(a, b) <==> SameMembers(xs, ys);
    if KeyOf(a, da) == KeyOf(b, db) {
      BracketInjective("o{", Frames(Flatten(SortEntries(es))), Frames(Flatten(SortEntries(fs))), "}");
    }
  }

  lemma MembersDecide(xs: seq<Member>, es: seq<Entry>, ys: seq<Member>, fs: seq<Entry>)
    requires |xs| == |es| && |ys| == |fs| && DistinctNames(es) && DistinctNames(fs)
    requires forall i :: 0 <= i < |xs| ==> es[i].name == xs[i].name
    requires forall j :: 0 <= j < |ys| ==> fs[j].name == ys[j].name
    requires forall i, j :: 0 <= i < |xs| && 0 <= j < |ys| ==>
               (es[i].key == fs[j].key <==> Equal(xs[i].value, ys[j].value))
    ensures Entries(es) == Entries(fs) <==> SameMembers(xs, ys)
  {
    EntryCount(es);
    EntryCount(fs);
    hide Equal, DistinctNames;
    if Entries(es) == Entries(fs) {
      forall i | 0 <= i < |xs|
        ensures exists j :: 0 <= j < |ys| && xs[i].name == ys[j].name && Equal(xs[i].value, ys[j].value)
      {
        assert es[i] in Entries(fs);
      }
    }
    if SameMembers(xs, ys) {
      forall e | e in Entries(es)
        ensures e in Entries(fs)
      {
        var i :| 0 <= i < |es| && es[i] == e;
        var j :| 0 <= j < |ys| && xs[i].name == ys[j].name && Equal(xs[i].value, ys[j].value);
        assert fs[j] == e;
      }
      SubsetOfSameSize(Entries(es), Entries(fs));
    }
  }
}
