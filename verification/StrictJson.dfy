/** The checks strict decoding adds to json.loads (src/cloudops_guard/ingestion/strict_json.py). */
module StrictJson {
  import opened Wrappers
  import opened Unicode

  const MAX_NESTING_DEPTH := 64
  const MAX_SAFE_INTEGER := 0x20_0000_0000_0000 - 1

  datatype Float = Finite | Infinite | NotANumber

  /** A decoded document. A string is a sequence of code points, surrogates among them. */
  datatype Json =
    | Null
    | Bool(b: bool)
    | Int(n: int)
    | Floating(f: Float)
    | Str(s: seq<int>)
    | Arr(items: seq<Json>)
    | Obj(members: seq<Member>)

  datatype Member = Member(key: seq<int>, value: Json)

  // ---- The rule, over entries ----

  /** A value and its nesting depth. */
  datatype Entry = Entry(value: Json, depth: nat)

  /** Encodable as UTF-8: no code point is a surrogate. */
  predicate NoSurrogate(s: seq<int>) { forall c <- s :: !IsSurrogate(c) }

  /** What _reject_unsafe_number lets through: binary64's exact integers and finite floats. */
  predicate SafeNumber(v: Json) {
    match v
    case Int(n) => -MAX_SAFE_INTEGER <= n <= MAX_SAFE_INTEGER
    case Floating(f) => f.Finite?
    case _ => true
  }

  /** What is demanded of one value, apart from its children. */
  predicate LocallyFine(e: Entry) {
    && e.depth <= MAX_NESTING_DEPTH
    && (e.value.Str? ==> NoSurrogate(e.value.s))
    && SafeNumber(e.value)
  }

  /** What lies directly inside a value: an object's keys and values, an array's items. */
  function Children(e: Entry): seq<Entry> {
    match e.value
    case Arr(items) => ItemEntries(items, e.depth + 1)
    case Obj(members) => MemberEntries(members, e.depth + 1)
    case _ => []
  }

  function ItemEntries(items: seq<Json>, depth: nat): seq<Entry> {
    if items == [] then [] else ItemEntries(items[..|items| - 1], depth) + [Entry(items[|items| - 1], depth)]
  }

  function MemberEntries(members: seq<Member>, depth: nat): seq<Entry> {
    if members == [] then []
    else
      var m := members[|members| - 1];
      MemberEntries(members[..|members| - 1], depth) + [Entry(Str(m.key), depth)] + [Entry(m.value, depth)]
  }

  function Size(v: Json): nat {
    1 + match v
        case Arr(items) => SizeOfItems(items)
        case Obj(members) => SizeOfMembers(members)
        case _ => 0
  }

  function SizeOfItems(items: seq<Json>): nat {
    if items == [] then 0 else SizeOfItems(items[..|items| - 1]) + Size(items[|items| - 1])
  }

  function SizeOfMembers(members: seq<Member>): nat {
    if members == [] then 0 else SizeOfMembers(members[..|members| - 1]) + 1 + Size(members[|members| - 1].value)
  }

  function SizeOfStack(stack: seq<Entry>): nat {
    if stack == [] then 0 else SizeOfStack(stack[..|stack| - 1]) + Size(stack[|stack| - 1].value)
  }

  lemma SizePushed(stack: seq<Entry>, e: Entry)
    ensures SizeOfStack(stack + [e]) == SizeOfStack(stack) + Size(e.value)
  {
    assert (stack + [e])[..|stack|] == stack;
  }

  lemma {:induction false} SizeJoined(stack: seq<Entry>, more: seq<Entry>)
    ensures SizeOfStack(stack + more) == SizeOfStack(stack) + SizeOfStack(more)
    decreases |more|
  {
    if more == [] {
      assert stack + more == stack;
    } else {
      var n := |more| - 1;
      SizeJoined(stack, more[..n]);
      assert stack + more == (stack + more[..n]) + [more[n]];
      SizePushed(stack + more[..n], more[n]);
    }
  }

  lemma {:induction false} SizeOfItemEntries(items: seq<Json>, depth: nat)
    ensures SizeOfStack(ItemEntries(items, depth)) == SizeOfItems(items)
  {
    if items != [] {
      SizeOfItemEntries(items[..|items| - 1], depth);
      SizePushed(ItemEntries(items[..|items| - 1], depth), Entry(items[|items| - 1], depth));
    }
  }

  lemma {:induction false} SizeOfMemberEntries(members: seq<Member>, depth: nat)
    ensures SizeOfStack(MemberEntries(members, depth)) == SizeOfMembers(members)
  {
    if members != [] {
      var m, front := members[|members| - 1], MemberEntries(members[..|members| - 1], depth);
      SizeOfMemberEntries(members[..|members| - 1], depth);
      SizePushed(front, Entry(Str(m.key), depth));
      SizePushed(front + [Entry(Str(m.key), depth)], Entry(m.value, depth));
    }
  }

  lemma SizeOfChildren(e: Entry)
    ensures SizeOfStack(Children(e)) + 1 == Size(e.value)
  {
    match e.value {
      case Arr(items) => SizeOfItemEntries(items, e.depth + 1);
      case Obj(members) => SizeOfMemberEntries(members, e.depth + 1);
      case _ =>
    }
  }

  lemma {:induction false} SizeOfEntry(stack: seq<Entry>, i: nat)
    requires i < |stack|
    ensures Size(stack[i].value) <= SizeOfStack(stack)
  {
    if i < |stack| - 1 { SizeOfEntry(stack[..|stack| - 1], i); }
  }

  lemma ChildIsSmaller(e: Entry, i: nat)
    requires i < |Children(e)|
    ensures Size(Children(e)[i].value) < Size(e.value)
  {
    SizeOfChildren(e);
    SizeOfEntry(Children(e), i);
  }

  /** The recursive rule: a value is fine itself and so is everything directly inside it. */
  predicate Accepts(e: Entry)
    decreases Size(e.value)
  {
    LocallyFine(e) && forall i :: 0 <= i < |Children(e)| ==> (ChildIsSmaller(e, i); Accepts(Children(e)[i]))
  }

  predicate AcceptsAll(stack: seq<Entry>) { forall i :: 0 <= i < |stack| ==> Accepts(stack[i]) }

  lemma AcceptsJoined(stack: seq<Entry>, more: seq<Entry>)
    ensures AcceptsAll(stack + more) <==> AcceptsAll(stack) && AcceptsAll(more)
  {
    var all := stack + more;
    if AcceptsAll(all) {
      forall i | 0 <= i < |stack| ensures Accepts(stack[i]) { assert all[i] == stack[i]; }
      forall i | 0 <= i < |more| ensures Accepts(more[i]) { assert all[|stack| + i] == more[i]; }
    }
  }

  lemma AcceptsUnfolds(e: Entry)
    ensures Accepts(e) <==> LocallyFine(e) && AcceptsAll(Children(e))
  {
  }

  method PushMembers(stack: seq<Entry>, members: seq<Member>, depth: nat) returns (r: seq<Entry>)
    ensures r == stack + MemberEntries(members, depth)
  {
    r := stack;
    for i := 0 to |members|
      invariant r == stack + MemberEntries(members[..i], depth)
    {
      assert members[..i + 1][..i] == members[..i];
      r := r + [Entry(Str(members[i].key), depth)];
      r := r + [Entry(members[i].value, depth)];
    }
    assert members[..|members|] == members;
  }

  method PushItems(stack: seq<Entry>, items: seq<Json>, depth: nat) returns (r: seq<Entry>)
    ensures r == stack + ItemEntries(items, depth)
  {
    r := stack;
    for i := 0 to |items|
      invariant r == stack + ItemEntries(items[..i], depth)
    {
      assert items[..i + 1][..i] == items[..i];
      r := r + [Entry(items[i], depth)];
    }
    assert items[..|items|] == items;
  }

  /** One step of the walk: the popped value answers for itself and hands its children on. */
  lemma Popped(stack: seq<Entry>, e: Entry)
    ensures AcceptsAll(stack + [e]) <==> LocallyFine(e) && AcceptsAll(stack + Children(e))
    ensures SizeOfStack(stack + Children(e)) < SizeOfStack(stack + [e])
  {
    AcceptsJoined(stack, [e]);
    AcceptsJoined(stack, Children(e));
    AcceptsUnfolds(e);
    assert AcceptsAll([e]) <==> Accepts(e) by { assert [e][0] == e; }
    SizePushed(stack, e);
    SizeJoined(stack, Children(e));
    SizeOfChildren(e);
  }

  // ---- What acceptance means, value by value ----

  /** v is an item of the array, or a key or a value of the object. */
  ghost predicate DirectlyInside(v: Json, outer: Json) {
    match outer
    case Arr(items) => exists i :: 0 <= i < |items| && v == items[i]
    case Obj(members) => exists i :: 0 <= i < |members| && (v == Str(members[i].key) || v == members[i].value)
    case _ => false
  }

  /** v lies inside outer, the given number of levels down. */
  ghost predicate Inside(v: Json, outer: Json, levels: nat)
    decreases levels
  {
    if levels == 0 then v == outer else exists w :: DirectlyInside(w, outer) && Inside(v, w, levels - 1)
  }

  /** At most 64 levels down, no surrogate in a string, no number binary64 does not hold exactly or finitely. */
  predicate Storable(v: Json, level: nat) {
    && level <= 64
    && match v
       case Str(s) => forall c <- s :: c < 0xD800 || 0xDFFF < c
       case Int(n) => -9_007_199_254_740_991 <= n <= 9_007_199_254_740_991
       case Floating(f) => !f.Infinite? && !f.NotANumber?
       case _ => true
  }

  lemma {:induction false} ItemEntriesExactly(items: seq<Json>, depth: nat, c: Entry)
    ensures c in ItemEntries(items, depth) <==> c.depth == depth && exists i :: 0 <= i < |items| && c.value == items[i]
  {
    if items != [] {
      var n := |items| - 1;
      ItemEntriesExactly(items[..n], depth, c);
      assert forall i :: 0 <= i < n ==> items[..n][i] == items[i];
    }
  }

  lemma {:induction false} MemberEntriesExactly(members: seq<Member>, depth: nat, c: Entry)
    ensures c in MemberEntries(members, depth)
       <==> c.depth == depth && exists i :: 0 <= i < |members| && (c.value == Str(members[i].key) || c.value == members[i].value)
  {
    if members != [] {
      var n := |members| - 1;
      MemberEntriesExactly(members[..n], depth, c);
      assert forall i :: 0 <= i < n ==> members[..n][i] == members[i];
    }
  }

  /** What the walk pushes for a value: everything directly inside it, one level down, and nothing else. */
  lemma ChildrenExactly(e: Entry, c: Entry)
    ensures c in Children(e) <==> DirectlyInside(c.value, e.value) && c.depth == e.depth + 1
  {
    match e.value {
      case Arr(items) => ItemEntriesExactly(items, e.depth + 1, c);
      case Obj(members) => MemberEntriesExactly(members, e.depth + 1, c);
      case _ =>
    }
  }

  lemma {:induction false} AcceptedInside(e: Entry, v: Json, levels: nat)
    requires Accepts(e) && Inside(v, e.value, levels)
    ensures Storable(v, e.depth + levels)
    decreases levels
  {
    if levels > 0 {
      var w :| DirectlyInside(w, e.value) && Inside(v, w, levels - 1);
      ChildrenExactly(e, Entry(w, e.depth + 1));
      var i :| 0 <= i < |Children(e)| && Children(e)[i] == Entry(w, e.depth + 1);
      AcceptedInside(Children(e)[i], v, levels - 1);
    }
  }

  lemma {:induction false} Rejection(e: Entry) returns (v: Json, levels: nat)
    requires !Accepts(e)
    ensures Inside(v, e.value, levels) && !Storable(v, e.depth + levels)
    decreases Size(e.value)
  {
    if !LocallyFine(e) {
      v, levels := e.value, 0;
    } else {
      var i: nat :| i < |Children(e)| && !Accepts(Children(e)[i]);
      var c := Children(e)[i];
      ChildIsSmaller(e, i);
      ChildrenExactly(e, c);
      var bad, below := Rejection(c);
      v, levels := bad, below + 1;
    }
  }

  /** Everything inside the document, at whatever level, can be stored. */
  ghost predicate AllStorable(root: Json) {
    forall v, levels: nat :: Inside(v, root, levels) ==> Storable(v, levels)
  }

  /**
   A document is accepted exactly when everything in it, keys included, is at most 64 levels down, no
   string holds a surrogate and every number is finite and, if an integer, exact in binary64.
   */
  lemma AcceptsExactly(root: Json)
    ensures Accepts(Entry(root, 0)) <==> AllStorable(root)
  {
    var e := Entry(root, 0);
    if Accepts(e) {
      forall v, levels: nat | Inside(v, root, levels) ensures Storable(v, levels) { AcceptedInside(e, v, levels); }
    } else {
      var v, levels := Rejection(e);
      assert Inside(v, root, levels) && !Storable(v, levels);
    }
  }

  // ---- The walk over an explicit stack ----

  /** The explicit-stack walk terminates and accepts exactly the documents all of whose contents can be stored. */
  method ValidateDecodedDocument(root: Json) returns (accepted: bool)
    ensures accepted <==> AllStorable(root)
  {
    AcceptsExactly(root);
    var stack := [Entry(root, 0)];
    assert AcceptsAll(stack) <==> Accepts(Entry(root, 0)) by { assert stack[0] == Entry(root, 0); }
    while stack != []
      invariant AcceptsAll(stack) <==> Accepts(Entry(root, 0))
      decreases SizeOfStack(stack)
    {
      var value, depth := stack[|stack| - 1].value, stack[|stack| - 1].depth;
      assert stack == stack[..|stack| - 1] + [Entry(value, depth)];
      stack := stack[..|stack| - 1];
      Popped(stack, Entry(value, depth));
      if depth > MAX_NESTING_DEPTH { return false; }
      match value {
        case Str(s) =>
          if !NoSurrogate(s) { return false; }
        case Obj(members) =>
          stack := PushMembers(stack, members, depth + 1);
        case Arr(items) =>
          stack := PushItems(stack, items, depth + 1);
        case _ =>
          if !SafeNumber(value) { return false; }
      }
    }
    return true;
  }

  // ---- The pairs hook ----

  datatype Pair<V> = Pair(key: seq<int>, value: V)

  predicate DistinctKeys<V>(pairs: seq<Pair<V>>) {
    forall i, j :: 0 <= i < j < |pairs| ==> pairs[i].key != pairs[j].key
  }

  ghost function KeysOf<V>(pairs: seq<Pair<V>>): set<seq<int>> { set i | 0 <= i < |pairs| :: pairs[i].key }

  /** The object holds the last value of each key, and no other key. */
  ghost predicate Holds<V>(built: map<seq<int>, V>, pairs: seq<Pair<V>>) {
    && built.Keys == KeysOf(pairs)
    && forall i :: 0 <= i < |pairs| ==> pairs[i].key in built && built[pairs[i].key] == pairs[i].value
  }

  lemma HoldsOneMore<V>(built: map<seq<int>, V>, pairs: seq<Pair<V>>, p: Pair<V>)
    requires Holds(built, pairs) && p.key !in built
    ensures Holds(built[p.key := p.value], pairs + [p])
  {
    var all := pairs + [p];
    assert KeysOf(all) == KeysOf(pairs) + {p.key} by {
      forall k | k in KeysOf(pairs) ensures k in KeysOf(all) {
        var i :| 0 <= i < |pairs| && pairs[i].key == k;
        assert all[i].key == k;
      }
      assert all[|pairs|].key == p.key;
    }
  }

  lemma Repeated<V>(pairs: seq<Pair<V>>, i: nat)
    requires i < |pairs| && pairs[i].key in KeysOf(pairs[..i])
    ensures !DistinctKeys(pairs)
  {
    var j :| 0 <= j < i && pairs[..i][j].key == pairs[i].key;
    assert pairs[j].key == pairs[i].key;
  }

  /** Builds the object from its pairs: None for a duplicate key, otherwise every pair is kept. */
  method ObjectPairsHook<V>(pairs: seq<Pair<V>>) returns (result: Option<map<seq<int>, V>>)
    ensures result.Some? <==> DistinctKeys(pairs)
    ensures result.Some? ==> Holds(result.value, pairs)
  {
    var seen: set<seq<int>> := {};
    var built: map<seq<int>, V> := map[];
    for i := 0 to |pairs|
      invariant seen == built.Keys && Holds(built, pairs[..i])
      invariant forall j, k :: 0 <= j < k < i ==> pairs[j].key != pairs[k].key
    {
      var p := pairs[i];
      if p.key in seen {
        Repeated(pairs, i);
        return None;
      }
      HoldsOneMore(built, pairs[..i], p);
      assert pairs[..i + 1] == pairs[..i] + [p];
      forall j | 0 <= j < i ensures pairs[j].key != p.key { assert pairs[..i][j].key in KeysOf(pairs[..i]); }
      seen := seen + {p.key};
      built := built[p.key := p.value];
    }
    assert pairs[..|pairs|] == pairs;
    return Some(built);
  }
}
