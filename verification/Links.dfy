/**
 * Finding the links a stored document may not show
 * (`packages/contracts/src/links.ts`, `findUnsafeLinks`): an explicit stack, a
 * set of objects already seen, and paths kept as pointers to a parent.
 */
module Links {
  import opened Text

  // An object or array is known by its identity; the graph says what it holds.
  type Id = nat

  datatype Value = Undefined | Null | Str(text: string) | Other(literal: string) | Object(id: Id)

  datatype Key = Name(name: string) | Index(index: nat)

  datatype Node = Items(items: seq<Value>) | Members(members: seq<(string, Value)>)

  type Graph = map<Id, Node>

  // `node.map` and `Object.entries`: the children of a node, in document order.
  function Entries(node: Node): seq<(Key, Value)> {
    match node
    case Items(items) => seq(|items|, i requires 0 <= i < |items| => (Index(i), items[i]))
    case Members(members) => seq(|members|, i requires 0 <= i < |members| => (Name(members[i].0), members[i].1))
  }

  ghost predicate Known(g: Graph, v: Value) {
    v.Object? ==> v.id in g
  }

  // Every object mentioned is in the graph.
  ghost predicate Closed(g: Graph) {
    forall id, k | id in g && 0 <= k < |Entries(g[id])| :: Known(g, Entries(g[id])[k].1)
  }

  // A visit points at its parent instead of copying its path.
  datatype Visit = Root(node: Value) | Child(node: Value, key: Key, parent: Visit)

  function Path(visit: Visit): seq<Key> {
    match visit
    case Root(_) => []
    case Child(_, key, parent) => Path(parent) + [key]
  }

  function Reversed<T>(s: seq<T>): (r: seq<T>)
    ensures |r| == |s|
  {
    if s == [] then [] else Reversed(s[1..]) + [s[0]]
  }

  lemma {:induction false} ReversedAppend<T>(s: seq<T>, t: seq<T>)
    ensures Reversed(s + t) == Reversed(t) + Reversed(s)
  {
    if s == [] {
      assert s + t == t;
    } else {
      ReversedAppend(s[1..], t);
      assert (s + t)[1..] == s[1..] + t;
    }
  }

  lemma {:induction false} ReversedTwice<T>(s: seq<T>)
    ensures Reversed(Reversed(s)) == s
  {
    if s != [] {
      ReversedAppend(Reversed(s[1..]), [s[0]]);
      ReversedTwice(s[1..]);
      assert Reversed([s[0]]) == [s[0]];
    }
  }

  /** `segmentsOf`: follow the parents up, then turn the list round. */
  method SegmentsOf(visit: Visit) returns (segments: seq<Key>)
    ensures segments == Path(visit)
  {
    var at := visit;
    var collected: seq<Key> := [];
    while at.Child?
      invariant Path(at) + Reversed(collected) == Path(visit)
      decreases at
    {
      ReversedAppend(collected, [at.key]);
      assert Reversed([at.key]) == [at.key];
      assert Path(at.parent) + [at.key] + Reversed(collected) == Path(at.parent) + ([at.key] + Reversed(collected));
      collected := collected + [at.key];
      at := at.parent;
    }
    return Reversed(collected);
  }

  function KeyText(key: Key): string {
    match key
    case Name(name) => name
    case Index(index) => DecimalText(index)
  }

  function KeyTexts(segments: seq<Key>): seq<string> {
    seq(|segments|, i requires 0 <= i < |segments| => KeyText(segments[i]))
  }

  datatype UnsafeLink = UnsafeLink(path: string, segments: seq<Key>, href: string)

  /**
   * What the walk asks of the outside: whether a text is a link that may be
   * shown, and how a refused value is written for the author.
   */
  datatype Rules = Rules(isSafe: string -> bool, describe: Value -> string)

  predicate IsSafeHref(rules: Rules, v: Value) {
    v.Str? && rules.isSafe(v.text)
  }

  function LinkAt(rules: Rules, segments: seq<Key>, v: Value): UnsafeLink {
    UnsafeLink(Join(KeyTexts(segments), "."), segments, rules.describe(v))
  }

  predicate IsHref(visit: Visit) {
    visit.Child? && visit.key == Name("href")
  }

  // What an `href` member contributes.
  function HrefLinks(rules: Rules, segments: seq<Key>, v: Value): seq<UnsafeLink> {
    if v != Undefined && !IsSafeHref(rules, v) then [LinkAt(rules, segments, v)] else []
  }

  function VisitsOf(visit: Visit, entries: seq<(Key, Value)>): seq<Visit> {
    seq(|entries|, i requires 0 <= i < |entries| => Child(entries[i].1, entries[i].0, visit))
  }

  /* ------------------------------------------------------------ the recursive walk */

  // What a depth-first walk finds, and the objects seen by its end.
  datatype Walked = Walked(found: seq<UnsafeLink>, seen: set<Id>)

  ghost function Unseen(g: Graph, seen: set<Id>): nat {
    |g.Keys - seen|
  }

  lemma SeeingOneMore(g: Graph, seen: set<Id>, id: Id)
    requires id in g && id !in seen
    ensures Unseen(g, seen + {id}) < Unseen(g, seen)
  {
    assert g.Keys - (seen + {id}) == (g.Keys - seen) - {id};
  }

  lemma {:induction false} SubsetsAreSmaller(a: set<Id>, b: set<Id>)
    requires a <= b
    ensures |a| <= |b|
  {
    if a != {} {
      var x :| x in a;
      SubsetsAreSmaller(a - {x}, b - {x});
    }
  }

  lemma SeeingMore(g: Graph, seen: set<Id>, more: set<Id>)
    requires seen <= more
    ensures Unseen(g, more) <= Unseen(g, seen)
  {
    SubsetsAreSmaller(g.Keys - more, g.Keys - seen);
  }

  // The walk written as recursion: a node, then its children in order, never the same object twice.
  ghost function Walk(g: Graph, rules: Rules, visit: Visit, seen: set<Id>): (w: Walked)
    requires Closed(g) && Known(g, visit.node)
    ensures seen <= w.seen
    decreases Unseen(g, seen), 0, 0
  {
    if IsHref(visit) then Walked(HrefLinks(rules, Path(visit), visit.node), seen)
    else if !visit.node.Object? || visit.node.id in seen then Walked([], seen)
    else
      SeeingOneMore(g, seen, visit.node.id);
      WalkAll(g, rules, VisitsOf(visit, Entries(g[visit.node.id])), seen + {visit.node.id})
  }

  ghost function WalkAll(g: Graph, rules: Rules, visits: seq<Visit>, seen: set<Id>): (w: Walked)
    requires Closed(g) && forall v | v in visits :: Known(g, v.node)
    ensures seen <= w.seen
    decreases Unseen(g, seen), 1, |visits|
  {
    if visits == [] then Walked([], seen)
    else
      var first := Walk(g, rules, visits[0], seen);
      SeeingMore(g, seen, first.seen);
      var rest := WalkAll(g, rules, visits[1..], first.seen);
      Walked(first.found + rest.found, rest.seen)
  }

  lemma {:induction false} WalkAllConcat(g: Graph, rules: Rules, a: seq<Visit>, b: seq<Visit>, seen: set<Id>)
    requires Closed(g) && forall v | v in a + b :: Known(g, v.node)
    ensures (forall v | v in a :: Known(g, v.node)) && (forall v | v in b :: Known(g, v.node))
    ensures var first := WalkAll(g, rules, a, seen);
            var rest := WalkAll(g, rules, b, first.seen);
            WalkAll(g, rules, a + b, seen) == Walked(first.found + rest.found, rest.seen)
    decreases |a|
  {
    hide Walk, Closed;
    assert forall v | v in a :: v in a + b;
    assert forall v | v in b :: v in a + b;
    if a == [] {
      assert a + b == b;
    } else {
      assert (a + b)[1..] == a[1..] + b;
      WalkAllConcat(g, rules, a[1..], b, Walk(g, rules, a[0], seen).seen);
      var head := Walk(g, rules, a[0], seen).found;
      var tail := WalkAll(g, rules, a[1..], Walk(g, rules, a[0], seen).seen);
      var rest := WalkAll(g, rules, b, tail.seen);
      assert head + (tail.found + rest.found) == head + tail.found + rest.found;
    }
  }

  /* ------------------------------------------------------------ the walk with a stack */

  ghost predicate Distinct(s: seq<Id>) {
    forall i, j | 0 <= i < j < |s| :: s[i] != s[j]
  }

  // The stack read from its top.
  ghost function Todo(stack: seq<Visit>): seq<Visit> {
    Reversed(stack)
  }

  /**
   * `findUnsafeLinks`, on any finite graph, cycles and sharing included: it
   * finds what the recursive walk finds, in the same order, and expands exactly
   * the objects that walk sees, each once.
   */
  method FindUnsafeLinks(g: Graph, rules: Rules, value: Value) returns (found: seq<UnsafeLink>, ghost expanded: seq<Id>)
    requires Closed(g) && Known(g, value)
    ensures found == Walk(g, rules, Root(value), {}).found
    ensures Distinct(expanded)
    ensures forall id :: id in expanded <==> id in Walk(g, rules, Root(value), {}).seen
  {
    hide Todo, Join, KeyTexts, Path, Walk, WalkAll, Closed, Unseen;
    found, expanded := [], [];
    var seen: set<Id> := {};
    var stack := [Root(value)];
    assert Closed(g);
    ghost var all := WalkAll(g, rules, [Root(value)], {});
    assert all == Walk(g, rules, Root(value), {}) by {
      OneVisit(g, rules, Root(value), {});
    }
    OneTodo(Root(value));
    while |stack| > 0
      invariant Closed(g)
      invariant forall v | v in Todo(stack) :: Known(g, v.node)
      invariant found + WalkAll(g, rules, Todo(stack), seen).found == all.found
      invariant WalkAll(g, rules, Todo(stack), seen).seen == all.seen
      invariant Distinct(expanded) && forall id :: id in expanded <==> id in seen
      decreases Unseen(g, seen), |stack|
    {
      ghost var todo := Todo(stack);
      var visit := stack[|stack| - 1];
      assert stack == stack[..|stack| - 1] + [visit];
      stack := stack[..|stack| - 1];
      PopTop(stack, visit);
      assert todo == [visit] + Todo(stack);
      assert visit in todo && todo[1..] == Todo(stack);
      var node := visit.node;
      WalkAllFirst(g, rules, visit, Todo(stack), seen);
      if visit.Child? && visit.key == Name("href") {
        if node != Undefined && !IsSafeHref(rules, node) {
          var segments := SegmentsOf(visit);
          found := found + [UnsafeLink(Join(KeyTexts(segments), "."), segments, rules.describe(node))];
        }
        continue;
      }
      if !node.Object? || node.id in seen {
        continue;
      }
      SeeingOneMore(g, seen, node.id);
      var children := Entries(g[node.id]);
      WalkAllExpands(g, rules, visit, Todo(stack), seen);
      seen := seen + {node.id};
      expanded := expanded + [node.id];
      stack := PushChildren(stack, visit, children);
    }
    NothingTodo(g, rules, seen);
    assert stack == [];
  }

  // The inner loop: children are pushed last first, so the first comes off first.
  method PushChildren(stack: seq<Visit>, visit: Visit, children: seq<(Key, Value)>) returns (pushed: seq<Visit>)
    ensures Todo(pushed) == VisitsOf(visit, children) + Todo(stack)
  {
    ghost var visits := VisitsOf(visit, children);
    pushed := stack;
    var index := |children|;
    while index > 0
      invariant 0 <= index <= |children|
      invariant pushed == stack + Reversed(visits[index..])
    {
      index := index - 1;
      assert visits[index..] == [visits[index]] + visits[index + 1..];
      pushed := pushed + [Child(children[index].1, children[index].0, visit)];
    }
    assert visits[0..] == visits;
    ReversedAppend(stack, Reversed(visits));
    ReversedTwice(visits);
  }

  lemma OneVisit(g: Graph, rules: Rules, visit: Visit, seen: set<Id>)
    requires Closed(g) && Known(g, visit.node)
    ensures WalkAll(g, rules, [visit], seen) == Walk(g, rules, visit, seen)
  {
    assert [visit][1..] == [];
    assert WalkAll(g, rules, [], Walk(g, rules, visit, seen).seen).found == [];
  }

  lemma NothingTodo(g: Graph, rules: Rules, seen: set<Id>)
    requires Closed(g)
    ensures Todo([]) == [] && WalkAll(g, rules, [], seen) == Walked([], seen)
  {
  }

  lemma OneTodo(visit: Visit)
    ensures Todo([visit]) == [visit]
  {
    assert Reversed([visit]) == Reversed([]) + [visit];
  }

  // The first visit contributes its own links, and the rest what it always did, unless it is expanded.
  lemma WalkAllFirst(g: Graph, rules: Rules, visit: Visit, rest: seq<Visit>, seen: set<Id>)
    requires Closed(g) && Known(g, visit.node) && (forall v | v in rest :: Known(g, v.node))
    ensures IsHref(visit) ==>
              WalkAll(g, rules, [visit] + rest, seen).found ==
              HrefLinks(rules, Path(visit), visit.node) + WalkAll(g, rules, rest, seen).found
    ensures IsHref(visit) ==> WalkAll(g, rules, [visit] + rest, seen).seen == WalkAll(g, rules, rest, seen).seen
    ensures !IsHref(visit) && (!visit.node.Object? || visit.node.id in seen) ==>
              WalkAll(g, rules, [visit] + rest, seen) == WalkAll(g, rules, rest, seen)
  {
    assert ([visit] + rest)[1..] == rest;
  }

  lemma PopTop(stack: seq<Visit>, visit: Visit)
    ensures Todo(stack + [visit]) == [visit] + Todo(stack)
  {
    ReversedAppend(stack, [visit]);
    assert Reversed([visit]) == [visit];
  }

  // Expanding the first visit puts its children in front of the rest.
  lemma WalkAllExpands(g: Graph, rules: Rules, visit: Visit, rest: seq<Visit>, seen: set<Id>)
    requires Closed(g) && Known(g, visit.node) && (forall v | v in rest :: Known(g, v.node))
    requires !IsHref(visit) && visit.node.Object? && visit.node.id !in seen
    ensures var visits := VisitsOf(visit, Entries(g[visit.node.id]));
            && (forall v | v in visits + rest :: Known(g, v.node))
            && WalkAll(g, rules, [visit] + rest, seen) == WalkAll(g, rules, visits + rest, seen + {visit.node.id})
  {
    var visits := VisitsOf(visit, Entries(g[visit.node.id]));
    forall v | v in visits + rest
      ensures Known(g, v.node)
    {
      if v in visits {
        var k :| 0 <= k < |visits| && visits[k] == v;
        assert Known(g, Entries(g[visit.node.id])[k].1);
      }
    }
    WalkAllConcat(g, rules, visits, rest, seen + {visit.node.id});
    assert ([visit] + rest)[1..] == rest;
  }

  /* ------------------------------------------------------------ on a JSON tree */

  // A JSON value as a tree: a text, number, boolean, null or undefined, or members under keys.
  datatype Tree = Leaf(value: Value) | Branch(members: MemberList)

  datatype MemberList = End | Then(key: Key, tree: Tree, rest: MemberList)

  // The links a plain recursive reading finds, in document order, with their paths.
  ghost function TreeLinks(isSafe: string -> bool, text: Tree -> string, tree: Tree, path: seq<Key>): seq<UnsafeLink>
    decreases tree
  {
    match tree
    case Leaf(_) => []
    case Branch(members) => MemberLinks(isSafe, text, members, path)
  }

  ghost function MemberLinks(isSafe: string -> bool, text: Tree -> string, members: MemberList, path: seq<Key>): seq<UnsafeLink>
    decreases members
  {
    match members
    case End => []
    case Then(key, tree, rest) =>
      var here := path + [key];
      (if key == Name("href") then RefusedHref(isSafe, text, tree, here) else TreeLinks(isSafe, text, tree, here)) +
      MemberLinks(isSafe, text, rest, path)
  }

  ghost function RefusedHref(isSafe: string -> bool, text: Tree -> string, tree: Tree, path: seq<Key>): seq<UnsafeLink> {
    if tree == Leaf(Undefined) || (tree.Leaf? && tree.value.Str? && isSafe(tree.value.text)) then []
    else [UnsafeLink(Join(KeyTexts(path), "."), path, text(tree))]
  }

  // The graph holds the tree at this value.
  ghost predicate Holds(g: Graph, v: Value, tree: Tree)
    decreases tree
  {
    match tree
    case Leaf(value) => !value.Object? && v == value
    case Branch(members) => v.Object? && v.id in g && HoldsAll(g, Entries(g[v.id]), members)
  }

  ghost predicate HoldsAll(g: Graph, entries: seq<(Key, Value)>, members: MemberList)
    decreases members
  {
    match members
    case End => entries == []
    case Then(key, tree, rest) =>
      entries != [] && entries[0].0 == key && Holds(g, entries[0].1, tree) && HoldsAll(g, entries[1..], rest)
  }

  // The objects of the tree, in preorder; a tree shares none when they are distinct.
  ghost function Objects(g: Graph, v: Value, tree: Tree): seq<Id>
    requires Holds(g, v, tree)
    decreases tree
  {
    match tree
    case Leaf(_) => []
    case Branch(members) => [v.id] + ObjectsIn(g, Entries(g[v.id]), members)
  }

  ghost function ObjectsIn(g: Graph, entries: seq<(Key, Value)>, members: MemberList): seq<Id>
    requires HoldsAll(g, entries, members)
    decreases members
  {
    match members
    case End => []
    case Then(_, tree, rest) => Objects(g, entries[0].1, tree) + ObjectsIn(g, entries[1..], rest)
  }

  ghost predicate Fresh(ids: seq<Id>, seen: set<Id>) {
    Distinct(ids) && forall id | id in ids :: id !in seen
  }

  // A walk sees no more than what it saw before and the objects of its tree.
  ghost predicate SeesOnly(after: set<Id>, seen: set<Id>, ids: seq<Id>) {
    forall id | id in after :: id in seen || id in ids
  }

  lemma FreshSplits(a: seq<Id>, b: seq<Id>, seen: set<Id>)
    requires Fresh(a + b, seen)
    ensures Fresh(a, seen)
    ensures forall after | SeesOnly(after, seen, a) :: Fresh(b, after)
  {
    var s := a + b;
    assert forall i | 0 <= i < |a| :: a[i] == s[i];
    assert forall j | 0 <= j < |b| :: b[j] == s[|a| + j];
    forall i, j | 0 <= i < |a| && 0 <= j < |b|
      ensures a[i] != b[j]
    {
      assert s[i] != s[|a| + j];
    }
    assert forall id | id in a :: id in s;
    assert forall id | id in b :: id in s;
  }

  // How a tree's values are written, in either shape.
  ghost predicate Describes(g: Graph, rules: Rules, text: Tree -> string) {
    forall v, tree | Holds(g, v, tree) :: rules.describe(v) == text(tree)
  }

  lemma {:induction false} WalkReadsTree(g: Graph, rules: Rules, text: Tree -> string, visit: Visit, tree: Tree, seen: set<Id>)
    requires Closed(g) && Holds(g, visit.node, tree) && Describes(g, rules, text)
    requires Fresh(Objects(g, visit.node, tree), seen)
    ensures Known(g, visit.node)
    ensures !IsHref(visit) ==> Walk(g, rules, visit, seen).found == TreeLinks(rules.isSafe, text, tree, Path(visit))
    ensures IsHref(visit) ==> Walk(g, rules, visit, seen).found == RefusedHref(rules.isSafe, text, tree, Path(visit))
    ensures SeesOnly(Walk(g, rules, visit, seen).seen, seen, Objects(g, visit.node, tree))
    decreases tree
  {
    hide Join, KeyTexts;
    match tree {
      case Leaf(_) =>
      case Branch(members) =>
        var id, entries := visit.node.id, Entries(g[visit.node.id]);
        if !IsHref(visit) {
          assert Objects(g, visit.node, tree) == [id] + ObjectsIn(g, entries, members);
          FreshSplits([id], ObjectsIn(g, entries, members), seen);
          assert id in Objects(g, visit.node, tree);
          WalkReadsMembers(g, rules, text, visit, entries, members, seen + {id});
        }
    }
  }

  lemma {:induction false} WalkReadsMembers(g: Graph, rules: Rules, text: Tree -> string, visit: Visit,
                                            entries: seq<(Key, Value)>, members: MemberList, seen: set<Id>)
    requires Closed(g) && HoldsAll(g, entries, members) && Describes(g, rules, text)
    requires Fresh(ObjectsIn(g, entries, members), seen)
    ensures forall v | v in VisitsOf(visit, entries) :: Known(g, v.node)
    ensures WalkAll(g, rules, VisitsOf(visit, entries), seen).found == MemberLinks(rules.isSafe, text, members, Path(visit))
    ensures SeesOnly(WalkAll(g, rules, VisitsOf(visit, entries), seen).seen, seen, ObjectsIn(g, entries, members))
    decreases members
  {
    hide Join, KeyTexts, Walk, TreeLinks, RefusedHref, Fresh, Closed;
    var visits := VisitsOf(visit, entries);
    match members {
      case End =>
      case Then(key, tree, rest) =>
        var first := Child(entries[0].1, entries[0].0, visit);
        var a, b := Objects(g, entries[0].1, tree), ObjectsIn(g, entries[1..], rest);
        FreshSplits(a, b, seen);
        WalkReadsTree(g, rules, text, first, tree, seen);
        var after := Walk(g, rules, first, seen).seen;
        assert Fresh(b, after);
        WalkReadsMembers(g, rules, text, visit, entries[1..], rest, after);
        assert visits[0] == first && visits[1..] == VisitsOf(visit, entries[1..]);
        assert forall v | v in visits :: v == first || v in visits[1..];
    }
  }

  /**
   * On a JSON tree - no object reached twice - the walk finds exactly the
   * refused `href` members a plain reading finds, with their exact paths, in
   * document order.
   */
  lemma TreeWalkIsPreorder(g: Graph, rules: Rules, text: Tree -> string, value: Value, tree: Tree)
    requires Closed(g) && Holds(g, value, tree) && Describes(g, rules, text)
    requires Distinct(Objects(g, value, tree))
    ensures Known(g, value)
    ensures Walk(g, rules, Root(value), {}).found == TreeLinks(rules.isSafe, text, tree, [])
  {
    WalkReadsTree(g, rules, text, Root(value), tree, {});
  }

  /* ------------------------------------------------------------ the path as text */

  lemma KeyReads(key: Key)
    requires key.Name? ==> '.' !in key.name
    ensures '.' !in KeyText(key)
    ensures key.Index? ==> AllDigits(KeyText(key)) && KeyText(key) != "" && Decimal(KeyText(key)) == key.index
  {
    if key.Index? {
      DecimalReadsBack(key.index);
    }
  }

  /** Between its dots the path of a link names each key on the way: a member by its name, an item by its number in decimal. */
  lemma PathNamesEachKey(rules: Rules, segments: seq<Key>, v: Value)
    requires segments != [] && forall k | k in segments && k.Name? :: '.' !in k.name
    ensures var parts := Split(LinkAt(rules, segments, v).path, '.');
            && |parts| == |segments|
            && (forall i | 0 <= i < |segments| :: segments[i].Name? ==> parts[i] == segments[i].name)
            && (forall i | 0 <= i < |segments| :: segments[i].Index? ==>
                  parts[i] != "" && AllDigits(parts[i]) && Decimal(parts[i]) == segments[i].index)
  {
    var texts := KeyTexts(segments);
    forall i | 0 <= i < |segments|
      ensures '.' !in texts[i]
      ensures segments[i].Index? ==> AllDigits(texts[i]) && texts[i] != "" && Decimal(texts[i]) == segments[i].index
    {
      assert segments[i] in segments;
      KeyReads(segments[i]);
    }
    assert forall p | p in texts :: '.' !in p;
    SplitJoin(texts, '.');
    assert LinkAt(rules, segments, v).path == Join(texts, ".");
  }
}
