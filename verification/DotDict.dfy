/** Flattening and rebuilding nested dictionaries: lnst/Common/Utils.py. */
module DotDict {
  import opened Sequences
  import opened SplitJoin

  type Key = string

  /** A dictionary is the list of its entries in insertion order, with distinct keys. */
  datatype Node = Leaf(text: string) | Dict(entries: Entries)
  datatype Entry = Entry(key: Key, node: Node)
  type Entries = seq<Entry>

  /** The operation may raise, when a text stands where a dictionary is needed. */
  datatype Result<+T> = Done(value: T) | Raised

  // ---- Dictionary access ----

  function IndexOf(d: Entries, k: Key): (i: nat)
    ensures i <= |d|
    ensures i < |d| ==> d[i].key == k
    ensures forall j :: 0 <= j < i ==> d[j].key != k
  {
    if d == [] || d[0].key == k then 0 else 1 + IndexOf(d[1..], k)
  }

  /** `d[k] = v`: in place if the key is there, at the end if not. */
  function Put(d: Entries, k: Key, v: Node): Entries {
    var i := IndexOf(d, k);
    if i < |d| then d[i := Entry(k, v)] else d + [Entry(k, v)]
  }

  /** `d.get(k, {})`. */
  function GetOrEmpty(d: Entries, k: Key): Node {
    var i := IndexOf(d, k);
    if i < |d| then d[i].node else Dict([])
  }

  // ---- The three operations ----

  const DOT: char := '.'

  /** `dict_to_dot` for texts and dictionaries. */
  function DictToDot(d: Entries, prefix: string): seq<(string, string)>
    decreases d
  {
    if d == [] then []
    else
      (match d[0].node
       case Dict(sub) => DictToDot(sub, prefix + d[0].key + [DOT])
       case Leaf(text) => [(prefix + d[0].key, text)])
      + DictToDot(d[1..], prefix)
  }

  /** A dictionary of a single path. */
  function Nest(path: seq<Key>, value: string): Node {
    if path == [] then Leaf(value) else Dict([Entry(path[0], Nest(path[1..], value))])
  }

  /** `dot_to_dict`. */
  function DotToDict(name: string, value: string): Node {
    Nest(Split(name, DOT), value)
  }

  /** `recursive_dict_update`: the updated value of the first argument. */
  function Update(original: Node, update: Entries): Result<Node>
    decreases update
  {
    if update == [] then Done(original)
    else if original.Leaf? then Raised
    else
      var Entry(k, v) := update[0];
      match v
      case Leaf(_) => Update(Dict(Put(original.entries, k, v)), update[1..])
      case Dict(sub) =>
        match Update(GetOrEmpty(original.entries, k), sub)
        case Raised => Raised
        case Done(r) => Update(Dict(Put(original.entries, k, r)), update[1..])
  }

  /** Folds the update over a list of dotted names and their values. */
  function Rebuild(acc: Node, pairs: seq<(string, string)>): Result<Node>
    decreases |pairs|
  {
    if pairs == [] then Done(acc)
    else
      var one := DotToDict(pairs[0].0, pairs[0].1);
      if one.Leaf? then Raised
      else
        match Update(acc, one.entries)
        case Raised => Raised
        case Done(r) => Rebuild(r, pairs[1..])
  }

  // ---- The loops ----

  method DictToDotLoop(d: Entries, prefix: string) returns (r: seq<(string, string)>)
    ensures r == DictToDot(d, prefix)
    decreases d
  {
    r := [];
    for i := 0 to |d|
      invariant r + DictToDot(d[i..], prefix) == DictToDot(d, prefix)
    {
      assert d[i..][0] == d[i] && d[i..][1..] == d[i + 1..];
      match d[i].node {
        case Dict(sub) =>
          var subList := DictToDotLoop(sub, prefix + d[i].key + [DOT]);
          r := r + subList;
        case Leaf(text) =>
          r := r + [(prefix + d[i].key, text)];
      }
    }
  }

  method UpdateLoop(original: Node, update: Entries) returns (r: Result<Node>)
    ensures r == Update(original, update)
    decreases update
  {
    var cur := original;
    for i := 0 to |update|
      invariant Update(cur, update[i..]) == Update(original, update)
    {
      assert update[i..][0] == update[i] && update[i..][1..] == update[i + 1..];
      if cur.Leaf? { return Raised; }
      var Entry(k, v) := update[i];
      match v {
        case Leaf(_) => cur := Dict(Put(cur.entries, k, v));
        case Dict(sub) =>
          var inner := UpdateLoop(GetOrEmpty(cur.entries, k), sub);
          if inner.Raised? { return Raised; }
          cur := Dict(Put(cur.entries, k, inner.value));
      }
    }
    r := Done(cur);
  }

  // ---- Well-formed and clean dictionaries ----

  ghost predicate DistinctKeys(d: Entries) {
    forall i, j :: 0 <= i < j < |d| ==> d[i].key != d[j].key
  }

  /** Distinct keys at every level: what a Python dictionary is. */
  ghost predicate Proper(d: Entries)
    decreases d
  {
    DistinctKeys(d) && forall i :: 0 <= i < |d| && d[i].node.Dict? ==> Proper(d[i].node.entries)
  }

  /** No dots in keys and no empty dictionary below the top level. */
  ghost predicate Clean(d: Entries)
    decreases d
  {
    forall i :: 0 <= i < |d| ==>
      DOT !in d[i].key && (d[i].node.Dict? ==> d[i].node.entries != [] && Clean(d[i].node.entries))
  }

  lemma ProperTail(d: Entries)
    requires d != [] && Proper(d)
    ensures Proper(d[1..]) && IndexOf(d[1..], d[0].key) == |d| - 1
  {
    var t := d[1..];
    assert forall i :: 0 <= i < |t| ==> t[i] == d[i + 1];
  }

  lemma CleanTail(d: Entries)
    requires d != [] && Clean(d)
    ensures Clean(d[1..])
  {
    var t := d[1..];
    assert forall i :: 0 <= i < |t| ==> t[i] == d[i + 1];
  }

  // ---- Flattening by paths ----

  /** The path of every leaf with its text, in order. */
  function Paths(d: Entries): seq<(seq<Key>, string)>
    decreases d
  {
    if d == [] then [] else HeadPaths(d[0]) + Paths(d[1..])
  }

  /** The paths of one entry. */
  function HeadPaths(e: Entry): seq<(seq<Key>, string)>
    decreases e
  {
    match e.node case Dict(sub) => Under(e.key, Paths(sub)) case Leaf(text) => [([e.key], text)]
  }

  function Under(k: Key, ps: seq<(seq<Key>, string)>): seq<(seq<Key>, string)> {
    if ps == [] then [] else [([k] + ps[0].0, ps[0].1)] + Under(k, ps[1..])
  }

  function Named(prefix: string, ps: seq<(seq<Key>, string)>): seq<(string, string)> {
    if ps == [] then [] else [(prefix + Join(ps[0].0, DOT), ps[0].1)] + Named(prefix, ps[1..])
  }

  lemma {:induction false} NamedAppend(prefix: string, a: seq<(seq<Key>, string)>, b: seq<(seq<Key>, string)>)
    ensures Named(prefix, a + b) == Named(prefix, a) + Named(prefix, b)
    decreases |a|
  {
    if a == [] {
      assert a + b == b;
    } else {
      NamedAppend(prefix, a[1..], b);
      assert (a + b)[1..] == a[1..] + b;
    }
  }

  ghost predicate NonEmptyPaths(ps: seq<(seq<Key>, string)>) {
    forall i :: 0 <= i < |ps| ==> ps[i].0 != []
  }

  lemma {:induction false} UnderMembers(k: Key, ps: seq<(seq<Key>, string)>)
    ensures |Under(k, ps)| == |ps|
    ensures forall i :: 0 <= i < |ps| ==> Under(k, ps)[i] == ([k] + ps[i].0, ps[i].1)
    decreases |ps|
  {
    if ps != [] {
      UnderMembers(k, ps[1..]);
    }
  }

  lemma {:induction false} PathsNonEmpty(d: Entries)
    ensures NonEmptyPaths(Paths(d))
    decreases d
  {
    if d != [] {
      PathsNonEmpty(d[1..]);
      if d[0].node.Dict? {
        UnderMembers(d[0].key, Paths(d[0].node.entries));
      }
    }
  }

  lemma {:induction false} NamedUnder(prefix: string, k: Key, ps: seq<(seq<Key>, string)>)
    requires NonEmptyPaths(ps)
    ensures Named(prefix, Under(k, ps)) == Named(prefix + k + [DOT], ps)
    decreases |ps|
  {
    if ps != [] {
      NamedUnder(prefix, k, ps[1..]);
      assert ([k] + ps[0].0)[1..] == ps[0].0;
      assert prefix + (k + [DOT] + Join(ps[0].0, DOT)) == prefix + k + [DOT] + Join(ps[0].0, DOT);
      var one := ([k] + ps[0].0, ps[0].1);
      assert ([one] + Under(k, ps[1..]))[1..] == Under(k, ps[1..]);
    }
  }

  /** A dotted name is the path of a leaf, joined. */
  lemma {:induction false} FlattenIsPaths(d: Entries, prefix: string)
    ensures DictToDot(d, prefix) == Named(prefix, Paths(d))
    decreases d
  {
    if d != [] {
      FlattenIsPaths(d[1..], prefix);
      var head := HeadPaths(d[0]);
      NamedAppend(prefix, head, Paths(d[1..]));
      match d[0].node {
        case Dict(sub) =>
          FlattenIsPaths(sub, prefix + d[0].key + [DOT]);
          PathsNonEmpty(sub);
          NamedUnder(prefix, d[0].key, Paths(sub));
        case Leaf(text) =>
          assert head[1..] == [];
      }
    }
  }

  // ---- What an update leaves of both dictionaries ----

  /** The text met on the way along a path, with what is left of the path there. */
  ghost function LeafOn(n: Node, path: seq<Key>): Option<(string, seq<Key>)>
    decreases |path|
  {
    if n.Leaf? then Some((n.text, path))
    else if path == [] || IndexOf(n.entries, path[0]) == |n.entries| then None
    else LeafOn(n.entries[IndexOf(n.entries, path[0])].node, path[1..])
  }

  lemma {:induction false} PutFinds(d: Entries, k: Key, v: Node, j: Key)
    ensures var r := Put(d, k, v);
            && IndexOf(r, j) == (if j == k then IndexOf(d, k) else if IndexOf(d, j) < |d| then IndexOf(d, j) else |r|)
            && (j == k ==> IndexOf(r, k) < |r| && r[IndexOf(r, k)].node == v)
            && (j != k && IndexOf(d, j) < |d| ==> r[IndexOf(d, j)] == d[IndexOf(d, j)])
  {
    var r := Put(d, k, v);
    var i := IndexOf(d, k);
    assert forall n :: 0 <= n < |d| && n != i ==> r[n] == d[n];
    assert i < |r| && r[i] == Entry(k, v);
  }

  lemma PutLeafOn(d: Entries, k: Key, v: Node, path: seq<Key>)
    ensures LeafOn(Dict(Put(d, k, v)), path) ==
            if path != [] && path[0] == k then LeafOn(v, path[1..]) else LeafOn(Dict(d), path)
  {
    if path != [] {
      PutFinds(d, k, v, path[0]);
      var i, r := IndexOf(d, path[0]), Put(d, k, v);
      if path[0] == k {
        assert LeafOn(Dict(r), path) == LeafOn(r[i].node, path[1..]);
      } else if i < |d| {
        assert LeafOn(Dict(r), path) == LeafOn(d[i].node, path[1..]);
      }
    }
  }

  lemma GetLeafOn(d: Entries, k: Key, path: seq<Key>)
    ensures LeafOn(GetOrEmpty(d, k), path) == LeafOn(Dict(d), [k] + path)
  {
    assert ([k] + path)[1..] == path;
  }

  lemma TailLeafOn(d: Entries, path: seq<Key>)
    requires d != [] && DistinctKeys(d)
    ensures path != [] && path[0] == d[0].key ==> LeafOn(Dict(d), path) == LeafOn(d[0].node, path[1..]) && LeafOn(Dict(d[1..]), path) == None
    ensures !(path != [] && path[0] == d[0].key) ==> LeafOn(Dict(d), path) == LeafOn(Dict(d[1..]), path)
  {
  }

  /** Along every path the result has the update's text, if there is one, and else the original's. */
  lemma {:induction false} UpdateWins(original: Node, update: Entries, path: seq<Key>)
    requires Proper(update) && Update(original, update).Done?
    ensures LeafOn(Update(original, update).value, path) ==
            if LeafOn(Dict(update), path).Some? then LeafOn(Dict(update), path) else LeafOn(original, path)
    decreases update
  {
    hide Put, IndexOf, GetOrEmpty, DistinctKeys;
    if update != [] {
      ProperTail(update);
      TailLeafOn(update, path);
      var Entry(k, v) := update[0];
      var d := original.entries;
      var x := if v.Leaf? then v else Update(GetOrEmpty(d, k), v.entries).value;
      UpdateWins(Dict(Put(d, k, x)), update[1..], path);
      PutLeafOn(d, k, x, path);
      if path != [] && path[0] == k {
        assert [k] + path[1..] == path;
        GetLeafOn(d, k, path[1..]);
        if v.Dict? {
          UpdateWins(GetOrEmpty(d, k), v.entries, path[1..]);
        }
      }
    }
  }

  /** The update has something to put below a text of the original. */
  ghost predicate Clash(original: Node, update: Entries)
    decreases update
  {
    && update != []
    && (original.Leaf? ||
        exists i :: && 0 <= i < |update| && update[i].node.Dict?
                    && Clash(GetOrEmpty(original.entries, update[i].key), update[i].node.entries))
  }

  /** The first entry of the update touches no other key. */
  lemma ClashTail(d: Entries, k: Key, x: Node, update: Entries)
    requires update != [] && DistinctKeys(update) && update[0].key == k
    requires update[0].node.Dict? ==> !Clash(GetOrEmpty(d, k), update[0].node.entries)
    ensures Clash(Dict(Put(d, k, x)), update[1..]) <==> Clash(Dict(d), update)
  {
    var d' := Put(d, k, x);
    forall i | 1 <= i < |update| ensures GetOrEmpty(d', update[i].key) == GetOrEmpty(d, update[i].key) {
      PutFinds(d, k, x, update[i].key);
    }
    if i :| 0 <= i < |update[1..]| && update[1..][i].node.Dict? && Clash(GetOrEmpty(d', update[1..][i].key), update[1..][i].node.entries) {
      assert update[i + 1].node.Dict? && Clash(GetOrEmpty(d, update[i + 1].key), update[i + 1].node.entries);
    }
    if i :| 0 <= i < |update| && update[i].node.Dict? && Clash(GetOrEmpty(d, update[i].key), update[i].node.entries) {
      assert update[1..][i - 1].node.Dict? && Clash(GetOrEmpty(d', update[1..][i - 1].key), update[1..][i - 1].node.entries);
    }
  }

  /** An update raises exactly when it has something to put below a text. */
  lemma {:induction false} UpdateRaisesIff(original: Node, update: Entries)
    requires Proper(update)
    ensures Update(original, update).Raised? <==> Clash(original, update)
    decreases update
  {
    if update != [] && original.Dict? {
      ProperTail(update);
      var Entry(k, v) := update[0];
      var d := original.entries;
      if v.Dict? {
        UpdateRaisesIff(GetOrEmpty(d, k), v.entries);
      }
      if v.Leaf? || Update(GetOrEmpty(d, k), v.entries).Done? {
        var x := if v.Leaf? then v else Update(GetOrEmpty(d, k), v.entries).value;
        UpdateRaisesIff(Dict(Put(d, k, x)), update[1..]);
        ClashTail(d, k, x, update);
      }
    }
  }

  /** Keys keep their places, and new ones come behind them. */
  lemma {:induction false} UpdateKeepsOrder(d: Entries, update: Entries)
    requires Update(Dict(d), update).Done?
    ensures var r := Update(Dict(d), update).value;
            r.Dict? && |d| <= |r.entries| && forall i :: 0 <= i < |d| ==> r.entries[i].key == d[i].key
    decreases update
  {
    if update != [] {
      var Entry(k, v) := update[0];
      var x := if v.Leaf? then v else Update(GetOrEmpty(d, k), v.entries).value;
      UpdateKeepsOrder(Put(d, k, x), update[1..]);
    }
  }

  // ---- Rebuilding by paths ----

  /** Inserts one text at a path. */
  function Insert(acc: Node, path: seq<Key>, value: string): Result<Node>
    requires path != []
  {
    Update(acc, Nest(path, value).entries)
  }

  function InsertAll(acc: Node, ps: seq<(seq<Key>, string)>): Result<Node>
    requires NonEmptyPaths(ps)
    decreases |ps|
  {
    if ps == [] then Done(acc)
    else
      match Insert(acc, ps[0].0, ps[0].1)
      case Raised => Raised
      case Done(r) => InsertAll(r, ps[1..])
  }

  ghost predicate DotFreePaths(ps: seq<(seq<Key>, string)>) {
    forall i :: 0 <= i < |ps| ==> Free(ps[i].0, DOT)
  }

  lemma {:induction false} RebuildIsInsertAll(acc: Node, ps: seq<(seq<Key>, string)>)
    requires NonEmptyPaths(ps) && DotFreePaths(ps)
    ensures Rebuild(acc, Named("", ps)) == InsertAll(acc, ps)
    decreases |ps|
  {
    if ps != [] {
      SplitOfJoin(ps[0].0, DOT);
      var name := "" + Join(ps[0].0, DOT);
      assert name == Join(ps[0].0, DOT);
      match Insert(acc, ps[0].0, ps[0].1) {
        case Raised =>
        case Done(r) => RebuildIsInsertAll(r, ps[1..]);
      }
    }
  }

  lemma {:induction false} PathsDotFree(d: Entries)
    requires Clean(d)
    ensures DotFreePaths(Paths(d))
    decreases d
  {
    if d != [] {
      CleanTail(d);
      PathsDotFree(d[1..]);
      if d[0].node.Dict? {
        PathsDotFree(d[0].node.entries);
        UnderMembers(d[0].key, Paths(d[0].node.entries));
      }
    }
  }

  lemma {:induction false} InsertAllAppend(acc: Node, a: seq<(seq<Key>, string)>, mid: Node, b: seq<(seq<Key>, string)>)
    requires NonEmptyPaths(a) && NonEmptyPaths(b) && InsertAll(acc, a) == Done(mid)
    ensures NonEmptyPaths(a + b) && InsertAll(acc, a + b) == InsertAll(mid, b)
    decreases |a|
  {
    if a == [] {
      assert a + b == b;
    } else {
      assert (a + b)[0] == a[0] && (a + b)[1..] == a[1..] + b;
      InsertAllAppend(Insert(acc, a[0].0, a[0].1).value, a[1..], mid, b);
    }
  }

  lemma {:induction false} UpdateOne(d: Entries, k: Key, v: Node)
    ensures Update(Dict(d), [Entry(k, v)]) ==
            match v
            case Leaf(_) => Done(Dict(Put(d, k, v)))
            case Dict(sub) =>
              (match Update(GetOrEmpty(d, k), sub) case Raised => Raised case Done(n) => Done(Dict(Put(d, k, n))))
  {
    assert [Entry(k, v)][1..] == [];
  }

  lemma NestBelow(k: Key, path: seq<Key>, value: string)
    ensures Nest([k] + path, value) == Dict([Entry(k, Nest(path, value))])
  {
    assert ([k] + path)[1..] == path;
  }

  lemma LastIndex(acc: Entries, k: Key, x: Node)
    requires IndexOf(acc, k) == |acc|
    ensures IndexOf(acc + [Entry(k, x)], k) == |acc|
  {
    var d := acc + [Entry(k, x)];
    assert d[|acc|].key == k;
    assert forall j :: 0 <= j < |acc| ==> d[j] == acc[j];
  }

  /** Inserting below key `k`, which is the last entry, works on that entry. */
  lemma {:induction false} InsertBelowLast(acc: Entries, k: Key, x: Node, path: seq<Key>, value: string)
    requires path != [] && IndexOf(acc, k) == |acc|
    ensures Insert(Dict(acc + [Entry(k, x)]), [k] + path, value) ==
            match Insert(x, path, value) case Raised => Raised case Done(n) => Done(Dict(acc + [Entry(k, n)]))
  {
    var d := acc + [Entry(k, x)];
    LastIndex(acc, k, x);
    NestBelow(k, path, value);
    UpdateOne(d, k, Nest(path, value));
    hide Update, Nest;
    assert GetOrEmpty(d, k) == x;
    assert forall n :: Put(d, k, n) == acc + [Entry(k, n)];
  }

  /** Inserting below a new key starts from an empty dictionary. */
  lemma {:induction false} InsertBelowNew(acc: Entries, k: Key, path: seq<Key>, value: string)
    requires path != [] && IndexOf(acc, k) == |acc|
    ensures Insert(Dict(acc), [k] + path, value) ==
            match Insert(Dict([]), path, value) case Raised => Raised case Done(n) => Done(Dict(acc + [Entry(k, n)]))
  {
    NestBelow(k, path, value);
    UpdateOne(acc, k, Nest(path, value));
    assert Nest(path, value).Dict?;
    hide Update, Nest;
  }

  lemma {:induction false} InsertAllBelowLast(acc: Entries, k: Key, x: Node, ps: seq<(seq<Key>, string)>, r: Node)
    requires NonEmptyPaths(ps) && IndexOf(acc, k) == |acc| && InsertAll(x, ps) == Done(r)
    ensures NonEmptyPaths(Under(k, ps)) && InsertAll(Dict(acc + [Entry(k, x)]), Under(k, ps)) == Done(Dict(acc + [Entry(k, r)]))
    decreases |ps|
  {
    UnderMembers(k, ps);
    if ps != [] {
      InsertBelowLast(acc, k, x, ps[0].0, ps[0].1);
      InsertAllBelowLast(acc, k, Insert(x, ps[0].0, ps[0].1).value, ps[1..], r);
      assert Under(k, ps)[1..] == Under(k, ps[1..]);
    }
  }

  lemma {:induction false} InsertAllBelowNew(acc: Entries, k: Key, ps: seq<(seq<Key>, string)>, r: Node)
    requires ps != [] && NonEmptyPaths(ps) && IndexOf(acc, k) == |acc| && InsertAll(Dict([]), ps) == Done(r)
    ensures NonEmptyPaths(Under(k, ps)) && InsertAll(Dict(acc), Under(k, ps)) == Done(Dict(acc + [Entry(k, r)]))
  {
    UnderMembers(k, ps);
    InsertBelowNew(acc, k, ps[0].0, ps[0].1);
    InsertAllBelowLast(acc, k, Insert(Dict([]), ps[0].0, ps[0].1).value, ps[1..], r);
    assert Under(k, ps)[1..] == Under(k, ps[1..]);
  }

  lemma {:induction false} PathsPresent(d: Entries)
    requires d != [] && Clean(d)
    ensures Paths(d) != []
    decreases d
  {
    if d[0].node.Dict? {
      PathsPresent(d[0].node.entries);
      UnderMembers(d[0].key, Paths(d[0].node.entries));
    }
  }

  ghost predicate NewKeys(acc: Entries, d: Entries) {
    forall i :: 0 <= i < |d| ==> IndexOf(acc, d[i].key) == |acc|
  }

  lemma NewKeysStep(acc: Entries, d: Entries)
    requires d != [] && DistinctKeys(d) && NewKeys(acc, d)
    ensures NewKeys(acc + [d[0]], d[1..])
  {
    var acc' := acc + [d[0]];
    assert forall j :: 0 <= j < |acc| ==> acc'[j] == acc[j];
    forall i | 0 <= i < |d[1..]| ensures IndexOf(acc', d[1..][i].key) == |acc'| {
      var k := d[i + 1].key;
      assert k != d[0].key && IndexOf(acc, k) == |acc|;
    }
  }

  /** Inserting all paths of a clean dictionary appends its entries. */
  lemma {:induction false} InsertAllPaths(acc: Entries, d: Entries)
    requires Proper(d) && Clean(d) && NewKeys(acc, d)
    ensures NonEmptyPaths(Paths(d)) && InsertAll(Dict(acc), Paths(d)) == Done(Dict(acc + d))
    decreases d
  {
    if d == [] {
      assert acc + d == acc;
    } else {
      ProperTail(d);
      CleanTail(d);
      NewKeysStep(acc, d);
      InsertAllPaths(acc + [d[0]], d[1..]);
      HeadInserted(acc, d[0]);
      hide Proper, Clean, NewKeys, HeadPaths, InsertAll, NonEmptyPaths;
      assert acc + d == acc + [d[0]] + d[1..];
      InsertAllAppend(Dict(acc), HeadPaths(d[0]), Dict(acc + [d[0]]), Paths(d[1..]));
    }
  }

  lemma {:induction false} HeadInserted(acc: Entries, e: Entry)
    requires IndexOf(acc, e.key) == |acc|
    requires e.node.Dict? ==> e.node.entries != [] && Proper(e.node.entries) && Clean(e.node.entries)
    ensures NonEmptyPaths(HeadPaths(e)) && InsertAll(Dict(acc), HeadPaths(e)) == Done(Dict(acc + [e]))
    decreases e
  {
    var k := e.key;
    match e.node {
      case Dict(sub) =>
        assert NewKeys([], sub);
        InsertAllPaths([], sub);
        assert [] + sub == sub;
        PathsPresent(sub);
        hide Proper, Clean, InsertAll, Paths;
        InsertAllBelowNew(acc, k, Paths(sub), Dict(sub));
        assert e == Entry(k, Dict(sub));
      case Leaf(text) =>
        assert HeadPaths(e)[1..] == [];
        NestBelow(k, [], text);
        assert [k] + [] == [k];
        UpdateOne(acc, k, Leaf(text));
    }
  }

  /** The round trip: folding the update over the dotted names rebuilds a clean dictionary, entry by entry in order. */
  lemma RoundTrip(d: Entries)
    requires Proper(d) && Clean(d)
    ensures Rebuild(Dict([]), DictToDot(d, "")) == Done(Dict(d))
  {
    FlattenIsPaths(d, "");
    PathsNonEmpty(d);
    PathsDotFree(d);
    RebuildIsInsertAll(Dict([]), Paths(d));
    assert NewKeys([], d);
    InsertAllPaths([], d);
    assert [] + d == d;
  }

  // ---- Only clean dictionaries make the round trip ----

  ghost predicate CleanNode(n: Node) {
    n.Dict? ==> Clean(n.entries)
  }

  lemma {:induction false} NestClean(path: seq<Key>, value: string)
    requires Free(path, DOT)
    ensures CleanNode(Nest(path, value)) && (path != [] ==> Nest(path, value).Dict? && Nest(path, value).entries != [])
  {
    if path != [] {
      NestClean(path[1..], value);
    }
  }

  lemma PutClean(d: Entries, k: Key, v: Node)
    requires Clean(d) && DOT !in k && CleanNode(v) && (v.Dict? ==> v.entries != [])
    ensures Clean(Put(d, k, v)) && Put(d, k, v) != []
  {
  }

  lemma {:induction false} UpdateClean(original: Node, update: Entries)
    requires CleanNode(original) && Clean(update)
    ensures Update(original, update).Done? ==> CleanNode(Update(original, update).value)
    ensures Update(original, update).Done? && original.Dict? && (original.entries != [] || update != []) ==>
              Update(original, update).value.Dict? && Update(original, update).value.entries != []
    decreases update
  {
    if update != [] && original.Dict? {
      CleanTail(update);
      var Entry(k, v) := update[0];
      match v {
        case Leaf(_) =>
          PutClean(original.entries, k, v);
          UpdateClean(Dict(Put(original.entries, k, v)), update[1..]);
        case Dict(sub) =>
          var inner := GetOrEmpty(original.entries, k);
          UpdateClean(inner, sub);
          var r := Update(inner, sub);
          if r.Done? {
            PutClean(original.entries, k, r.value);
            UpdateClean(Dict(Put(original.entries, k, r.value)), update[1..]);
          }
      }
    }
  }

  lemma {:induction false} RebuildClean(acc: Node, pairs: seq<(string, string)>)
    requires CleanNode(acc)
    ensures Rebuild(acc, pairs).Done? ==> CleanNode(Rebuild(acc, pairs).value)
    decreases |pairs|
  {
    if pairs != [] {
      SplitFree(pairs[0].0, DOT);
      NestClean(Split(pairs[0].0, DOT), pairs[0].1);
      var one := DotToDict(pairs[0].0, pairs[0].1);
      UpdateClean(acc, one.entries);
      if Update(acc, one.entries).Done? {
        RebuildClean(Update(acc, one.entries).value, pairs[1..]);
      }
    }
  }

  /** A dictionary makes the round trip exactly when its keys have no dots and it has no empty dictionary inside. */
  lemma RoundTripIff(d: Entries)
    requires Proper(d)
    ensures Rebuild(Dict([]), DictToDot(d, "")) == Done(Dict(d)) <==> Clean(d)
  {
    if Clean(d) {
      RoundTrip(d);
    }
    RebuildClean(Dict([]), DictToDot(d, ""));
  }

  // ---- The dotted names are distinct ----

  ghost predicate DistinctPaths(ps: seq<(seq<Key>, string)>) {
    forall i, j :: 0 <= i < j < |ps| ==> ps[i].0 != ps[j].0
  }

  lemma {:induction false} NamedAt(ps: seq<(seq<Key>, string)>, i: nat)
    requires i < |ps|
    ensures |Named("", ps)| == |ps| && Named("", ps)[i] == (Join(ps[i].0, DOT), ps[i].1)
    decreases |ps|
  {
    assert "" + Join(ps[0].0, DOT) == Join(ps[0].0, DOT);
    if i > 0 {
      NamedAt(ps[1..], i - 1);
    } else if |ps| > 1 {
      NamedAt(ps[1..], 0);
    }
  }

  lemma {:induction false} PathHeads(d: Entries, i: nat)
    requires i < |Paths(d)|
    ensures Paths(d)[i].0 != [] && exists j :: 0 <= j < |d| && d[j].key == Paths(d)[i].0[0]
    decreases |d|
  {
    var head := HeadPaths(d[0]);
    if d[0].node.Dict? {
      UnderMembers(d[0].key, Paths(d[0].node.entries));
    }
    if i < |head| {
      assert Paths(d)[i] == head[i];
      assert d[0].key == Paths(d)[i].0[0];
    } else {
      assert Paths(d)[i] == Paths(d[1..])[i - |head|];
      PathHeads(d[1..], i - |head|);
      var j :| 0 <= j < |d[1..]| && d[1..][j].key == Paths(d)[i].0[0];
      assert d[j + 1].key == Paths(d)[i].0[0];
    }
  }

  lemma {:induction false} PathsDistinct(d: Entries)
    requires Proper(d)
    ensures DistinctPaths(Paths(d))
    decreases d
  {
    if d != [] {
      ProperTail(d);
      PathsDistinct(d[1..]);
      var head := HeadPaths(d[0]);
      if d[0].node.Dict? {
        PathsDistinct(d[0].node.entries);
        UnderDistinct(d[0].key, Paths(d[0].node.entries));
      }
      var ps := Paths(d);
      assert ps == head + Paths(d[1..]);
      forall i, j | 0 <= i < j < |ps| ensures ps[i].0 != ps[j].0 {
        if i < |head| <= j {
          HeadKey(d, i);
          PathHeads(d[1..], j - |head|);
          assert ps[j] == Paths(d[1..])[j - |head|];
          var n :| 0 <= n < |d[1..]| && d[1..][n].key == ps[j].0[0];
          assert d[n + 1].key != d[0].key;
        } else if |head| <= i {
          assert ps[i] == Paths(d[1..])[i - |head|] && ps[j] == Paths(d[1..])[j - |head|];
        }
      }
    }
  }

  lemma HeadKey(d: Entries, i: nat)
    requires d != []
    requires i < |HeadPaths(d[0])|
    ensures i < |Paths(d)| && Paths(d)[i].0 != [] && Paths(d)[i].0[0] == d[0].key
  {
    if d[0].node.Dict? {
      UnderMembers(d[0].key, Paths(d[0].node.entries));
    }
  }

  lemma UnderDistinct(k: Key, ps: seq<(seq<Key>, string)>)
    requires DistinctPaths(ps)
    ensures DistinctPaths(Under(k, ps))
  {
    UnderMembers(k, ps);
    forall i, j | 0 <= i < j < |ps| ensures Under(k, ps)[i].0 != Under(k, ps)[j].0 {
      assert ([k] + ps[i].0)[1..] == ps[i].0 && ([k] + ps[j].0)[1..] == ps[j].0;
    }
  }

  /** No dotted name is emitted twice. */
  lemma NamesDistinct(d: Entries)
    requires Proper(d) && Clean(d)
    ensures var names := DictToDot(d, ""); forall i, j :: 0 <= i < j < |names| ==> names[i].0 != names[j].0
  {
    var ps := Paths(d);
    FlattenIsPaths(d, "");
    PathsDistinct(d);
    PathsDotFree(d);
    PathsNonEmpty(d);
    var names := Named("", ps);
    forall i, j | 0 <= i < j < |names| ensures names[i].0 != names[j].0 {
      if ps != [] {
        NamedAt(ps, 0);
        NamedAt(ps, i);
        NamedAt(ps, j);
        SplitOfJoin(ps[i].0, DOT);
        SplitOfJoin(ps[j].0, DOT);
      }
    }
  }
}
