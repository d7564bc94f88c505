/** The tree of file nodes of fs/fs.c as a value, and paths as lists of names. */
module FsTree {
  import opened Bytes
  import opened Strings

  const NULL := 0
  const MOUNT_POINT := 0x10

  /** file_node_t structures by address. The children of a node are in list order. */
  datatype Tree = Tree(root: int, names: map<int, seq<Byte>>, kinds: map<int, int>, children: map<int, seq<int>>)
  {
    ghost predicate Valid() {
      && root in names && NULL !in names && names.Keys == kinds.Keys == children.Keys
      && (forall n | n in children :: forall c | c in children[n] :: c in names)
    }

    ghost predicate Fresh(node: int) {
      node != NULL && node !in names
    }

    function Name(node: int): seq<Byte> { if node in names then names[node] else [] }

    function Children(node: int): seq<int> { if node in children then children[node] else [] }

    predicate IsMount(node: int) { node in kinds && kinds[node] == MOUNT_POINT }

    /** The first of `nodes` called `name`, or `other`. */
    ghost function FirstNamed(nodes: seq<int>, name: seq<Byte>, other: int): int {
      if nodes == [] then other
      else if Name(nodes[0]) == name then nodes[0]
      else FirstNamed(nodes[1..], name, other)
    }

    /** find_node from `node` on. */
    ghost function Walk(node: int, path: Names): int
      decreases path
    {
      match path
      case Nil => node
      case Cons(name, rest) =>
        var next := FirstNamed(Children(node), name, node);
        if Name(next) == name then Walk(next, rest)
        else if IsMount(next) then next else NULL
    }

    /** The node that the components name, each a child of the one before. */
    ghost function Exact(node: int, path: Names): int
      decreases path
    {
      match path
      case Nil => node
      case Cons(name, rest) =>
        var next := FirstNamed(Children(node), name, NULL);
        if next == NULL then NULL else Exact(next, rest)
    }

    /** The node that the existing part of the path leads to, and the components that are missing from there on. */
    ghost function Deepest(node: int, path: Names): (r: (int, Names))
      ensures Count(r.1) <= Count(path)
      decreases path
    {
      match path
      case Nil => (node, Nil)
      case Cons(name, rest) =>
        var next := FirstNamed(Children(node), name, NULL);
        if next == NULL then (node, path) else Deepest(next, rest)
    }

    /** Something is missing, and the node it is missing from neither ends the search as a mount point nor has the
        missing name itself, in which case the rest of the path is looked for below it again. */
    ghost predicate Lost(node: int, path: Names)
      decreases Count(path)
    {
      var (at, missing) := Deepest(node, path);
      && missing.Cons?
      && if Name(at) == missing.head then Lost(at, missing.tail) else !IsMount(at)
    }

    /** alloc_node and list_add_before. */
    function With(parent: int, node: int, name: seq<Byte>, kind: int): Tree {
      Tree(root, names[node := name], kinds[node := kind], children[node := []][parent := Children(parent) + [node]])
    }

    /** list_del and free_node: the node is in no list any more. */
    function Without(node: int): Tree {
      Tree(root, names - {node}, kinds - {node}, map n | n in children && n != node :: Drop(children[n], node))
    }
  }

  ghost function Count(path: Names): nat {
    match path
    case Nil => 0
    case Cons(_, rest) => 1 + Count(rest)
  }

  function Drop(nodes: seq<int>, node: int): (r: seq<int>)
    ensures forall c | c in r :: c in nodes
    ensures node !in nodes ==> r == nodes
  {
    if nodes == [] then []
    else
      assert nodes[1..] <= nodes[1..] && nodes == [nodes[0]] + nodes[1..];
      if nodes[0] == node then Drop(nodes[1..], node) else [nodes[0]] + Drop(nodes[1..], node)
  }

  // ----- Lookups -----

  lemma {:induction false} FirstNamedIs(t: Tree, nodes: seq<int>, name: seq<Byte>, other: int)
    ensures t.FirstNamed(nodes, name, other) == other || t.FirstNamed(nodes, name, other) in nodes
    ensures t.FirstNamed(nodes, name, other) != other ==> t.Name(t.FirstNamed(nodes, name, other)) == name
  {
    if nodes != [] {
      FirstNamedIs(t, nodes[1..], name, other);
    }
  }

  /** With or without a fallback, the same child is found. */
  lemma {:induction false} OtherFallback(t: Tree, nodes: seq<int>, name: seq<Byte>, other: int)
    requires NULL !in nodes
    ensures t.FirstNamed(nodes, name, other) ==
            if t.FirstNamed(nodes, name, NULL) == NULL then other else t.FirstNamed(nodes, name, NULL)
  {
    if nodes != [] {
      OtherFallback(t, nodes[1..], name, other);
    }
  }

  lemma ChildrenKnown(t: Tree, node: int)
    requires t.Valid()
    ensures NULL !in t.Children(node) && forall c | c in t.Children(node) :: c in t.names
  {
  }

  /** A path whose components all exist is found exactly. */
  lemma {:induction false} WalkIsExact(t: Tree, node: int, path: Names)
    requires t.Valid() && t.Exact(node, path) != NULL
    ensures t.Walk(node, path) == t.Exact(node, path)
    decreases path
  {
    if path.Cons? {
      ChildrenKnown(t, node);
      OtherFallback(t, t.Children(node), path.head, node);
      var next := t.FirstNamed(t.Children(node), path.head, NULL);
      FirstNamedIs(t, t.Children(node), path.head, NULL);
      WalkIsExact(t, next, path.tail);
    }
  }

  /** A missing component stops the search, at a mount point with the mount point; but where it repeats the name of the
      node it should be a child of, the search stays on that node and goes on. */
  lemma WalkMissing(t: Tree, node: int, name: seq<Byte>, rest: Names)
    requires t.Valid() && t.FirstNamed(t.Children(node), name, NULL) == NULL
    ensures t.Walk(node, Cons(name, rest)) ==
            if t.Name(node) == name then t.Walk(node, rest) else if t.IsMount(node) then node else NULL
  {
    ChildrenKnown(t, node);
    OtherFallback(t, t.Children(node), name, node);
  }

  /** The search comes as far as the path exists. */
  lemma {:induction false} WalkReaches(t: Tree, node: int, path: Names)
    requires t.Valid() && node in t.names
    ensures var (at, missing) := t.Deepest(node, path);
      && t.Walk(node, path) == t.Walk(at, missing) && at in t.names
      && (missing.Cons? ==> t.FirstNamed(t.Children(at), missing.head, NULL) == NULL)
      && (missing == Nil <==> t.Exact(node, path) != NULL)
    decreases path
  {
    if path.Cons? {
      ChildrenKnown(t, node);
      OtherFallback(t, t.Children(node), path.head, node);
      FirstNamedIs(t, t.Children(node), path.head, NULL);
      var next := t.FirstNamed(t.Children(node), path.head, NULL);
      if next != NULL {
        WalkReaches(t, next, path.tail);
      }
    }
  }

  /** find_node fails exactly on the paths that are lost; in particular it finds something for every other path, whether
      its components exist or not. */
  lemma {:induction false} WalkFails(t: Tree, node: int, path: Names)
    requires t.Valid() && node in t.names
    ensures t.Walk(node, path) == NULL <==> t.Lost(node, path)
    ensures t.Lost(node, path) ==> t.Exact(node, path) == NULL
    decreases Count(path)
  {
    WalkReaches(t, node, path);
    var (at, missing) := t.Deepest(node, path);
    if missing.Cons? {
      WalkMissing(t, at, missing.head, missing.tail);
      if t.Name(at) == missing.head {
        WalkFails(t, at, missing.tail);
      }
    }
  }

  // ----- Adding and removing -----

  lemma WithIsValid(t: Tree, parent: int, node: int, name: seq<Byte>, kind: int)
    requires t.Valid() && t.Fresh(node) && parent in t.names
    ensures t.With(parent, node, name, kind).Valid()
  {
  }

  lemma {:induction false} FirstNamedKept(t: Tree, u: Tree, nodes: seq<int>, name: seq<Byte>, other: int)
    requires forall c | c in nodes :: t.Name(c) == u.Name(c)
    ensures t.FirstNamed(nodes, name, other) == u.FirstNamed(nodes, name, other)
  {
    if nodes != [] {
      FirstNamedKept(t, u, nodes[1..], name, other);
    }
  }

  lemma {:induction false} FirstNamedAppend(t: Tree, nodes: seq<int>, last: int, name: seq<Byte>)
    requires NULL !in nodes && last != NULL
    ensures t.FirstNamed(nodes + [last], name, NULL) ==
            if t.FirstNamed(nodes, name, NULL) != NULL then t.FirstNamed(nodes, name, NULL)
            else if t.Name(last) == name then last else NULL
  {
    if nodes == [] {
      assert [] + [last] == [last] && [last][1..] == [];
    } else {
      FirstNamedAppend(t, nodes[1..], last, name);
      assert (nodes + [last])[1..] == nodes[1..] + [last];
    }
  }

  /** The new node is found among its parent's children only, and only where no older child has its name. */
  lemma FoundAfter(t: Tree, parent: int, node: int, name: seq<Byte>, kind: int, n: int, sought: seq<Byte>)
    requires t.Valid() && t.Fresh(node) && parent in t.names && n in t.names
    ensures var u := t.With(parent, node, name, kind); var before := t.FirstNamed(t.Children(n), sought, NULL);
      u.FirstNamed(u.Children(n), sought, NULL) ==
      if before == NULL && n == parent && sought == name then node else before
  {
    var u := t.With(parent, node, name, kind);
    ChildrenKnown(t, n);
    FirstNamedKept(t, u, t.Children(n), sought, NULL);
    if n == parent {
      FirstNamedAppend(u, t.Children(n), node, sought);
    }
  }

  /** No lookup that found its node before finds another one now. */
  lemma {:induction false} ExactKept(t: Tree, parent: int, node: int, name: seq<Byte>, kind: int, n: int, path: Names)
    requires t.Valid() && t.Fresh(node) && parent in t.names && n in t.names
    requires t.Exact(n, path) != NULL
    ensures t.With(parent, node, name, kind).Exact(n, path) == t.Exact(n, path)
    decreases path
  {
    if path.Cons? {
      FoundAfter(t, parent, node, name, kind, n, path.head);
      var next := t.FirstNamed(t.Children(n), path.head, NULL);
      FirstNamedIs(t, t.Children(n), path.head, NULL);
      ChildrenKnown(t, n);
      ExactKept(t, parent, node, name, kind, next, path.tail);
    }
  }

  lemma {:induction false} ExactAppend(t: Tree, n: int, path: Names, last: seq<Byte>)
    requires t.Exact(n, path) != NULL
    ensures t.Exact(n, Append(path, Cons(last, Nil))) == t.FirstNamed(t.Children(t.Exact(n, path)), last, NULL)
    decreases path
  {
    if path.Cons? {
      ExactAppend(t, t.FirstNamed(t.Children(n), path.head, NULL), path.tail, last);
    }
  }

  /** The new node is what its path leads to exactly when its parent had no child of that name. */
  lemma NewNodeIsFound(t: Tree, node: int, name: seq<Byte>, kind: int, dir: Names)
    requires t.Valid() && t.Fresh(node) && t.Exact(t.root, dir) in t.names
    ensures var parent := t.Exact(t.root, dir); var u := t.With(parent, node, name, kind);
      u.Walk(u.root, Append(dir, Cons(name, Nil))) == node <==> t.Exact(t.root, Append(dir, Cons(name, Nil))) == NULL
  {
    var parent := t.Exact(t.root, dir);
    var u := t.With(parent, node, name, kind);
    ExactKept(t, parent, node, name, kind, t.root, dir);
    ExactAppend(t, t.root, dir, name);
    ExactAppend(u, t.root, dir, name);
    FoundAfter(t, parent, node, name, kind, parent, name);
    FirstNamedIs(t, t.Children(parent), name, NULL);
    ChildrenKnown(t, parent);
    WithIsValid(t, parent, node, name, kind);
    WalkIsExact(u, u.root, Append(dir, Cons(name, Nil)));
  }

  lemma {:induction false} DropLast(nodes: seq<int>, node: int)
    requires node !in nodes
    ensures Drop(nodes + [node], node) == nodes
  {
    if nodes == [] {
      assert [] + [node] == [node] && [node][1..] == [];
    } else {
      DropLast(nodes[1..], node);
      assert (nodes + [node])[1..] == nodes[1..] + [node];
      assert nodes == [nodes[0]] + nodes[1..];
    }
  }

  lemma ChildrenUndone(t: Tree, parent: int, node: int, name: seq<Byte>, kind: int)
    requires t.Valid() && t.Fresh(node) && parent in t.names
    ensures t.With(parent, node, name, kind).Without(node).children == t.children
  {
    var u := t.With(parent, node, name, kind);
    DropLast(t.children[parent], node);
    forall n | n in t.children ensures u.Without(node).children[n] == t.children[n] {
      assert node !in t.children[n];
    }
  }

  /** Removing the node that was added gives the tree back. */
  lemma WithoutUndoesWith(t: Tree, parent: int, node: int, name: seq<Byte>, kind: int)
    requires t.Valid() && t.Fresh(node) && parent in t.names
    ensures t.With(parent, node, name, kind).Without(node) == t
  {
    var u := t.With(parent, node, name, kind);
    ChildrenUndone(t, parent, node, name, kind);
    assert u.Without(node).names == t.names && u.Without(node).kinds == t.kinds;
  }

  lemma WithoutIsValid(t: Tree, node: int)
    requires t.Valid() && node != t.root
    ensures t.Without(node).Valid()
  {
    forall n | n in t.children && n != node ensures node !in Drop(t.children[n], node) {
      Dropped(t.children[n], node);
    }
  }

  lemma {:induction false} Dropped(nodes: seq<int>, node: int)
    ensures node !in Drop(nodes, node)
  {
    if nodes != [] {
      Dropped(nodes[1..], node);
    }
  }
}
