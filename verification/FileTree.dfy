/** fs/fs.c: finding, making and removing file nodes by path. */
module FileTree {
  import opened Bytes
  import opened Strings
  import opened FsTree

  const DELIM: seq<Byte> := [SLASH]

  /** The components of a path. */
  ghost function Parts(text: seq<Byte>): Names {
    Tokens(text, 0, |text|, DELIM)
  }

  lemma PartsOf(mem: seq<Byte>, p: nat)
    requires p <= |mem|
    ensures Tokens(mem, p, End(mem, p), DELIM) == Parts(Text(mem, p))
  {
    ShiftFields(mem, p, p, End(mem, p));
  }

  /** Cutting does not depend on where the text lies. */
  lemma {:induction false} ShiftFields(mem: seq<Byte>, base: nat, p: nat, e: nat)
    requires base <= p <= e <= |mem|
    ensures Fields(mem, p, e, DELIM) == Fields(mem[base..e], p - base, e - base, DELIM)
    decreases e - p
  {
    if p < e {
      ShiftFields(mem, base, p + 1, e);
    }
  }

  /** strrchr of a slash: the last one in the string. */
  method Strrchr(s: array<Byte>, p: nat) returns (found: Pointer)
    requires Ends(s[..], p)
    ensures found == if SLASH in Text(s[..], p) then To(p + LastSlash(Text(s[..], p))) else Null
  {
    ghost var t := Text(s[..], p);
    var end := StrEnd(s, p);
    var q := end;
    while q != p
      invariant p <= q <= end && forall i | q - p <= i < |t| :: t[i] != SLASH
    {
      q := q - 1;
      if s[q] == SLASH {
        LastSlashIs(t, q - p);
        return To(q);
      }
    }
    return Null;
  }

  /** The position of the last slash. */
  ghost function LastSlash(t: seq<Byte>): (j: nat)
    requires SLASH in t
    ensures j < |t| && t[j] == SLASH && forall i | j < i < |t| :: t[i] != SLASH
  {
    if t[|t| - 1] == SLASH then |t| - 1
    else
      assert t == t[..|t| - 1] + [t[|t| - 1]];
      LastSlash(t[..|t| - 1])
  }

  lemma LastSlashIs(t: seq<Byte>, j: nat)
    requires j < |t| && t[j] == SLASH && forall i | j < i < |t| :: t[i] != SLASH
    ensures SLASH in t && LastSlash(t) == j
  {
  }

  /** Everything up to the last slash, and what is behind it. */
  ghost function Dir(t: seq<Byte>): seq<Byte>
    requires SLASH in t
  {
    t[..LastSlash(t) + 1]
  }

  ghost function Base(t: seq<Byte>): seq<Byte>
    requires SLASH in t
  {
    t[LastSlash(t) + 1..]
  }

  /** The components of a path are those of its directory and its last name. */
  lemma PartsSplit(t: seq<Byte>)
    requires SLASH in t
    ensures Parts(t) == Append(Parts(Dir(t)), if Base(t) == [] then Nil else Cons(Base(t), Nil))
  {
    var j := LastSlash(t);
    TokensCut(t, 0, j, |t|, DELIM);
    TokensOfName(t, j + 1, |t|, DELIM);
    SameFields(t, Dir(t), 0, j + 1, DELIM);
    assert Base(t) == t[j + 1..|t|];
  }

  /** strip_tail_slash */
  ghost function Stripped(t: seq<Byte>): seq<Byte> {
    if t != [] && t[|t| - 1] == SLASH then t[..|t| - 1] else t
  }

  /** A slash at the end adds no component. */
  lemma StrippedParts(t: seq<Byte>)
    ensures Parts(Stripped(t)) == Parts(t)
  {
    if Stripped(t) != t {
      TrailingDelimiter(t, 0, |t| - 1);
      SameFields(t, Stripped(t), 0, |t| - 1, DELIM);
    }
  }

  lemma {:induction false} TrailingDelimiter(t: seq<Byte>, p: nat, j: nat)
    requires p <= j < |t| && t[j] == SLASH
    ensures Fields(t, p, j + 1, DELIM).head == Fields(t, p, j, DELIM).head
    ensures NonEmpty(Fields(t, p, j + 1, DELIM).tail) == NonEmpty(Fields(t, p, j, DELIM).tail)
    decreases j - p
  {
    if p < j {
      TrailingDelimiter(t, p + 1, j);
    } else {
      assert Fields(t, j + 1, j + 1, DELIM) == Cons([], Nil);
      assert Fields(t, j, j + 1, DELIM) == Cons([], Cons([], Nil));
    }
  }

  // ----- The operations on the tree -----

  /** Names are C strings, and the root is the directory that fs_init made. */
  ghost predicate Clean(t: Tree) {
    t.Valid() && (forall n | n in t.names :: 0 !in t.names[n]) && t.Name(t.root) == [SLASH] && !t.IsMount(t.root)
  }

  predicate OnlySlashes(text: seq<Byte>) {
    forall i | 0 <= i < |text| :: text[i] == SLASH
  }

  /** find_node */
  ghost function Lookup(t: Tree, text: seq<Byte>): int {
    t.Walk(t.root, Parts(text))
  }

  class FileSystem {
    var tree: Tree

    /** fs_init, before the special files: the root directory. */
    constructor (root: int)
      requires root != NULL
      ensures Clean(tree) && tree == Tree(root, map[root := [SLASH]], map[root := 0], map[root := []])
    {
      tree := Tree(root, map[root := [SLASH]], map[root := 0], map[root := []]);
    }

    /** The loop over the children of a node in find_node. */
    method ChildNamed(node: int, s: array<Byte>, p: nat) returns (next: int)
      requires Clean(tree) && node in tree.names && Ends(s[..], p)
      ensures next == tree.FirstNamed(tree.Children(node), Text(s[..], p), node) && next in tree.names
    {
      var kids := tree.children[node];
      ghost var name := Text(s[..], p);
      next := node;
      for i := 0 to |kids|
        invariant next == node && tree.FirstNamed(kids[i..], name, node) == tree.FirstNamed(kids, name, node)
      {
        var r := Strcmp(s, p, tree.names[kids[i]]);
        assert kids[i..][0] == kids[i] && kids[i..][1..] == kids[i + 1..] && kids[i] in kids;
        if r == 0 {
          return kids[i];
        }
      }
    }

    /** find_node: the whole path is walked, one token at a time. */
    method FindNode(path: array<Byte>) returns (node: int)
      requires Clean(tree) && Ends(path[..], 0)
      ensures node == Lookup(tree, Text(path[..], 0)) && (node != NULL ==> node in tree.names)
    {
      var buf := Strdup(path);
      PartsOf(buf[..], 0);
      var token, save := NextName(buf, To(0), 0);
      node := tree.root;
      ghost var goal := Lookup(tree, Text(path[..], 0));
      while token.To?
        invariant node in tree.names
        invariant token.To? ==> Ends(buf[..], token.at) && Ends(buf[..], save)
        invariant goal == tree.Walk(node, Ahead(buf[..], token, save))
        decreases Ahead(buf[..], token, save)
      {
        ghost var name, rest := Text(buf[..], token.at), NamesAt(buf[..], save);
        node := ChildNamed(node, buf, token.at);
        var r := Strcmp(buf, token.at, tree.names[node]);
        if r != 0 {
          return if tree.kinds[node] == MOUNT_POINT then node else NULL;
        }
        token, save := NextName(buf, Null, save);
      }
    }

    /** fs_getnode */
    method GetNode(path: array<Byte>) returns (node: int)
      requires Clean(tree) && Ends(path[..], 0) && SLASH in Text(path[..], 0)
      ensures node == Get(tree, Text(path[..], 0))
    {
      node := FindNode(path);
      var slash := Strrchr(path, 0);
      if node == NULL {
        return NULL;
      }
      BaseText(path[..], 0);
      var r := Strcmp(path, slash.at + 1, tree.names[node]);
      if r != 0 {
        return NULL;
      }
    }

    /** fs_mknode: a new last child of the node that the directory part leads to. */
    method MkNode(path: array<Byte>, kind: int, newNode: int) returns (ret: int)
      requires Clean(tree) && tree.Fresh(newNode) && Ends(path[..], 0) && Nameable(Text(path[..], 0))
      modifies this
      ensures Clean(tree)
      ensures Made(old(tree), Text(path[..], 0), kind, newNode, ret, tree)
    {
      var r := Strcmp(path, 0, [SLASH]);
      if r == 0 {
        return -1;
      }
      var dirPath, name := SplitPath(path);
      var parent := FindNode(dirPath);
      if parent == NULL {
        return -1;
      }
      WithIsValid(tree, parent, newNode, name, kind);
      tree := tree.With(parent, newNode, name, kind);
      ret := 0;
    }

    /** fs_rmnode. Nothing keeps the root itself from being freed once it has no children: the tree stays whole
        exactly when the path is "/" itself, or holds anything but slashes, or the root has children. */
    method RmNode(path: array<Byte>) returns (ret: int)
      requires Clean(tree) && Ends(path[..], 0)
      modifies this
      ensures Removed(old(tree), Text(path[..], 0), ret, tree)
      ensures Clean(tree) <==> !FreesRoot(old(tree), Text(path[..], 0))
    {
      FreesRootExactly(tree, Text(path[..], 0));
      var r := Strcmp(path, 0, [SLASH]);
      if r == 0 {
        return -1;
      }
      var target := FindNode(path);
      if target == NULL {
        return -1;
      }
      if tree.children[target] != [] {
        return -1;
      }
      if target != tree.root {
        WithoutIsValid(tree, target);
      }
      tree := tree.Without(target);
      ret := 0;
    }
  }

  /** The paths that make fs_rmnode free the root. */
  ghost predicate FreesRoot(t: Tree, text: seq<Byte>) {
    text != [SLASH] && OnlySlashes(text) && t.Children(t.root) == []
  }

  lemma {:induction false} PastAreSlashes(text: seq<Byte>, p: nat)
    requires p <= |text|
    ensures forall i | p <= i < Past(text, p, |text|, DELIM) :: text[i] == SLASH
    decreases |text| - p
  {
    if p < |text| {
      PastAreSlashes(text, p + 1);
    }
  }

  /** A path has no components exactly when it has nothing but slashes. */
  lemma NoParts(text: seq<Byte>)
    ensures Parts(text) == Nil <==> OnlySlashes(text)
  {
    TokensStep(text, 0, |text|, DELIM);
    PastAreSlashes(text, 0);
  }

  /** A childless root is found by no path that has a component: components have no slashes, so none is the root's
      name. */
  lemma FreesRootExactly(t: Tree, text: seq<Byte>)
    requires Clean(t)
    ensures FreesRoot(t, text) <==>
            text != [SLASH] && Lookup(t, text) == t.root && t.Children(t.root) == []
  {
    NoParts(text);
    TokensAreRuns(text, 0, |text|, DELIM);
    var parts := Parts(text);
    if t.Children(t.root) == [] && parts.Cons? {
      assert parts.head != [SLASH] by {
        assert parts.head != [] && parts.head[0] !in DELIM;
      }
    }
  }

  /** On a root without children, "//" frees it. */
  lemma RemovesRoot(t: Tree, ret: int, after: Tree)
    requires Clean(t) && t.Children(t.root) == [] && Removed(t, [SLASH, SLASH], ret, after)
    ensures ret == 0 && after == t.Without(t.root) && !Clean(after)
  {
    FreesRootExactly(t, [SLASH, SLASH]);
  }

  /** fs_getnode: the node found must have the path's last name. */
  ghost function Get(t: Tree, text: seq<Byte>): int
    requires SLASH in text
  {
    var node := Lookup(t, text);
    if node != NULL && Base(text) == t.Name(node) then node else NULL
  }

  /** fs_mknode looks for a slash in front of the last name, and uses it unchecked. */
  ghost predicate Nameable(text: seq<Byte>) {
    text == [SLASH] || SLASH in Stripped(text)
  }

  ghost predicate Made(t: Tree, text: seq<Byte>, kind: int, node: int, ret: int, after: Tree)
    requires Nameable(text)
  {
    if text == [SLASH] then ret == -1 && after == t
    else
      var st := Stripped(text);
      var parent := Lookup(t, Dir(st));
      if parent == NULL then ret == -1 && after == t
      else ret == 0 && after == t.With(parent, node, Base(st), kind)
  }

  ghost predicate Removed(t: Tree, text: seq<Byte>, ret: int, after: Tree) {
    var target := Lookup(t, text);
    if text == [SLASH] || target == NULL || t.Children(target) != [] then ret == -1 && after == t
    else ret == 0 && after == t.Without(target)
  }

  lemma BaseText(mem: seq<Byte>, p: nat)
    requires Ends(mem, p) && SLASH in Text(mem, p)
    ensures var j := LastSlash(Text(mem, p));
      Ends(mem, p + j + 1) && End(mem, p + j + 1) == End(mem, p) && Text(mem, p + j + 1) == Base(Text(mem, p))
  {
  }

  /** The names of the path that starts at `p`. */
  ghost function NamesAt(mem: seq<Byte>, p: nat): Names
    requires p <= |mem|
  {
    Tokens(mem, p, End(mem, p), DELIM)
  }

  /** The names that are still to be looked up: the current token and those behind the saved pointer. */
  ghost function Ahead(mem: seq<Byte>, token: Pointer, save: nat): Names {
    if token.To? && Ends(mem, token.at) && Ends(mem, save) then Cons(Text(mem, token.at), NamesAt(mem, save)) else Nil
  }

  /** strtok_r on a path. */
  method NextName(buf: array<Byte>, start: Pointer, savePtr: nat) returns (token: Pointer, save: nat)
    requires Ends(buf[..], if start.To? then start.at else savePtr)
    modifies buf
    ensures token.To? ==> Ends(buf[..], token.at) && Ends(buf[..], save)
    ensures Ahead(buf[..], token, save) == NamesAt(old(buf[..]), if start.To? then start.at else savePtr)
  {
    ghost var mem, p := buf[..], if start.To? then start.at else savePtr;
    token, save := StrtokR(buf, start, DELIM, savePtr);
    TookMeans(mem, p, DELIM, savePtr, token, save, buf[..]);
  }

  /** malloc and memcpy of the first `n` bytes, with a zero behind them. */
  method Prefix(path: array<Byte>, n: nat) returns (buf: array<Byte>)
    requires Ends(path[..], 0) && n <= |Text(path[..], 0)|
    ensures fresh(buf) && Ends(buf[..], 0) && Text(buf[..], 0) == Text(path[..], 0)[..n]
  {
    buf := new Byte[n + 1](_ => 0);
    for i := 0 to n
      invariant buf[..i] == path[..i] && buf[n] == 0
    {
      buf[i] := path[i];
    }
    assert forall i | 0 <= i < n :: buf[..][i] == path[..n][i];
    EndIs(buf[..], 0, n);
  }

  /** strip_tail_slash into a buffer of its own. */
  method StripTailSlash(path: array<Byte>) returns (buf: array<Byte>)
    requires Ends(path[..], 0) && SLASH in Text(path[..], 0)
    ensures fresh(buf) && Ends(buf[..], 0) && Text(buf[..], 0) == Stripped(Text(path[..], 0))
  {
    var tailSlash := Strrchr(path, 0);
    var length := StrEnd(path, 0);
    if path[tailSlash.at + 1] == 0 {
      buf := Prefix(path, length - 1);
    } else {
      buf := Prefix(path, length);
    }
  }

  /** The directory part of a path and the name behind it, as fs_mknode finds them. */
  method SplitPath(path: array<Byte>) returns (dirPath: array<Byte>, name: seq<Byte>)
    requires Ends(path[..], 0) && SLASH in Stripped(Text(path[..], 0))
    ensures fresh(dirPath) && Ends(dirPath[..], 0)
    ensures Text(dirPath[..], 0) == Dir(Stripped(Text(path[..], 0)))
    ensures name == Base(Stripped(Text(path[..], 0))) && 0 !in name
  {
    var stripped := StripTailSlash(path);
    var slash := Strrchr(stripped, 0);
    BaseText(stripped[..], 0);
    var end := StrEnd(stripped, slash.at + 1);
    name := stripped[slash.at + 1..end];
    dirPath := Prefix(stripped, slash.at + 1);
  }

  /** malloc and strcpy of a path. */
  method Strdup(path: array<Byte>) returns (buf: array<Byte>)
    requires Ends(path[..], 0)
    ensures fresh(buf) && Ends(buf[..], 0) && Text(buf[..], 0) == Text(path[..], 0)
  {
    var end := StrEnd(path, 0);
    buf := Prefix(path, end);
    assert Text(path[..], 0)[..end] == Text(path[..], 0);
  }

  // ----- Paths that do not exist -----

  const STDIO: seq<Byte> := [0x73, 0x74, 0x64, 0x69, 0x6F]
  const DISK: seq<Byte> := [0x64, 0x69, 0x73, 0x6B]
  const PIPE: seq<Byte> := [0x70, 0x69, 0x70, 0x65]
  const SPECIAL := 0x20

  /** The tree after fs_init: the root with stdio, disk and pipe. */
  ghost function Initial(root: int, stdio: int, disk: int, pipe: int): Tree {
    Tree(root, map[root := [SLASH], stdio := STDIO, disk := DISK, pipe := PIPE],
         map[root := 0, stdio := SPECIAL, disk := MOUNT_POINT, pipe := SPECIAL],
         map[root := [stdio, disk, pipe], stdio := [], disk := [], pipe := []])
  }

  /** The path of two components. */
  function TwoNames(a: seq<Byte>, b: seq<Byte>): seq<Byte> { [0x2F] + a + [0x2F] + b }

  lemma NameParts(a: seq<Byte>)
    requires a != [] && SLASH !in a
    ensures Parts([SLASH] + a) == Cons(a, Nil)
  {
    var t := [SLASH] + a;
    LastSlashIs(t, 0);
    PartsSplit(t);
    assert Base(t) == a && Dir(t) == [SLASH];
    NoParts([SLASH]);
  }

  lemma TwoParts(a: seq<Byte>, b: seq<Byte>)
    requires a != [] && b != [] && SLASH !in a && SLASH !in b
    ensures Parts(TwoNames(a, b)) == Cons(a, Cons(b, Nil))
  {
    var t := TwoNames(a, b);
    LastSlashIs(t, |a| + 1);
    PartsSplit(t);
    assert Base(t) == b && Dir(t) == [SLASH] + a + [SLASH];
    assert Stripped(Dir(t)) == [SLASH] + a;
    StrippedParts(Dir(t));
    NameParts(a);
  }

  ghost predicate FourNodes(root: int, stdio: int, disk: int, pipe: int) {
    && root != NULL && stdio != NULL && disk != NULL && pipe != NULL
    && root != stdio && root != disk && root != pipe && stdio != disk && stdio != pipe && disk != pipe
  }

  /** It is what the three calls of fs_mknode make. */
  lemma InitialIsMade(root: int, stdio: int, disk: int, pipe: int)
    requires FourNodes(root, stdio, disk, pipe)
    ensures Initial(root, stdio, disk, pipe) ==
            Tree(root, map[root := [SLASH]], map[root := 0], map[root := []])
              .With(root, stdio, STDIO, SPECIAL).With(root, disk, DISK, MOUNT_POINT).With(root, pipe, PIPE, SPECIAL)
  {
    assert [] + [stdio] == [stdio] && [stdio] + [disk] == [stdio, disk];
    assert [stdio, disk] + [pipe] == [stdio, disk, pipe];
  }

  lemma InitialIsClean(root: int, stdio: int, disk: int, pipe: int)
    requires FourNodes(root, stdio, disk, pipe)
    ensures Clean(Initial(root, stdio, disk, pipe))
  {
  }

  /** The child of the initial root of that name. */
  lemma InitialChild(root: int, stdio: int, disk: int, pipe: int, name: seq<Byte>)
    requires FourNodes(root, stdio, disk, pipe) && (name == DISK || name == PIPE)
    ensures var t := Initial(root, stdio, disk, pipe);
      t.FirstNamed(t.Children(root), name, NULL) == if name == DISK then disk else pipe
  {
    var t := Initial(root, stdio, disk, pipe);
    var kids := t.Children(root);
    assert kids[0] == stdio && kids[1..] == [disk, pipe] && kids[1..][1..] == [pipe];
    assert STDIO[0] != DISK[0] && STDIO[0] != PIPE[0] && DISK[0] != PIPE[0];
    assert t.FirstNamed([pipe], PIPE, NULL) == pipe;
    assert t.FirstNamed([disk, pipe], name, NULL) == if name == DISK then disk else pipe;
  }

  /** Nothing is below disk and pipe, so there the search is at its last component. */
  lemma BelowChild(root: int, stdio: int, disk: int, pipe: int, name: seq<Byte>, last: seq<Byte>)
    requires FourNodes(root, stdio, disk, pipe) && (name == DISK || name == PIPE) && last != [] && SLASH !in last
    ensures var t := Initial(root, stdio, disk, pipe); var child := if name == DISK then disk else pipe;
      && t.Exact(root, Parts(TwoNames(name, last))) == NULL
      && Lookup(t, TwoNames(name, last)) == if name == last then child else if t.IsMount(child) then child else NULL
  {
    var t := Initial(root, stdio, disk, pipe);
    var child := if name == DISK then disk else pipe;
    InitialIsClean(root, stdio, disk, pipe);
    InitialChild(root, stdio, disk, pipe, name);
    TwoParts(name, last);
    WalkReaches(t, root, Parts(TwoNames(name, last)));
    WalkMissing(t, child, last, Nil);
  }

  /** After fs_init, "/pipe/pipe" names nothing, yet it finds the pipe, fs_getnode returns it, and fs_rmnode removes
      it. */
  lemma PipePipe(root: int, stdio: int, disk: int, pipe: int, ret: int, after: Tree)
    requires FourNodes(root, stdio, disk, pipe)
    requires Removed(Initial(root, stdio, disk, pipe), TwoNames(PIPE, PIPE), ret, after)
    ensures var t := Initial(root, stdio, disk, pipe); var path := TwoNames(PIPE, PIPE);
      && t.Exact(root, Parts(path)) == NULL && Get(t, path) == pipe && ret == 0 && after == t.Without(pipe)
  {
    BelowChild(root, stdio, disk, pipe, PIPE, PIPE);
    LastSlashIs(TwoNames(PIPE, PIPE), 5);
    assert Base(TwoNames(PIPE, PIPE)) == PIPE;
  }

  /** After fs_init, no node is at "/disk/x", yet the path finds the mount point, and fs_rmnode removes it. */
  lemma DiskX(root: int, stdio: int, disk: int, pipe: int, ret: int, after: Tree)
    requires FourNodes(root, stdio, disk, pipe)
    requires Removed(Initial(root, stdio, disk, pipe), TwoNames(DISK, [0x78]), ret, after)
    ensures var t := Initial(root, stdio, disk, pipe); var path := TwoNames(DISK, [0x78]);
      && t.Exact(root, Parts(path)) == NULL && Lookup(t, path) == disk && ret == 0 && after == t.Without(disk)
  {
    BelowChild(root, stdio, disk, pipe, DISK, [0x78]);
  }

  // ----- What the operations promise -----

  /** No search comes to a node without a name, unless it starts there. */
  lemma {:induction false} WalkEndsNamed(t: Tree, n: int, path: Names)
    requires t.Valid() && AllRuns(path, DELIM) && t.Walk(n, path) != NULL
    ensures t.Walk(n, path) == n || t.Name(t.Walk(n, path)) != []
    decreases path
  {
    if path.Cons? {
      var next := t.FirstNamed(t.Children(n), path.head, n);
      FirstNamedIs(t, t.Children(n), path.head, n);
      if t.Name(next) == path.head {
        WalkEndsNamed(t, next, path.tail);
      }
    }
  }

  lemma RootIsOlder(t: Tree, text: seq<Byte>, node: int, name: seq<Byte>, kind: int, parent: int)
    requires Clean(t) && t.Fresh(node) && parent in t.names && name == []
    ensures Lookup(t.With(parent, node, name, kind), text) != node
  {
    var u := t.With(parent, node, name, kind);
    WithIsValid(t, parent, node, name, kind);
    TokensAreRuns(text, 0, |text|, DELIM);
    if u.Walk(u.root, Parts(text)) != NULL {
      WalkEndsNamed(u, u.root, Parts(text));
    }
  }

  /** After fs_mknode of a path with an existing directory, fs_getnode of that path returns the new node exactly when
      the path does not end with a slash, which fs_mknode strips and fs_getnode does not, and named nothing before. */
  lemma MakeThenGet(t: Tree, text: seq<Byte>, kind: int, node: int, ret: int, made: Tree)
    requires Clean(t) && t.Fresh(node) && text != [SLASH] && SLASH in Stripped(text) && SLASH in text
    requires t.Exact(t.root, Parts(Dir(Stripped(text)))) != NULL && Made(t, text, kind, node, ret, made)
    ensures ret == 0
    ensures Get(made, text) == node <==> text[|text| - 1] != SLASH && t.Exact(t.root, Parts(text)) == NULL
  {
    var st := Stripped(text);
    var dir := Parts(Dir(st));
    WalkIsExact(t, t.root, dir);
    ExactKnown(t, t.root, dir);
    if text[|text| - 1] == SLASH {
      LastSlashIs(text, |text| - 1);
      assert Base(text) == [];
      if Base(st) == [] {
        RootIsOlder(t, text, node, Base(st), kind, t.Exact(t.root, dir));
      }
    } else {
      PartsSplit(st);
      assert Base(st) != [] by {
        assert LastSlash(st) < |st| - 1;
      }
      NewNodeIsFound(t, node, Base(st), kind, dir);
    }
  }

  /** "/a", and the same with a slash behind it. */
  ghost function PathA(tail: seq<Byte>): (r: seq<Byte>)
    requires tail == [] || tail == [SLASH]
    ensures SLASH in r && r != [SLASH] && Stripped(r) == [SLASH, 0x61] && SLASH in Stripped(r)
  {
    assert ([SLASH, 0x61] + tail)[0] == SLASH && [SLASH, 0x61][0] == SLASH;
    [SLASH, 0x61] + tail
  }

  /** On a root without children, as fs_init makes it first, fs_mknode of "/a/" succeeds; the node is at "/a", and
      fs_getnode finds nothing at "/a/". */
  lemma SlashAtEnd(t: Tree, kind: int, node: int, ret: int, made: Tree)
    requires Clean(t) && t.Children(t.root) == [] && t.Fresh(node) && Made(t, PathA([0x2F]), kind, node, ret, made)
    ensures ret == 0 && made == t.With(t.root, node, [0x61], kind)
    ensures Get(made, PathA([0x2F])) == NULL && Get(made, PathA([])) == node
  {
    var st := PathA([]);
    LastSlashIs(st, 0);
    LastSlashIs(PathA([SLASH]), 2);
    assert Dir(st) == [SLASH] && Base(st) == [0x61] && Base(PathA([SLASH])) == [];
    NoParts([SLASH]);
    NameParts([0x61]);
    assert [SLASH] + [0x61] == st;
    StrippedParts(PathA([SLASH]));
    MakeThenGet(t, st, kind, node, 0, made);
  }

  /** Every lookup by existing components still finds what it found before. */
  lemma MakeKeepsLookups(t: Tree, parent: int, node: int, name: seq<Byte>, kind: int, text: seq<Byte>)
    requires Clean(t) && t.Fresh(node) && parent in t.names && SLASH in text
    requires t.Exact(t.root, Parts(text)) != NULL
    ensures Lookup(t.With(parent, node, name, kind), text) == Lookup(t, text) == t.Exact(t.root, Parts(text))
    ensures Get(t.With(parent, node, name, kind), text) == Get(t, text)
  {
    var u := t.With(parent, node, name, kind);
    ExactKept(t, parent, node, name, kind, t.root, Parts(text));
    WithIsValid(t, parent, node, name, kind);
    WalkIsExact(t, t.root, Parts(text));
    WalkIsExact(u, u.root, Parts(text));
    ExactKnown(t, t.root, Parts(text));
  }

  lemma {:induction false} ExactKnown(t: Tree, n: int, path: Names)
    requires t.Valid() && n in t.names && t.Exact(n, path) != NULL
    ensures t.Exact(n, path) in t.names
    decreases path
  {
    if path.Cons? {
      FirstNamedIs(t, t.Children(n), path.head, NULL);
      ChildrenKnown(t, n);
      ExactKnown(t, t.FirstNamed(t.Children(n), path.head, NULL), path.tail);
    }
  }

  /** fs_rmnode of a path that fs_mknode just made gives the old tree back, with a slash at the end or without. */
  lemma RemoveUndoesMake(t: Tree, text: seq<Byte>, kind: int, node: int, made: Tree, ret: int, after: Tree)
    requires Clean(t) && t.Fresh(node) && text != [SLASH] && SLASH in Stripped(text)
    requires t.Exact(t.root, Parts(Dir(Stripped(text)))) != NULL && t.Exact(t.root, Parts(text)) == NULL
    requires Made(t, text, kind, node, 0, made) && Removed(made, text, ret, after)
    ensures ret == 0 && after == t
  {
    var st := Stripped(text);
    var parent := t.Exact(t.root, Parts(Dir(st)));
    WalkIsExact(t, t.root, Parts(Dir(st)));
    ExactKnown(t, t.root, Parts(Dir(st)));
    StrippedParts(text);
    PartsSplit(st);
    AppendNothing(Parts(Dir(st)));
    NewNodeIsFound(t, node, Base(st), kind, Parts(Dir(st)));
    WithoutUndoesWith(t, parent, node, Base(st), kind);
  }

  lemma {:induction false} AppendNothing(a: Names)
    ensures Append(a, Nil) == a
  {
    if a.Cons? {
      AppendNothing(a.tail);
    }
  }
}
