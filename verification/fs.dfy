/**
 * src/fs/fs.c as it runs: the node pool is an array, the cursor and the
 * node counter are fields, and every operation walks and rewrites the
 * `next`/`children` links in place.  Each method is proved to leave the
 * array in the state the matching function of FsTree describes, so the
 * properties proved there carry over.
 */
module Fs {
  import opened Base
  import KLib
  import opened FsTree

  class FileSystem {
    /** The node pool; slot 0 stands for the static root_dir. */
    const nodes: array<Node>
    /** node_count: the next free slot. */
    var nodeCount: nat
    /** current_dir. */
    var cwd: int
    /** Each created node's children, in link order (bookkeeping only). */
    ghost var kids: seq<seq<int>>
    /** Each created node's distance from the root (bookkeeping only). */
    ghost var depth: seq<nat>

    ghost function Model(): Tree
      reads this, nodes
    {
      Tree(nodes[..], nodeCount, cwd, kids, depth)
    }

    ghost predicate Valid()
      reads this, nodes
    {
      Wf(Model())
    }

    /** fs_init: only the root exists, and it is the current directory. */
    constructor ()
      ensures Valid()
      ensures nodeCount == 1 && cwd == ROOT && nodes[ROOT] == RootNode && kids == [[]]
      ensures PwdText(Model()) == "/" && FsTree.Ls(Model(), "") == Some([])
    {
      nodes := new Node[POOL](_ => Blank);
      nodeCount := 1;
      cwd := ROOT;
      kids := [[]];
      depth := [0];
      new;
      nodes[ROOT] := RootNode;
      assert NodeOk(Model(), ROOT) && ChildrenOk(Model(), ROOT);
    }

    /** fs_create_node: takes the next slot for a child of current_dir, or NIL when the pool is full. */
    method CreateNode(name: Text, kind: Kind) returns (n: int)
      requires Valid() && |name| < MAX_FILENAME_LEN
      modifies this, nodes
      ensures Valid()
      ensures (Model(), n) == Create(old(Model()), name, kind)
    {
      ghost var t := Model();
      CreateOutcome(t, name, kind);
      if nodeCount >= POOL {
        return NIL;
      }
      n := nodeCount;
      nodeCount := nodeCount + 1;
      nodes[n] := Node(name, kind, None, 0, cwd, NIL, NIL);
      kids := kids + [[]];
      depth := depth + [depth[cwd] + 1];
    }

    /** The loop shared by fs_find_file and fs_find_dir. */
    method FindChild(name: Text, kind: Kind) returns (r: int)
      requires Valid()
      ensures r == Find(Model(), name, kind)
    {
      assert ChildrenOk(Model(), cwd);
      r := ScanList(nodes, nodes[cwd].children, kids[cwd], name, kind);
    }

    /** The walk along a `next`-linked list for the first node with this name and kind. */
    static method ScanList(nodes: array<Node>, first: int, ghost l: seq<int>, name: Text, kind: Kind)
      returns (r: int)
      requires Linked(nodes[..], first, l)
      ensures r == (var j := FirstMatch(nodes[..], l, name, kind); if j < |l| then l[j] else NIL)
    {
      ghost var ns := nodes[..];
      ghost var m := FirstMatch(ns, l, name, kind);
      var cur := first;
      ghost var j := 0;
      while cur != NIL
        invariant 0 <= j <= m
        invariant cur == (if j < |l| then l[j] else NIL)
        decreases |l| - j
      {
        var node := nodes[cur];
        var same := KLib.TextEq(node.name, name);
        assert nodes[..] == ns;
        if same && node.kind == kind {
          assert Named(ns[l[j]], name, kind);
          assert m == j;
          return cur;
        }
        assert !Named(ns[l[j]], name, kind);
        cur := node.next;
        j := j + 1;
      }
      assert m == |l|;
      return NIL;
    }

    /** fs_find_file. */
    method FindFile(name: Text) returns (r: int)
      requires Valid()
      ensures r == Find(Model(), name, File)
    {
      r := FindChild(name, File);
    }

    /** fs_find_dir. */
    method FindDir(name: Text) returns (r: int)
      requires Valid()
      ensures r == Find(Model(), name, Directory)
    {
      r := FindChild(name, Directory);
    }

    /** The body shared by fs_mkdir and fs_touch. */
    method AddEntry(name: Text, kind: Kind) returns (r: int)
      requires Valid()
      modifies this, nodes
      ensures Valid()
      ensures (Model(), r) == MakeEntry(old(Model()), name, kind)
    {
      ghost var t := Model();
      MakeEntryOutcome(t, name, kind);
      var len := KLib.StrLen(name + ['\0']);
      KLib.CStrOfText(name);
      if len == 0 || len >= MAX_FILENAME_LEN {
        return -1;
      }
      var existing := FindChild(name, kind);
      if existing != NIL {
        return -1;
      }
      var n := CreateNode(name, kind);
      if n == NIL {
        return -1;
      }
      nodes[n] := nodes[n].(next := nodes[cwd].children);
      nodes[cwd] := nodes[cwd].(children := n);
      kids := kids[cwd := [n] + kids[cwd]];
      return 0;
    }

    /** fs_mkdir. */
    method Mkdir(path: Text) returns (r: int)
      requires Valid()
      modifies this, nodes
      ensures Valid()
      ensures (Model(), r) == MakeEntry(old(Model()), path, Directory)
    {
      r := AddEntry(path, Directory);
    }

    /** fs_touch. */
    method Touch(filename: Text) returns (r: int)
      requires Valid()
      modifies this, nodes
      ensures Valid()
      ensures (Model(), r) == MakeEntry(old(Model()), filename, File)
    {
      r := AddEntry(filename, File);
    }

    /** fs_write: the file's data becomes the given text. */
    method Write(filename: Text, content: Text) returns (r: int)
      requires Valid()
      modifies nodes
      ensures Valid()
      ensures (Model(), r) == FsTree.Write(old(Model()), filename, content)
    {
      WriteOutcome(Model(), filename, content);
      var f := FindFile(filename);
      if f == NIL {
        return -1;
      }
      var size := KLib.StrLen(content + ['\0']);
      KLib.CStrOfText(content);
      nodes[f] := nodes[f].(data := Some(content), size := size);
      return 0;
    }

    /** fs_cat: what is shown for the file. */
    method Cat(filename: Text) returns (r: CatResult)
      requires Valid()
      ensures r == FsTree.Cat(Model(), filename)
    {
      var f := FindFile(filename);
      if f == NIL {
        return NotFound;
      }
      if nodes[f].size == 0 || nodes[f].data.None? {
        return Empty;
      }
      assert NodeOk(Model(), f);
      var data := nodes[f].data.value;
      var shown: Text := [];
      var i := 0;
      while i < nodes[f].size
        invariant i <= nodes[f].size && shown == data[..i]
      {
        assert data[i] in data;
        shown := shown + [data[i]];
        i := i + 1;
      }
      return Shown(shown);
    }

    /** fs_ls: -1 for a non-empty path, otherwise the entries of current_dir in link order. */
    method Ls(path: Text) returns (r: int, shown: seq<Entry>)
      requires Valid()
      ensures r == 0 || r == -1
      ensures FsTree.Ls(Model(), path) == if r == -1 then None else Some(shown)
    {
      shown := [];
      if |path| > 0 {
        return -1, shown;
      }
      ghost var l := kids[cwd];
      assert ChildrenOk(Model(), cwd);
      var cur := nodes[cwd].children;
      ghost var j := 0;
      while cur != NIL
        invariant 0 <= j <= |l|
        invariant cur == (if j < |l| then l[j] else NIL)
        invariant |shown| == j
        invariant forall i | 0 <= i < j :: shown[i] == Entry(nodes[l[i]].kind, nodes[l[i]].name)
        decreases |l| - j
      {
        shown := shown + [Entry(nodes[cur].kind, nodes[cur].name)];
        cur := nodes[cur].next;
        j := j + 1;
      }
      assert shown == FsTree.Ls(Model(), path).value;
      return 0, shown;
    }

    /**
     * fs_pwd: walks from current_dir up to the root, prepending "/name" at
     * each step with kstrcpy/kstrcat on 128-byte buffers, and prints "/"
     * when nothing was prepended.  The caller keeps the path short enough
     * for the buffer.
     */
    method Pwd() returns (p: string)
      requires Valid() && |Render(nodes[..], Chain(Model(), cwd))| < MAX_PATH_LEN
      ensures p == PwdText(Model())
    {
      var path := WalkUp();
      var len := KLib.StrLen(path[..]);
      if len == 0 {
        KLib.CStrOfText("/");
        KLib.StrCpy(path, "/" + ['\0']);
      }
      p := KLib.CStr(path[..]);
    }

    /** The loop of fs_pwd: the buffer ends up holding the rendered chain of current_dir. */
    method WalkUp() returns (path: array<char>)
      requires Valid() && |Render(nodes[..], Chain(Model(), cwd))| < MAX_PATH_LEN
      ensures fresh(path) && path.Length == MAX_PATH_LEN
      ensures '\0' in path[..] && KLib.CStr(path[..]) == Render(nodes[..], Chain(Model(), cwd))
    {
      ChainParents(Model(), cwd);
      path := WalkChain(nodes, cwd, Chain(Model(), cwd));
    }

    /**
     * The loop of fs_pwd over a chain of parent links ending at `start`:
     * the buffer ends up holding the rendered chain.
     */
    static method WalkChain(nodes: array<Node>, start: int, ghost chain: seq<int>) returns (path: array<char>)
      requires forall j | 0 <= j < |chain| :: 0 < chain[j] < nodes.Length
      requires chain != [] ==> nodes[chain[0]].parent == ROOT && chain[|chain| - 1] == start
      requires chain == [] ==> start == ROOT
      requires forall j | 0 < j < |chain| :: nodes[chain[j]].parent == chain[j - 1]
      requires |Render(nodes[..], chain)| < MAX_PATH_LEN
      ensures fresh(path) && path.Length == MAX_PATH_LEN
      ensures '\0' in path[..] && KLib.CStr(path[..]) == Render(nodes[..], chain)
    {
      ghost var ns := nodes[..];
      path := new char[MAX_PATH_LEN](_ => '\0');
      var node := start;
      ghost var k := |chain|;
      assert chain[k..] == [];
      assert path[..][0] == '\0' && path[..][..0] == [];
      KLib.CLenAt(path[..], 0);
      while node != NIL && node != ROOT
        invariant 0 <= k <= |chain|
        invariant node == (if k == 0 then ROOT else chain[k - 1])
        invariant '\0' in path[..] && KLib.CStr(path[..]) == Render(ns, chain[k..])
        decreases k
      {
        PwdStep(path, nodes[node].name, ns, chain, k);
        node := nodes[node].parent;
        k := k - 1;
      }
      assert chain[k..] == chain;
    }

    /** One step of the fs_pwd walk: path, holding the chain from k on, gets "/name" of chain[k - 1] in front. */
    static method PwdStep(path: array<char>, name: Text, ghost ns: seq<Node>, ghost chain: seq<int>, ghost k: int)
      requires InPool(ns, chain) && 0 < k <= |chain| && name == ns[chain[k - 1]].name
      requires |Render(ns, chain)| < MAX_PATH_LEN
      requires path.Length == MAX_PATH_LEN && '\0' in path[..]
      requires KLib.CStr(path[..]) == Render(ns, chain[k..])
      modifies path
      ensures '\0' in path[..] && KLib.CStr(path[..]) == Render(ns, chain[k - 1..])
    {
      RenderSuffix(ns, chain, k);
      ghost var tail := KLib.CStr(path[..]);
      var temp := new char[MAX_PATH_LEN];
      KLib.StrCpy(temp, path[..]);
      SlashName(path, name);
      KLib.StrCat(path, temp[..]);
    }

    /** The middle of a pwd step: the buffer is reset to "/" and the name appended. */
    static method SlashName(path: array<char>, name: Text)
      requires path.Length == MAX_PATH_LEN && |name| + 1 < MAX_PATH_LEN
      modifies path
      ensures '\0' in path[..] && KLib.CStr(path[..]) == "/" + name
    {
      KLib.CStrOfText("/");
      KLib.StrCpy(path, "/" + ['\0']);
      KLib.CStrOfText(name);
      KLib.StrCat(path, name + ['\0']);
    }

    /** fs_cd: "" and "/" go to the root, ".." to the parent, "." stays, a name to that child directory. */
    method Cd(path: Text) returns (r: int)
      requires Valid()
      modifies this
      ensures Valid()
      ensures (Model(), r) == FsTree.Cd(old(Model()), path)
    {
      ghost var t := Model();
      CdSpecial(t, path);
      if |path| == 0 {
        cwd := ROOT;
        return 0;
      }
      if path == ".." {
        if nodes[cwd].parent != NIL {
          CdParent(t);
          cwd := nodes[cwd].parent;
        }
        return 0;
      }
      if path == "." {
        return 0;
      }
      if path == "/" {
        cwd := ROOT;
        return 0;
      }
      CdName(t, path);
      var dir := FindDir(path);
      if dir != NIL {
        cwd := dir;
        return 0;
      }
      return -1;
    }

    /** fs_remove_node: unlinks x from its parent's children list. */
    method RemoveNode(x: int) returns (r: int)
      requires Valid() && (x == NIL || 0 <= x < nodeCount)
      modifies this, nodes
      ensures Valid()
      ensures (Model(), r) == Remove(old(Model()), x)
    {
      ghost var t := Model();
      RemoveOutcome(t, x);
      if x == NIL || nodes[x].parent == NIL {
        return -1;
      }
      assert NodeOk(t, x);
      var p := nodes[x].parent;
      assert ChildrenOk(t, p);
      if nodes[p].children == x {
        UnlinkFirst(p, x);
        return 0;
      }
      var cur := FindPrev(nodes, nodes[p].children, kids[p], x);
      if cur != NIL {
        UnlinkNext(p, cur, x, IndexOf(kids[p], x));
        return 0;
      }
      return -1;
    }

    /** The walk of fs_remove_node for the node whose `next` is x; NIL when x is not in the list. */
    static method FindPrev(nodes: array<Node>, first: int, ghost l: seq<int>, x: int) returns (cur: int)
      requires Linked(nodes[..], first, l) && x != NIL && (l != [] ==> l[0] != x)
      ensures x in l ==> IndexOf(l, x) > 0 && cur == l[IndexOf(l, x) - 1]
      ensures x !in l ==> cur == NIL
    {
      cur := first;
      ghost var j := 0;
      while cur != NIL && nodes[cur].next != x
        invariant 0 <= j <= PrevIndex(l, x)
        invariant cur == (if j < |l| then l[j] else NIL)
        decreases |l| - j
      {
        PrevStep(l, x, j);
        cur := nodes[cur].next;
        j := j + 1;
      }
      if cur != NIL {
        PrevFound(l, x, j);
      }
    }

    /** parent->children = x->next, for x at the head of its parent's list. */
    method UnlinkFirst(p: int, x: int)
      requires Valid() && 0 <= p < nodeCount && kids[p] != [] && kids[p][0] == x
      requires InPool(nodes[..], kids[p])
      modifies this, nodes
      ensures Valid() && Model() == UnlinkHead(old(Model()), p)
    {
      ghost var t := Model();
      assert ChildrenOk(t, p);
      UnlinkHeadWf(t, p);
      nodes[p] := nodes[p].(children := nodes[x].next);
      kids := kids[p := kids[p][1..]];
    }

    /** cur->next = x->next, for x at position i > 0 of its parent's list and cur before it. */
    method UnlinkNext(p: int, cur: int, x: int, ghost i: int)
      requires Valid() && 0 <= p < nodeCount && 0 < i < |kids[p]|
      requires kids[p][i] == x && kids[p][i - 1] == cur && InPool(nodes[..], kids[p])
      modifies this, nodes
      ensures Valid() && Model() == UnlinkAfter(old(Model()), p, i)
    {
      ghost var t := Model();
      assert ChildrenOk(t, p);
      UnlinkAfterWf(t, p, i);
      nodes[cur] := nodes[cur].(next := nodes[x].next);
      kids := kids[p := Without(kids[p], i)];
    }

    /** fs_rm: removes a file of that name, or else an empty directory of that name. */
    method Rm(path: Text) returns (r: int)
      requires Valid()
      modifies this, nodes
      ensures Valid()
      ensures (Model(), r) == FsTree.Rm(old(Model()), path)
    {
      RmOutcome(Model(), path);
      if |path| == 0 {
        return -1;
      }
      var file := FindFile(path);
      if file != NIL {
        var removed := RemoveNode(file);
        if removed == 0 {
          return 0;
        }
      }
      var dir := FindDir(path);
      if dir != NIL {
        if nodes[dir].children != NIL {
          return -1;
        }
        if dir == cwd {
          return -1;
        }
        if dir == ROOT {
          return -1;
        }
        var removed := RemoveNode(dir);
        if removed == 0 {
          return 0;
        }
      }
      return -1;
    }
  }
}
