/**
 * The in-memory tree filesystem of src/fs/fs.c, as values.
 *
 * Nodes live in a fixed pool of MAX_DIRS + MAX_FILES slots.  A node is named
 * by its slot index (a "handle"); NIL stands for the NULL pointer.  Handle 0
 * is the separate static `root_dir`: fs_init sets node_count to 1, so pool
 * slot 0 is never handed out and can stand for the root without clashing with
 * any created node.
 *
 * The abstract state is a `Tree`: the node slots, node_count, the current
 * directory and, for each created node, the list of its children in the
 * order the `next` links visit them (`kids`).  Each operation is a function
 * on trees; the class `Fs.FileSystem` performs the same operations on an
 * array by following and rewriting the links, and is proved to agree with
 * these functions.
 */
module FsTree {
  import opened Base

  const MAX_FILENAME_LEN: int := 32
  const MAX_PATH_LEN: int := 128
  const MAX_FILES: int := 100
  const MAX_DIRS: int := 50
  /** Number of node slots, including the never-used slot 0. */
  const POOL: int := MAX_DIRS + MAX_FILES

  const ROOT: int := 0
  const NIL: int := -1

  datatype Kind = File | Directory

  /**
   * An fs_node.  `data` is None for a NULL data pointer.  The `capacity`
   * field is always 0 and never read, so it is not kept.
   */
  datatype Node = Node(name: Text, kind: Kind, data: Option<Text>, size: nat,
                       parent: int, children: int, next: int)

  /** A pool slot that was never used (static storage is zeroed). */
  const Blank: Node := Node("", File, None, 0, NIL, NIL, NIL)

  /** root_dir as fs_init leaves it. */
  const RootNode: Node := Node("/", Directory, None, 0, NIL, NIL, NIL)

  /**
   * The filesystem state: node slots, node_count, current_dir, and (ghost
   * bookkeeping) each node's children list and its depth below the root.
   */
  datatype Tree = Tree(ns: seq<Node>, count: nat, cwd: int,
                       kids: seq<seq<int>>, depth: seq<nat>)

  /** What `ls` prints for one child: its kind and its name. */
  datatype Entry = Entry(kind: Kind, name: Text)

  /** The outcome of fs_cat: -1 for a missing file, "empty", or the bytes shown. */
  datatype CatResult = NotFound | Empty | Shown(text: Text)

  function SizeOf(data: Option<Text>): nat {
    if data.Some? then |data.value| else 0
  }

  /** The lookup test of fs_find_file / fs_find_dir: same name and same kind. */
  predicate Named(n: Node, name: Text, kind: Kind) {
    n.name == name && n.kind == kind
  }

  function Head(l: seq<int>): int {
    if l == [] then NIL else l[0]
  }

  /** The `next` link of the j-th element of a list. */
  function Succ(l: seq<int>, j: int): int
    requires 0 <= j < |l|
  {
    if j + 1 < |l| then l[j + 1] else NIL
  }

  function Without(l: seq<int>, i: int): seq<int>
    requires 0 <= i < |l|
  {
    l[..i] + l[i + 1..]
  }

  function IndexOf(l: seq<int>, x: int): (i: nat)
    requires x in l
    ensures i < |l| && l[i] == x && x !in l[..i]
  {
    if l[0] == x then 0
    else
      assert x in l[1..];
      var i := IndexOf(l[1..], x);
      assert l[..i + 1] == [l[0]] + l[1..][..i];
      1 + i
  }

  /** Position of the node before x in l, or |l| when x is not in l. */
  function PrevIndex(l: seq<int>, x: int): (m: int)
    requires l != [] ==> l[0] != x
    ensures 0 <= m <= |l| && (x in l ==> m + 1 < |l| && l[m + 1] == x && x !in l[..m + 1])
  {
    if x in l then IndexOf(l, x) - 1 else |l|
  }

  /** While the node after position j is not x, x lies further on. */
  lemma PrevStep(l: seq<int>, x: int, j: int)
    requires l != [] ==> l[0] != x
    requires 0 <= j <= PrevIndex(l, x) && j < |l| && Succ(l, j) != x
    ensures j < PrevIndex(l, x)
  {
  }

  /** The first position whose successor is x is the one before x. */
  lemma PrevFound(l: seq<int>, x: int, j: int)
    requires l != [] ==> l[0] != x
    requires x != NIL && 0 <= j <= PrevIndex(l, x) && j < |l| && Succ(l, j) == x
    ensures x in l && PrevIndex(l, x) == j && IndexOf(l, x) == j + 1
  {
    assert l[j + 1] == x;
  }

  // ---------------------------------------------------------------------------
  // Well-formed trees

  predicate Shape(t: Tree) {
    |t.ns| == POOL && 1 <= t.count <= POOL && |t.kids| == t.count && |t.depth| == t.count
  }

  /**
   * A created node: its name fits the 32-byte field, its size is its data's
   * length, and (below the root) its parent is a directory nearer the root.
   */
  predicate NodeOk(t: Tree, n: int)
    requires Shape(t) && 0 <= n < t.count
  {
    var nd := t.ns[n];
    && |nd.name| < MAX_FILENAME_LEN
    && nd.size == SizeOf(nd.data)
    && (n != ROOT ==>
          0 <= nd.parent < t.count && t.ns[nd.parent].kind == Directory
          && t.depth[nd.parent] < t.depth[n])
  }

  /** Following `next` from `head` visits exactly the handles of `l`, in order. */
  predicate Linked(ns: seq<Node>, head: int, l: seq<int>) {
    && head == Head(l)
    && forall j | 0 <= j < |l| :: 0 <= l[j] < |ns| && ns[l[j]].next == Succ(l, j)
  }

  predicate InPool(ns: seq<Node>, l: seq<int>) {
    forall j | 0 <= j < |l| :: 0 <= l[j] < |ns|
  }

  /** No two handles of l carry the same name and kind. */
  predicate Unique(ns: seq<Node>, l: seq<int>)
    requires InPool(ns, l)
  {
    forall i, j | 0 <= i < j < |l| :: !Named(ns[l[i]], ns[l[j]].name, ns[l[j]].kind)
  }

  /**
   * The children list of d: linked from d's `children`, made of created
   * non-root nodes whose parent is d, and no two with the same name and kind.
   */
  predicate ChildrenOk(t: Tree, d: int)
    requires Shape(t) && 0 <= d < t.count
  {
    var l := t.kids[d];
    && Linked(t.ns, t.ns[d].children, l)
    && (forall j | 0 <= j < |l| :: 0 < l[j] < t.count && t.ns[l[j]].parent == d)
    && Unique(t.ns, l)
  }

  /** The structural invariant every filesystem operation preserves. */
  predicate Wf(t: Tree) {
    && Shape(t)
    && t.ns[ROOT].name == "/" && t.ns[ROOT].kind == Directory && t.ns[ROOT].parent == NIL
    && (forall n | 0 <= n < t.count :: NodeOk(t, n))
    && (forall d | 0 <= d < t.count :: ChildrenOk(t, d))
    && 0 <= t.cwd < t.count && t.ns[t.cwd].kind == Directory
  }

  /** Two node arrays that agree on every name and kind. */
  predicate SameNames(a: seq<Node>, b: seq<Node>) {
    |a| == |b| && forall n | 0 <= n < |a| :: a[n].name == b[n].name && a[n].kind == b[n].kind
  }

  /** Two node arrays that agree on everything but the links. */
  predicate SameEntries(a: seq<Node>, b: seq<Node>) {
    && SameNames(a, b)
    && forall n | 0 <= n < |a| ::
         a[n].parent == b[n].parent && a[n].data == b[n].data && a[n].size == b[n].size
  }

  // ---------------------------------------------------------------------------
  // Paths

  /** The handles from just below the root down to n (empty for the root). */
  function Chain(t: Tree, n: int): (c: seq<int>)
    requires Wf(t) && 0 <= n < t.count
    ensures c == [] <==> n == ROOT
    ensures forall j | 0 <= j < |c| :: 0 < c[j] < t.count
    ensures c != [] ==> c[|c| - 1] == n
    decreases t.depth[n]
  {
    if n == ROOT then []
    else
      assert NodeOk(t, n);
      Chain(t, t.ns[n].parent) + [n]
  }

  /** "/" followed by the name, for every handle of c. */
  function Render(ns: seq<Node>, c: seq<int>): string
    requires forall j | 0 <= j < |c| :: 0 <= c[j] < |ns|
  {
    if c == [] then "" else Render(ns, c[..|c| - 1]) + "/" + ns[c[|c| - 1]].name
  }

  /** What fs_pwd prints: the rendered chain of current_dir, or "/" when that is empty. */
  function PwdText(t: Tree): string
    requires Wf(t)
  {
    var s := Render(t.ns, Chain(t, t.cwd));
    if s == "" then "/" else s
  }

  // ---------------------------------------------------------------------------
  // Operations on trees

  /** Position of the first child in l with that name and kind, or |l| if none. */
  function FirstMatch(ns: seq<Node>, l: seq<int>, name: Text, kind: Kind): (j: nat)
    requires forall i | 0 <= i < |l| :: 0 <= l[i] < |ns|
    ensures j <= |l|
    ensures forall i | 0 <= i < j :: !Named(ns[l[i]], name, kind)
    ensures j < |l| ==> Named(ns[l[j]], name, kind)
  {
    if l == [] then 0
    else if Named(ns[l[0]], name, kind) then 0
    else 1 + FirstMatch(ns, l[1..], name, kind)
  }

  /** The first match is the one with no match before it. */
  lemma FirstMatchAt(ns: seq<Node>, l: seq<int>, name: Text, kind: Kind, j: nat)
    requires forall i | 0 <= i < |l| :: 0 <= l[i] < |ns|
    requires j <= |l| && forall i | 0 <= i < j :: !Named(ns[l[i]], name, kind)
    requires j < |l| ==> Named(ns[l[j]], name, kind)
    ensures FirstMatch(ns, l, name, kind) == j
  {
  }

  /**
   * fs_find_file (kind File) and fs_find_dir (kind Directory): the child of
   * current_dir with that name and kind, or NIL.  There is at most one.
   */
  function Find(t: Tree, name: Text, kind: Kind): (r: int)
    requires Wf(t)
    ensures InPool(t.ns, t.kids[t.cwd])
    ensures r == NIL <==>
            forall j | 0 <= j < |t.kids[t.cwd]| :: !Named(t.ns[t.kids[t.cwd][j]], name, kind)
    ensures r != NIL ==>
            r in t.kids[t.cwd] && 0 < r < t.count && t.ns[r].parent == t.cwd
            && Named(t.ns[r], name, kind)
            && forall j | 0 <= j < |t.kids[t.cwd]| && Named(t.ns[t.kids[t.cwd][j]], name, kind) ::
                 t.kids[t.cwd][j] == r
  {
    var l := t.kids[t.cwd];
    assert ChildrenOk(t, t.cwd);
    var j := FirstMatch(t.ns, l, name, kind);
    if j < |l| then l[j] else NIL
  }

  /** fs_create_node: the next pool slot, parented to current_dir but not yet linked. */
  function Create(t: Tree, name: Text, kind: Kind): (r: (Tree, int))
    requires Wf(t)
  {
    if t.count >= POOL then (t, NIL)
    else
      var n := t.count;
      (Tree(t.ns[n := Node(name, kind, None, 0, t.cwd, NIL, NIL)], n + 1, t.cwd,
            t.kids + [[]], t.depth + [t.depth[t.cwd] + 1]),
       n)
  }

  /** The two link writes of fs_mkdir/fs_touch: n becomes the head of current_dir's children. */
  function LinkHead(t: Tree, n: int): Tree
    requires Shape(t) && 0 <= n < t.count && 0 <= t.cwd < t.count
  {
    var c := t.cwd;
    var ns1 := t.ns[n := t.ns[n].(next := t.ns[c].children)];
    Tree(ns1[c := ns1[c].(children := n)], t.count, c, t.kids[c := [n] + t.kids[c]], t.depth)
  }

  /** fs_mkdir (kind Directory) and fs_touch (kind File). */
  function MakeEntry(t: Tree, name: Text, kind: Kind): (Tree, int)
    requires Wf(t)
  {
    if |name| == 0 || |name| >= MAX_FILENAME_LEN then (t, -1)
    else if Find(t, name, kind) != NIL then (t, -1)
    else
      var (t1, n) := Create(t, name, kind);
      if n == NIL then (t, -1) else (LinkHead(t1, n), 0)
  }

  /** fs_write: the file's content pointer and size are replaced. */
  function Write(t: Tree, name: Text, content: Text): (Tree, int)
    requires Wf(t)
  {
    var f := Find(t, name, File);
    if f == NIL then (t, -1)
    else (t.(ns := t.ns[f := t.ns[f].(data := Some(content), size := |content|)]), 0)
  }

  /** fs_cat: the first `size` bytes of the file's data, when there are any. */
  function Cat(t: Tree, name: Text): CatResult
    requires Wf(t)
  {
    var f := Find(t, name, File);
    if f == NIL then NotFound
    else if t.ns[f].size == 0 || t.ns[f].data.None? then Empty
    else
      assert NodeOk(t, f);
      Shown(t.ns[f].data.value[..t.ns[f].size])
  }

  /** fs_ls: what is listed for current_dir, in list order (None stands for -1). */
  function Ls(t: Tree, path: Text): (r: Option<seq<Entry>>)
    requires Wf(t)
    ensures r.None? <==> |path| > 0
    ensures r.Some? ==> |r.value| == |t.kids[t.cwd]|
    ensures r.Some? ==> (r.value == [] <==> t.ns[t.cwd].children == NIL)
  {
    if |path| > 0 then None
    else
      var l := t.kids[t.cwd];
      assert ChildrenOk(t, t.cwd) && Linked(t.ns, t.ns[t.cwd].children, l);
      Some(seq(|l|, i requires 0 <= i < |l| => Entry(t.ns[l[i]].kind, t.ns[l[i]].name)))
  }

  /** fs_cd. */
  function Cd(t: Tree, path: Text): (Tree, int)
    requires Wf(t)
  {
    if path == "" then (t.(cwd := ROOT), 0)
    else if path == ".." then
      (if t.ns[t.cwd].parent != NIL then t.(cwd := t.ns[t.cwd].parent) else t, 0)
    else if path == "." then (t, 0)
    else if path == "/" then (t.(cwd := ROOT), 0)
    else
      var d := Find(t, path, Directory);
      if d != NIL then (t.(cwd := d), 0) else (t, -1)
  }

  /** The write of the first case of fs_remove_node: p's children now start at its second child. */
  function UnlinkHead(t: Tree, p: int): Tree
    requires Shape(t) && 0 <= p < t.count && t.kids[p] != [] && InPool(t.ns, t.kids[p])
  {
    var l := t.kids[p];
    t.(ns := t.ns[p := t.ns[p].(children := t.ns[l[0]].next)], kids := t.kids[p := l[1..]])
  }

  /** The splice of fs_remove_node: the child before position i skips over it. */
  function UnlinkAfter(t: Tree, p: int, i: int): Tree
    requires Shape(t) && 0 <= p < t.count && 0 < i < |t.kids[p]| && InPool(t.ns, t.kids[p])
  {
    var l := t.kids[p];
    t.(ns := t.ns[l[i - 1] := t.ns[l[i - 1]].(next := t.ns[l[i]].next)], kids := t.kids[p := Without(l, i)])
  }

  /** x is a created non-root node that is still in its parent's children list. */
  predicate Attached(t: Tree, x: int)
    requires Wf(t) && 0 <= x < t.count
  {
    x != ROOT && (assert NodeOk(t, x); x in t.kids[t.ns[x].parent])
  }

  /** The children lists once the attached node x is taken out of its parent's list. */
  function Detach(t: Tree, x: int): seq<seq<int>>
    requires Wf(t) && 0 <= x < t.count && Attached(t, x)
  {
    assert NodeOk(t, x);
    var p := t.ns[x].parent;
    t.kids[p := Without(t.kids[p], IndexOf(t.kids[p], x))]
  }

  /** fs_remove_node: unlinks x from its parent's children list. */
  function Remove(t: Tree, x: int): (Tree, int)
    requires Wf(t) && (x == NIL || 0 <= x < t.count)
  {
    if x == NIL || t.ns[x].parent == NIL then (t, -1)
    else
      assert NodeOk(t, x);
      var p := t.ns[x].parent;
      var l := t.kids[p];
      assert ChildrenOk(t, p);
      if t.ns[p].children == x then (UnlinkHead(t, p), 0)
      else if x in l then (UnlinkAfter(t, p, IndexOf(l, x)), 0)
      else (t, -1)
  }

  /** fs_rm: a file of that name first, then an empty directory. */
  function Rm(t: Tree, path: Text): (Tree, int)
    requires Wf(t)
  {
    if path == "" then (t, -1)
    else
      var f := Find(t, path, File);
      var byFile := if f != NIL then Remove(t, f) else (t, -1);
      if byFile.1 == 0 then byFile
      else
        var d := Find(t, path, Directory);
        if d == NIL then (t, -1)
        else if t.ns[d].children != NIL then (t, -1)
        else if d == t.cwd then (t, -1)
        else if d == ROOT then (t, -1)
        else Remove(t, d)
  }

  // ---------------------------------------------------------------------------
  // Properties of the operations

  /** Created nodes keep their slot, name, kind and parent; no slot is given back. */
  predicate Grows(t: Tree, t': Tree)
    requires Shape(t) && Shape(t')
  {
    t.count <= t'.count &&
    forall n | 0 <= n < t.count ::
      t'.ns[n].name == t.ns[n].name && t'.ns[n].kind == t.ns[n].kind && t'.ns[n].parent == t.ns[n].parent
  }

  /** fs_create_node fails exactly when the pool is used up; otherwise it takes slot node_count. */
  lemma CreateOutcome(t: Tree, name: Text, kind: Kind)
    requires Wf(t) && |name| < MAX_FILENAME_LEN
    ensures var (t1, n) := Create(t, name, kind);
      && (n == NIL <==> t.count == POOL)
      && (n == NIL ==> t1 == t)
      && (n != NIL ==>
            && Wf(t1) && Grows(t, t1)
            && n == t.count && t1.count == t.count + 1 && t1.cwd == t.cwd
            && t1.ns[n] == Node(name, kind, None, 0, t.cwd, NIL, NIL)
            && (forall i | 0 <= i < t.count :: t1.ns[i] == t.ns[i])
            && t1.kids == t.kids + [[]])
  {
    var (t1, n) := Create(t, name, kind);
    if n != NIL {
      forall m | 0 <= m < t1.count ensures NodeOk(t1, m) {
        if m < t.count { assert NodeOk(t, m); }
      }
      forall d | 0 <= d < t1.count ensures ChildrenOk(t1, d) {
        if d < t.count {
          assert ChildrenOk(t, d);
          assert t1.kids[d] == t.kids[d];
        }
      }
    }
  }

  /** The conditions under which fs_mkdir/fs_touch link node n: a fresh child of current_dir with a new name. */
  predicate Linkable(t: Tree, n: int)
    requires Wf(t)
  {
    0 < n < t.count && t.ns[n].parent == t.cwd && n !in t.kids[t.cwd]
    && Find(t, t.ns[n].name, t.ns[n].kind) == NIL
  }

  lemma UniqueCons(ns: seq<Node>, l: seq<int>, n: int)
    requires InPool(ns, l) && Unique(ns, l) && 0 <= n < |ns|
    requires forall j | 0 <= j < |l| :: !Named(ns[l[j]], ns[n].name, ns[n].kind)
    ensures InPool(ns, [n] + l) && Unique(ns, [n] + l)
  {
    var l' := [n] + l;
    forall i, j | 0 <= i < j < |l'| ensures !Named(ns[l'[i]], ns[l'[j]].name, ns[l'[j]].kind) {
      if i == 0 {
        assert l'[j] == l[j - 1];
      } else {
        assert l'[i] == l[i - 1] && l'[j] == l[j - 1];
      }
    }
  }

  lemma UniqueSameEntries(a: seq<Node>, b: seq<Node>, l: seq<int>)
    requires SameNames(a, b) && InPool(a, l) && Unique(a, l)
    ensures InPool(b, l) && Unique(b, l)
  {
  }

  /** A node put in front of a linked list, its `next` set to the old head, links the longer list. */
  lemma LinkedCons(ns: seq<Node>, ns': seq<Node>, head: int, l: seq<int>, n: int)
    requires Linked(ns, head, l) && 0 <= n < |ns| && n !in l && |ns'| == |ns|
    requires ns'[n].next == head
    requires forall m | 0 <= m < |ns| && m != n :: ns'[m].next == ns[m].next
    ensures Linked(ns', n, [n] + l)
  {
    var l' := [n] + l;
    forall j | 0 <= j < |l'| ensures 0 <= l'[j] < |ns'| && ns'[l'[j]].next == Succ(l', j) {
      if j == 0 {
        assert l'[0] == n && Succ(l', 0) == Head(l);
      } else {
        ConsSucc(ns, ns', l, n, j - 1);
      }
    }
  }

  /** The links after the new head of LinkedCons are the old list's. */
  lemma ConsSucc(ns: seq<Node>, ns': seq<Node>, l: seq<int>, n: int, i: int)
    requires 0 <= i < |l| && 0 <= l[i] < |ns| && ns[l[i]].next == Succ(l, i)
    requires l[i] != n && |ns'| == |ns| && ns'[l[i]].next == ns[l[i]].next
    ensures ([n] + l)[i + 1] == l[i] && ns'[l[i]].next == Succ([n] + l, i + 1)
  {
  }

  lemma LinkHeadCwd(t: Tree, n: int)
    requires Shape(t) && 0 <= t.cwd < t.count && ChildrenOk(t, t.cwd)
    requires 0 < n < t.count && n != t.cwd && t.ns[n].parent == t.cwd && n !in t.kids[t.cwd]
    requires forall j | 0 <= j < |t.kids[t.cwd]| :: !Named(t.ns[t.kids[t.cwd][j]], t.ns[n].name, t.ns[n].kind)
    ensures ChildrenOk(LinkHead(t, n), t.cwd)
  {
    var t' := LinkHead(t, n);
    var c := t.cwd;
    var l := t.kids[c];
    var l' := [n] + l;
    assert t'.kids[c] == l';
    LinkedCons(t.ns, t'.ns, t.ns[c].children, l, n);
    forall j | 0 <= j < |l'| ensures 0 < l'[j] < t'.count && t'.ns[l'[j]].parent == c {
      if j > 0 {
        assert l'[j] == l[j - 1];
      }
    }
    UniqueCons(t.ns, l, n);
    UniqueSameEntries(t.ns, t'.ns, l');
  }

  lemma LinkHeadOther(t: Tree, n: int, d: int)
    requires Shape(t) && 0 <= t.cwd < t.count && 0 <= d < t.count && d != t.cwd && ChildrenOk(t, d)
    requires 0 < n < t.count && n != t.cwd && t.ns[n].parent == t.cwd
    ensures ChildrenOk(LinkHead(t, n), d)
  {
    var t' := LinkHead(t, n);
    var l := t.kids[d];
    assert t'.kids[d] == l && t'.ns[d].children == t.ns[d].children;
    forall j | 0 <= j < |l| ensures t'.ns[l[j]].next == t.ns[l[j]].next && t'.ns[l[j]].parent == t.ns[l[j]].parent {
      assert l[j] != n;
    }
    LinkedSame(t.ns, t'.ns, t.ns[d].children, l);
    UniqueSameEntries(t.ns, t'.ns, l);
  }

  /** A linked list stays linked when none of its nodes' `next` changes. */
  lemma LinkedSame(ns: seq<Node>, ns': seq<Node>, head: int, l: seq<int>)
    requires Linked(ns, head, l) && |ns'| == |ns|
    requires forall j | 0 <= j < |l| :: ns'[l[j]].next == ns[l[j]].next
    ensures Linked(ns', head, l)
  {
  }

  /** Putting a fresh, uniquely named child of current_dir at the head of its list keeps the tree well formed. */
  lemma LinkHeadWf(t: Tree, n: int)
    requires Wf(t) && Linkable(t, n)
    ensures Wf(LinkHead(t, n)) && SameEntries(t.ns, LinkHead(t, n).ns)
  {
    var t' := LinkHead(t, n);
    assert n != t.cwd by { assert NodeOk(t, n); }
    forall m | 0 <= m < t.count ensures NodeOk(t', m) {
      assert NodeOk(t, m);
    }
    forall d | 0 <= d < t.count ensures ChildrenOk(t', d) {
      assert ChildrenOk(t, d);
      if d == t.cwd {
        LinkHeadCwd(t, n);
      } else {
        LinkHeadOther(t, n, d);
      }
    }
  }

  /**
   * fs_mkdir / fs_touch: -1 with nothing changed for an empty or too long
   * name, an existing entry of that name and kind, or a full pool; otherwise
   * the new node heads current_dir's children, the old children follow in
   * their order, and a lookup now finds it.
   */
  lemma MakeEntryOutcome(t: Tree, name: Text, kind: Kind)
    requires Wf(t)
    ensures var (t', r) := MakeEntry(t, name, kind);
      && Wf(t') && Grows(t, t') && t'.cwd == t.cwd
      && (r == 0 || r == -1)
      && (r == -1 <==> |name| == 0 || |name| >= MAX_FILENAME_LEN
                       || Find(t, name, kind) != NIL || t.count == POOL)
      && (r == -1 ==> t' == t)
      && (r == 0 ==>
            && t'.count == t.count + 1
            && t'.kids == t.kids[t.cwd := [t.count] + t.kids[t.cwd]] + [[]]
            && t'.ns[t.count] == Node(name, kind, None, 0, t.cwd, NIL, t.ns[t.cwd].children)
            && Find(t', name, kind) == t.count)
  {
    if 0 < |name| < MAX_FILENAME_LEN && Find(t, name, kind) == NIL && t.count < POOL {
      CreateOutcome(t, name, kind);
      var (t1, n) := Create(t, name, kind);
      CreatedLinkable(t, name, kind, t1);
      MakeEntryLinked(t, name, kind, t1, LinkHead(t1, n));
    }
  }

  /** The node fs_create_node hands to fs_mkdir / fs_touch can be linked in. */
  lemma CreatedLinkable(t: Tree, name: Text, kind: Kind, t1: Tree)
    requires Wf(t) && Find(t, name, kind) == NIL && t.count < POOL
    requires Wf(t1) && t1.count == t.count + 1 && t1.cwd == t.cwd
    requires t1.ns[t.count] == Node(name, kind, None, 0, t.cwd, NIL, NIL)
    requires (forall i | 0 <= i < t.count :: t1.ns[i] == t.ns[i]) && t1.kids == t.kids + [[]]
    ensures Linkable(t1, t.count)
  {
    var l := t.kids[t.cwd];
    assert t1.kids[t1.cwd] == l;
    assert ChildrenOk(t, t.cwd);
    forall j | 0 <= j < |l| ensures t1.ns[l[j]] == t.ns[l[j]] {
    }
  }

  /** The tree after the two link writes of fs_mkdir / fs_touch. */
  lemma MakeEntryLinked(t: Tree, name: Text, kind: Kind, t1: Tree, t': Tree)
    requires Wf(t) && t.count < POOL
    requires Wf(t1) && Grows(t, t1) && t1.count == t.count + 1 && t1.cwd == t.cwd
    requires t1.ns[t.count] == Node(name, kind, None, 0, t.cwd, NIL, NIL)
    requires t1.kids == t.kids + [[]] && t1.ns[t.cwd] == t.ns[t.cwd]
    requires Linkable(t1, t.count) && t' == LinkHead(t1, t.count)
    ensures && Wf(t') && Grows(t, t') && t'.cwd == t.cwd
            && t'.count == t.count + 1
            && t'.kids == t.kids[t.cwd := [t.count] + t.kids[t.cwd]] + [[]]
            && t'.ns[t.count] == Node(name, kind, None, 0, t.cwd, NIL, t.ns[t.cwd].children)
            && Find(t', name, kind) == t.count
  {
    var n := t.count;
    LinkHeadWf(t1, n);
    assert n != t.cwd && t'.ns[n] == t1.ns[n].(next := t1.ns[t.cwd].children);
    assert t'.kids[t.cwd][0] == n;
    assert ChildrenOk(t', t.cwd);
  }

  /** Lookups depend only on current_dir's list and the names and kinds in it. */
  lemma FindSameEntries(t: Tree, t': Tree, name: Text, kind: Kind)
    requires Wf(t) && Wf(t') && t'.kids[t'.cwd] == t.kids[t.cwd] && SameNames(t.ns, t'.ns)
    ensures Find(t', name, kind) == Find(t, name, kind)
  {
    assert ChildrenOk(t, t.cwd);
    var l := t.kids[t.cwd];
    if Find(t, name, kind) != NIL {
      assert exists j | 0 <= j < |l| :: Named(t'.ns[l[j]], name, kind);
    }
  }

  /**
   * fs_write: -1 with nothing changed when no file of that name is in
   * current_dir; otherwise only that file changes, and fs_cat then shows
   * exactly the new content ("empty" for the empty text).
   */
  lemma WriteOutcome(t: Tree, name: Text, content: Text)
    requires Wf(t)
    ensures var (t', r) := Write(t, name, content);
      && Wf(t') && Grows(t, t') && t'.count == t.count && t'.cwd == t.cwd && t'.kids == t.kids
      && (r == 0 || r == -1)
      && (r == -1 <==> Find(t, name, File) == NIL)
      && (r == -1 ==> t' == t)
      && (r == 0 ==> forall n | 0 <= n < |t.ns| && n != Find(t, name, File) :: t'.ns[n] == t.ns[n])
      && (r == 0 ==> Find(t', name, File) == Find(t, name, File)
                     && t'.ns[Find(t, name, File)].data == Some(content))
      && (r == 0 ==> Cat(t', name) == (if content == "" then Empty else Shown(content)))
  {
    var (t', r) := Write(t, name, content);
    var f := Find(t, name, File);
    if f != NIL {
      forall m | 0 <= m < t'.count ensures NodeOk(t', m) {
        assert NodeOk(t, m);
      }
      forall d | 0 <= d < t'.count ensures ChildrenOk(t', d) {
        assert ChildrenOk(t, d);
        UniqueSameEntries(t.ns, t'.ns, t.kids[d]);
      }
      FindSameEntries(t, t', name, File);
      assert t'.ns[f].data.value[..t'.ns[f].size] == content;
    }
  }

  /** A second fs_write fully replaces the first. */
  lemma WriteReplaces(t: Tree, name: Text, c1: Text, c2: Text)
    requires Wf(t)
    ensures Wf(Write(t, name, c1).0)
    ensures Write(Write(t, name, c1).0, name, c2) == Write(t, name, c2)
  {
    WriteOutcome(t, name, c1);
    var t1 := Write(t, name, c1).0;
    var f := Find(t, name, File);
    if f != NIL {
      FindSameEntries(t, t1, name, File);
      assert t1.ns[f] == t.ns[f].(data := Some(c1), size := |c1|);
      assert t1.ns[f := t1.ns[f].(data := Some(c2), size := |c2|)]
          == t.ns[f := t.ns[f].(data := Some(c2), size := |c2|)];
    }
  }

  /** Chain only follows parent links, which fs_cd does not change. */
  lemma {:induction false} ChainSameLinks(t: Tree, t': Tree, n: int)
    requires Wf(t) && Wf(t') && t'.ns == t.ns && t'.count == t.count && t'.depth == t.depth
    requires 0 <= n < t.count
    ensures Chain(t', n) == Chain(t, n)
    decreases t.depth[n]
  {
    if n != ROOT {
      assert NodeOk(t, n);
      ChainSameLinks(t, t', t.ns[n].parent);
    }
  }

  lemma RenderSnoc(ns: seq<Node>, c: seq<int>, n: int)
    requires InPool(ns, c) && 0 <= n < |ns|
    ensures InPool(ns, c + [n]) && Render(ns, c + [n]) == Render(ns, c) + "/" + ns[n].name
  {
    assert (c + [n])[..|c|] == c;
  }

  /** Rendering a concatenation renders the two parts one after the other. */
  lemma {:induction false} RenderAppend(ns: seq<Node>, a: seq<int>, b: seq<int>)
    requires InPool(ns, a) && InPool(ns, b)
    ensures InPool(ns, a + b) && Render(ns, a + b) == Render(ns, a) + Render(ns, b)
    decreases |b|
  {
    if b == [] {
      assert a + b == a;
    } else {
      var b0 := b[..|b| - 1];
      var n := b[|b| - 1];
      assert b == b0 + [n];
      assert a + b == (a + b0) + [n];
      var ra, rb0, nm := Render(ns, a), Render(ns, b0), ns[n].name;
      assert InPool(ns, a + b0) && Render(ns, a + b0) == ra + rb0 by {
        RenderAppend(ns, a, b0);
      }
      assert Render(ns, (a + b0) + [n]) == (ra + rb0) + "/" + nm by {
        RenderSnoc(ns, a + b0, n);
      }
      assert Render(ns, b0 + [n]) == rb0 + "/" + nm by {
        RenderSnoc(ns, b0, n);
      }
      assert (ra + rb0) + "/" + nm == ra + (rb0 + "/" + nm);
    }
  }

  /** The pwd walk prepends one "/name" per step: rendering a chain from its front. */
  lemma RenderCons(ns: seq<Node>, n: int, c: seq<int>)
    requires 0 <= n < |ns| && InPool(ns, c)
    ensures InPool(ns, [n] + c) && Render(ns, [n] + c) == "/" + ns[n].name + Render(ns, c)
  {
    RenderAppend(ns, [n], c);
    assert Render(ns, [n]) == Render(ns, []) + "/" + ns[n].name;
  }

  /** Rendering the suffixes of a chain, from the back: each one is "/name" longer than the next. */
  lemma RenderSuffix(ns: seq<Node>, c: seq<int>, k: int)
    requires InPool(ns, c) && 0 < k <= |c|
    ensures Render(ns, c[k - 1..]) == "/" + ns[c[k - 1]].name + Render(ns, c[k..])
    ensures |Render(ns, c[k - 1..])| <= |Render(ns, c)|
  {
    RenderAppend(ns, c[..k - 1], c[k - 1..]);
    assert c[..k - 1] + c[k - 1..] == c;
    assert c[k - 1..] == [c[k - 1]] + c[k..];
    RenderCons(ns, c[k - 1], c[k..]);
  }

  /** Each handle of a chain is the parent of the next one, and the first is a child of the root. */
  lemma {:induction false} ChainParents(t: Tree, n: int)
    requires Wf(t) && 0 <= n < t.count
    ensures var c := Chain(t, n);
      && (c != [] ==> t.ns[c[0]].parent == ROOT)
      && forall j | 0 < j < |c| :: t.ns[c[j]].parent == c[j - 1]
    decreases t.depth[n]
  {
    if n != ROOT {
      assert NodeOk(t, n);
      var p := t.ns[n].parent;
      ChainParents(t, p);
      var c0 := Chain(t, p);
      var c := Chain(t, n);
      assert c == c0 + [n];
      forall j | 0 < j < |c| ensures t.ns[c[j]].parent == c[j - 1] {
        if j < |c0| {
          assert c[j] == c0[j] && c[j - 1] == c0[j - 1];
        }
      }
    }
  }

  /** Moving current_dir to another directory keeps the tree well formed. */
  lemma MoveCwdWf(t: Tree, c: int)
    requires Wf(t) && 0 <= c < t.count && t.ns[c].kind == Directory
    ensures Wf(t.(cwd := c))
  {
    var t' := t.(cwd := c);
    forall m | 0 <= m < t.count ensures NodeOk(t', m) {
      assert NodeOk(t, m);
    }
    forall d | 0 <= d < t.count ensures ChildrenOk(t', d) {
      assert ChildrenOk(t, d);
    }
  }

  /**
   * fs_cd with "" or "/" goes to the root, whose path prints as "/"; "."
   * stays; ".." at the root stays.  All return 0.
   */
  lemma CdSpecial(t: Tree, path: Text)
    requires Wf(t)
    ensures path == "" || path == "/" ==>
      Cd(t, path) == (t.(cwd := ROOT), 0) && Wf(t.(cwd := ROOT)) && PwdText(t.(cwd := ROOT)) == "/"
    ensures path == "." ==> Cd(t, path) == (t, 0)
    ensures path == ".." && t.cwd == ROOT ==> Cd(t, path) == (t, 0)
  {
    MoveCwdWf(t, ROOT);
  }

  /** fs_cd ".." below the root: current_dir becomes its parent, whose chain is one shorter. */
  lemma CdParent(t: Tree)
    requires Wf(t) && t.cwd != ROOT
    ensures var (t', r) := Cd(t, "..");
      && r == 0 && Wf(t') && t' == t.(cwd := t.ns[t.cwd].parent)
      && Chain(t', t'.cwd) == Chain(t, t.cwd)[..|Chain(t, t.cwd)| - 1]
  {
    assert NodeOk(t, t.cwd);
    var t' := Cd(t, "..").0;
    MoveCwdWf(t, t.ns[t.cwd].parent);
    ChainSameLinks(t, t', t'.cwd);
  }

  /**
   * fs_cd with any other name: -1 with nothing changed when current_dir has
   * no child directory of that name; otherwise current_dir becomes that
   * child, and the printed path is the old chain plus "/name".
   */
  lemma CdName(t: Tree, path: Text)
    requires Wf(t) && path != "" && path != "." && path != ".." && path != "/"
    ensures var (t', r) := Cd(t, path);
      && Wf(t')
      && (r == -1 <==> Find(t, path, Directory) == NIL)
      && (r == -1 ==> t' == t)
      && (r == 0 ==>
            && t' == t.(cwd := Find(t, path, Directory))
            && Chain(t', t'.cwd) == Chain(t, t.cwd) + [t'.cwd]
            && PwdText(t') == Render(t.ns, Chain(t, t.cwd)) + "/" + path)
  {
    var d := Find(t, path, Directory);
    if d != NIL {
      var t' := Cd(t, path).0;
      assert NodeOk(t, d);
      MoveCwdWf(t, d);
      ChainSameLinks(t, t', d);
      ChainSameLinks(t, t', t.cwd);
      RenderSnoc(t.ns, Chain(t, t.cwd), d);
    }
  }

  /** Distinct positions of a list without duplicate entries hold distinct handles. */
  lemma UniqueDistinct(ns: seq<Node>, l: seq<int>, i: int, j: int)
    requires InPool(ns, l) && Unique(ns, l) && 0 <= i < |l| && 0 <= j < |l| && i != j
    ensures l[i] != l[j]
  {
    if i < j {
      assert !Named(ns[l[i]], ns[l[j]].name, ns[l[j]].kind);
    } else {
      assert !Named(ns[l[j]], ns[l[i]].name, ns[l[i]].kind);
    }
  }

  lemma UniqueWithout(ns: seq<Node>, l: seq<int>, i: int)
    requires InPool(ns, l) && Unique(ns, l) && 0 <= i < |l|
    ensures InPool(ns, Without(l, i)) && Unique(ns, Without(l, i))
  {
    var l' := Without(l, i);
    forall a, b | 0 <= a < b < |l'| ensures !Named(ns[l'[a]], ns[l'[b]].name, ns[l'[b]].kind) {
      var a0 := if a < i then a else a + 1;
      var b0 := if b < i then b else b + 1;
      assert l'[a] == l[a0] && l'[b] == l[b0];
    }
  }

  lemma UnlinkHeadSame(t: Tree, p: int)
    requires Shape(t) && 0 <= p < t.count && t.kids[p] != [] && InPool(t.ns, t.kids[p])
    requires ChildrenOk(t, p) && forall j | 0 <= j < |t.kids[p]| :: t.kids[p][j] != p
    ensures ChildrenOk(UnlinkHead(t, p), p)
  {
    var l := t.kids[p];
    var t' := UnlinkHead(t, p);
    var l' := l[1..];
    assert l' == Without(l, 0);
    assert t'.kids[p] == l' && SameEntries(t.ns, t'.ns);
    LinkedTail(t.ns, t'.ns, t.ns[p].children, l);
    ParentsWithout(t.ns, t'.ns, l, 0, p, t.count);
    UniqueWithout(t.ns, l, 0);
    UniqueSameEntries(t.ns, t'.ns, l');
    ChildrenOkFrom(t', p, l');
  }

  /** A list without its head is linked from the head's `next`, when no link in it changed. */
  lemma LinkedTail(ns: seq<Node>, ns': seq<Node>, head: int, l: seq<int>)
    requires Linked(ns, head, l) && l != [] && |ns'| == |ns|
    requires forall j | 1 <= j < |l| :: ns'[l[j]].next == ns[l[j]].next
    ensures Linked(ns', ns[l[0]].next, l[1..])
  {
    var l' := l[1..];
    forall j | 0 <= j < |l'| ensures 0 <= l'[j] < |ns'| && ns'[l'[j]].next == Succ(l', j) {
      assert l'[j] == l[j + 1];
    }
  }

  lemma UnlinkHeadOther(t: Tree, p: int, d: int)
    requires Shape(t) && 0 <= p < t.count && t.kids[p] != [] && InPool(t.ns, t.kids[p])
    requires 0 <= d < t.count && d != p && ChildrenOk(t, d) && ChildrenOk(t, p)
    ensures ChildrenOk(UnlinkHead(t, p), d)
  {
    UniqueSameEntries(t.ns, UnlinkHead(t, p).ns, t.kids[d]);
  }

  /** Unlinking the head of p's children list keeps the tree well formed. */
  lemma UnlinkHeadWf(t: Tree, p: int)
    requires Wf(t) && 0 <= p < t.count && t.kids[p] != [] && InPool(t.ns, t.kids[p])
    ensures Wf(UnlinkHead(t, p)) && SameEntries(t.ns, UnlinkHead(t, p).ns)
  {
    assert ChildrenOk(t, p);
    var t' := UnlinkHead(t, p);
    forall m | 0 <= m < t'.count ensures NodeOk(t', m) {
      assert NodeOk(t, m);
    }
    forall j | 0 <= j < |t.kids[p]| ensures t.kids[p][j] != p {
      assert NodeOk(t, t.kids[p][j]);
    }
    forall d | 0 <= d < t'.count ensures ChildrenOk(t', d) {
      assert ChildrenOk(t, d);
      if d == p { UnlinkHeadSame(t, p); } else { UnlinkHeadOther(t, p, d); }
    }
  }

  lemma UnlinkAfterSame(t: Tree, p: int, i: int)
    requires Shape(t) && 0 <= p < t.count && 0 < i < |t.kids[p]| && InPool(t.ns, t.kids[p])
    requires ChildrenOk(t, p) && t.kids[p][i - 1] != p
    ensures ChildrenOk(UnlinkAfter(t, p, i), p)
  {
    var l := t.kids[p];
    var t' := UnlinkAfter(t, p, i);
    var l' := Without(l, i);
    UnlinkAfterLinked(t, p, i);
    UnlinkAfterEntries(t, p, i);
    ParentsWithout(t.ns, t'.ns, l, i, p, t.count);
    UniqueWithout(t.ns, l, i);
    UniqueSameEntries(t.ns, t'.ns, l');
    ChildrenOkFrom(t', p, l');
  }

  lemma UnlinkAfterEntries(t: Tree, p: int, i: int)
    requires Shape(t) && 0 <= p < t.count && 0 < i < |t.kids[p]| && InPool(t.ns, t.kids[p])
    ensures var t' := UnlinkAfter(t, p, i);
      SameEntries(t.ns, t'.ns) && t'.kids[p] == Without(t.kids[p], i) && t'.ns[p].children == t.ns[p].children
              && t'.count == t.count
  {
  }

  /** The pieces of ChildrenOk, put together. */
  lemma ChildrenOkFrom(t: Tree, p: int, l: seq<int>)
    requires Shape(t) && 0 <= p < t.count && t.kids[p] == l
    requires Linked(t.ns, t.ns[p].children, l)
    requires forall j | 0 <= j < |l| :: 0 < l[j] < t.count && t.ns[l[j]].parent == p
    requires InPool(t.ns, l) && Unique(t.ns, l)
    ensures ChildrenOk(t, p)
  {
  }

  /** Dropping one handle from a list of children of p leaves children of p. */
  lemma ParentsWithout(ns: seq<Node>, ns': seq<Node>, l: seq<int>, i: int, p: int, count: int)
    requires 0 <= i < |l| && SameEntries(ns, ns')
    requires forall j | 0 <= j < |l| :: 0 < l[j] < count && l[j] < |ns| && ns[l[j]].parent == p
    ensures var l' := Without(l, i);
      forall j | 0 <= j < |l'| :: 0 < l'[j] < count && ns'[l'[j]].parent == p
  {
    var l' := Without(l, i);
    forall j | 0 <= j < |l'| ensures 0 < l'[j] < count && ns'[l'[j]].parent == p {
      var j0 := if j < i then j else j + 1;
      assert l'[j] == l[j0];
    }
  }

  lemma UnlinkAfterLinked(t: Tree, p: int, i: int)
    requires Shape(t) && 0 <= p < t.count && 0 < i < |t.kids[p]| && InPool(t.ns, t.kids[p])
    requires ChildrenOk(t, p) && t.kids[p][i - 1] != p
    ensures Linked(UnlinkAfter(t, p, i).ns, t.ns[p].children, Without(t.kids[p], i))
  {
    var l := t.kids[p];
    var prev := l[i - 1];
    var t' := UnlinkAfter(t, p, i);
    var l' := Without(l, i);
    assert t.ns[p].children == Head(l') by { assert l'[0] == l[0]; }
    forall j | 0 <= j < |l'| ensures 0 <= l'[j] < |t'.ns| && t'.ns[l'[j]].next == Succ(l', j) {
      if j < i - 1 {
        assert l'[j] == l[j] && l'[j + 1] == l[j + 1];
        UniqueDistinct(t.ns, l, j, i - 1);
      } else if j == i - 1 {
        assert l'[j] == prev;
        assert Succ(l', j) == Succ(l, i) by {
          if i + 1 < |l| { assert l'[j + 1] == l[i + 1]; }
        }
      } else {
        assert l'[j] == l[j + 1];
        assert j + 1 < |l'| ==> l'[j + 1] == l[j + 2];
        UniqueDistinct(t.ns, l, j + 1, i - 1);
      }
    }
  }

  lemma UnlinkAfterOther(t: Tree, p: int, i: int, d: int)
    requires Shape(t) && 0 <= p < t.count && 0 < i < |t.kids[p]| && InPool(t.ns, t.kids[p])
    requires 0 <= d < t.count && d != p && ChildrenOk(t, d) && ChildrenOk(t, p)
    ensures ChildrenOk(UnlinkAfter(t, p, i), d)
  {
    var prev := t.kids[p][i - 1];
    forall j | 0 <= j < |t.kids[d]| ensures t.kids[d][j] != prev {
    }
    UniqueSameEntries(t.ns, UnlinkAfter(t, p, i).ns, t.kids[d]);
  }

  /** Splicing out the i-th child of p (i > 0) keeps the tree well formed. */
  lemma UnlinkAfterWf(t: Tree, p: int, i: int)
    requires Wf(t) && 0 <= p < t.count && 0 < i < |t.kids[p]| && InPool(t.ns, t.kids[p])
    ensures Wf(UnlinkAfter(t, p, i)) && SameEntries(t.ns, UnlinkAfter(t, p, i).ns)
  {
    assert ChildrenOk(t, p);
    var t' := UnlinkAfter(t, p, i);
    forall m | 0 <= m < t'.count ensures NodeOk(t', m) {
      assert NodeOk(t, m);
    }
    assert t.kids[p][i - 1] != p by { assert NodeOk(t, t.kids[p][i - 1]); }
    forall d | 0 <= d < t'.count ensures ChildrenOk(t', d) {
      assert ChildrenOk(t, d);
      if d == p { UnlinkAfterSame(t, p, i); } else { UnlinkAfterOther(t, p, i, d); }
    }
  }

  /**
   * fs_remove_node succeeds exactly for a node that is still in its parent's
   * children list, and then removes only that node from the list: the other
   * children keep their order.  Otherwise nothing changes.
   */
  lemma RemoveOutcome(t: Tree, x: int)
    requires Wf(t) && (x == NIL || 0 <= x < t.count)
    ensures var (t', r) := Remove(t, x);
      && Wf(t') && SameEntries(t.ns, t'.ns) && t'.count == t.count && t'.cwd == t.cwd
      && (r == 0 || r == -1)
      && (r == 0 <==> x != NIL && Attached(t, x))
      && (r == -1 ==> t' == t)
      && (r == 0 ==> t'.kids == Detach(t, x))
  {
    if x != NIL && Attached(t, x) {
      RemoveAttached(t, x);
    } else {
      RemoveDetached(t, x);
    }
  }

  /** An attached node is unlinked, whether it heads its parent's list or not. */
  lemma RemoveAttached(t: Tree, x: int)
    requires Wf(t) && 0 <= x < t.count && Attached(t, x)
    ensures var (t', r) := Remove(t, x);
      && r == 0 && Wf(t') && SameEntries(t.ns, t'.ns) && t'.count == t.count && t'.cwd == t.cwd
      && t'.kids == Detach(t, x)
  {
    assert NodeOk(t, x);
    var p := t.ns[x].parent;
    var l := t.kids[p];
    assert ChildrenOk(t, p);
    if t.ns[p].children == x {
      UnlinkHeadWf(t, p);
      assert IndexOf(l, x) == 0;
      assert l[1..] == Without(l, 0);
    } else {
      UnlinkAfterWf(t, p, IndexOf(l, x));
    }
  }

  /** The root, NIL and a node no longer in its parent's list are refused. */
  lemma RemoveDetached(t: Tree, x: int)
    requires Wf(t) && (x == NIL || 0 <= x < t.count)
    requires x != NIL ==> !Attached(t, x)
    ensures Remove(t, x) == (t, -1)
  {
    if x != NIL && t.ns[x].parent != NIL {
      assert NodeOk(t, x);
      var p := t.ns[x].parent;
      assert ChildrenOk(t, p);
    }
  }

  /**
   * fs_rm: a file of that name is removed first; otherwise an empty
   * directory of that name; anything else is -1 with nothing changed.  The
   * guards against removing current_dir or the root never fire, because a
   * child of current_dir is neither.  Only the target leaves current_dir's
   * list; the other entries keep their order.
   */
  lemma RmOutcome(t: Tree, path: Text)
    requires Wf(t)
    ensures var (t', r) := Rm(t, path);
      var f := Find(t, path, File);
      var d := Find(t, path, Directory);
      && Wf(t') && SameEntries(t.ns, t'.ns) && t'.count == t.count && t'.cwd == t.cwd
      && (r == 0 || r == -1)
      && (r == 0 <==> path != "" && (f != NIL || (d != NIL && t.kids[d] == [])))
      && (r == -1 ==> t' == t)
      && (r == 0 ==>
            var x := if f != NIL then f else d;
            t'.kids == t.kids[t.cwd := Without(t.kids[t.cwd], IndexOf(t.kids[t.cwd], x))])
  {
    if path != "" {
      var f := Find(t, path, File);
      var d := Find(t, path, Directory);
      if f != NIL {
        RemoveOutcome(t, f);
      } else if d != NIL {
        assert ChildrenOk(t, d);
        assert NodeOk(t, d);
        RemoveOutcome(t, d);
      }
    }
  }
}
