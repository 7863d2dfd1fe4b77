/**
 * The older revision of the filesystem, fs.c at the top of the repository.
 * Its fs_init, fs_create_node, fs_mkdir, fs_ls and fs_cd behave exactly as
 * those of src/fs/fs.c (mkdir and cd spell the lookup loop out inline
 * instead of calling fs_find_dir), so they are the members of Fs.FileSystem.
 * Only fs_pwd differs: its walk does not stop at the root, so the root's
 * own name "/" is prepended as well.
 */
module FsLegacy {
  import opened Base
  import KLib
  import opened FsTree
  import Fs

  /**
   * What the older fs_pwd prints: "/" and the root's name "/" before the
   * path src/fs/fs.c prints, so "//" at the root and "///a" below it.
   */
  ghost function PwdText(t: Tree): (s: string)
    requires Wf(t)
    ensures InPool(t.ns, [ROOT] + Chain(t, t.cwd))
    ensures t.cwd == ROOT ==> s == "/" + FsTree.PwdText(t)
    ensures t.cwd != ROOT ==> s == "/" + "/" + FsTree.PwdText(t)
  {
    var c := Chain(t, t.cwd);
    RenderCons(t.ns, ROOT, c);
    assert c != [] ==> |Render(t.ns, c)| > 0;
    Render(t.ns, [ROOT] + c)
  }

  /** The older fs_pwd never prints the path the newer one prints; at the root it prints "//". */
  lemma DoubledSlash(t: Tree)
    requires Wf(t)
    ensures PwdText(t) != FsTree.PwdText(t)
    ensures t.cwd == ROOT ==> PwdText(t) == "//"
  {
    assert |PwdText(t)| > |FsTree.PwdText(t)|;
    if t.cwd == ROOT {
      CdSpecial(t.(cwd := ROOT), "/");
      assert t.(cwd := ROOT) == t;
    }
  }

  /** fs_pwd of fs.c: the walk goes on through the root until the NULL parent. */
  method Pwd(fs: Fs.FileSystem) returns (p: string)
    requires fs.Valid() && |PwdText(fs.Model())| < MAX_PATH_LEN
    ensures p == PwdText(fs.Model())
  {
    ghost var t := fs.Model();
    ChainParents(t, fs.cwd);
    var path := WalkToNull(fs.nodes, fs.cwd, [ROOT] + Chain(t, fs.cwd));
    var len := KLib.StrLen(path[..]);
    if len == 0 {
      // The root's own "/" is always prepended, so the path is never empty.
      assert false;
    }
    p := KLib.CStr(path[..]);
  }

  /** The loop of the older fs_pwd over a chain that starts at the root. */
  method WalkToNull(nodes: array<Node>, start: int, ghost chain: seq<int>) returns (path: array<char>)
    requires chain != [] && chain[0] == ROOT && chain[|chain| - 1] == start
    requires forall j | 0 <= j < |chain| :: 0 <= chain[j] < nodes.Length
    requires nodes[ROOT].parent == NIL
    requires forall j | 0 < j < |chain| :: nodes[chain[j]].parent == chain[j - 1]
    requires |Render(nodes[..], chain)| < MAX_PATH_LEN
    ensures fresh(path) && path.Length == MAX_PATH_LEN
    ensures '\0' in path[..] && KLib.CStr(path[..]) == Render(nodes[..], chain)
  {
    ghost var ns := nodes[..];
    path := new char[MAX_PATH_LEN](_ => '\0');
    var node := start;
    ghost var k := |chain|;
    assert chain[k..] == [];
    assert path[..][0] == '\0' && path[..][..0] == [];
    KLib.CLenAt(path[..], 0);
    while node != NIL
      invariant 0 <= k <= |chain|
      invariant node == (if k == 0 then NIL else chain[k - 1])
      invariant '\0' in path[..] && KLib.CStr(path[..]) == Render(ns, chain[k..])
      decreases k
    {
      Fs.FileSystem.PwdStep(path, nodes[node].name, ns, chain, k);
      node := nodes[node].parent;
      k := k - 1;
    }
    assert chain[k..] == chain;
  }
}
