// The knode store: sys/hive/ob/knode.c, store.c and dir.c.
module KnodeStore {
  import opened Errno
  import opened Objects
  import opened Paths

  const KNODE_NAME_LEN := 32
  const PATHBUF_LEN := 128

  // What a lookup or a resolution gives; NULL is a possible answer.
  datatype Outcome = Found(k: Knode?) | Failed(error: int)

  // The first entry of that name.
  function FirstNamed(s: seq<Knode>, name: string): (k: Knode?)
    ensures k != null ==> k in s && k.name == name
    ensures k == null <==> forall i :: 0 <= i < |s| ==> s[i].name != name
  {
    if s == [] then null else if s[0].name == name then s[0] else FirstNamed(s[1..], name)
  }

  // Appending never hides an entry: an earlier one of the same name wins.
  lemma {:induction false} FirstNamedAppend(s: seq<Knode>, k: Knode, name: string)
    ensures FirstNamed(s + [k], name)
         == if FirstNamed(s, name) != null then FirstNamed(s, name) else if k.name == name then k else null
  {
    if s != [] {
      FirstNamedAppend(s[1..], k, name);
      assert (s + [k])[1..] == s[1..] + [k];
    }
  }

  ghost function Named(s: seq<Knode>, name: string): Outcome {
    if FirstNamed(s, name) == null then Failed(-ENOENT) else Found(FirstNamed(s, name))
  }

  // ---- What the store holds, as a value ----

  // The entries of every directory, in order.
  type Tree = map<Directory, seq<Knode>>

  function EntriesOf(tree: Tree, k: Knode): seq<Knode> {
    if k.data != null && k.data in tree then tree[k.data] else []
  }

  // One name looked up below a node, or in the root when there is none yet.
  ghost function Lookup(root: Knode, tree: Tree, at: Knode?, name: string): (r: Outcome)
    ensures r.Found? ==> r.k != null
  {
    if at == null then if name == "/" then Found(root) else Named(EntriesOf(tree, root), name)
    else if at.kind != KDir then Failed(-ENOTDIR)
    else Named(EntriesOf(tree, at), name)
  }

  // Folding first-match lookups over the components.
  ghost function Fold(root: Knode, tree: Tree, at: Knode?, comps: seq<string>): Outcome
    decreases |comps|
  {
    if comps == [] then Found(at)
    else if |comps[0]| > PATHBUF_LEN - 1 then Failed(-ENAMETOOLONG)
    else
      match Lookup(root, tree, at, comps[0])
      case Failed(e) => Failed(e)
      case Found(k) => Fold(root, tree, k, comps[1..])
  }

  lemma FoldStep(root: Knode, tree: Tree, at: Knode?, c: string, rest: seq<string>)
    ensures Fold(root, tree, at, [c] + rest)
         == if |c| > PATHBUF_LEN - 1 then Failed(-ENAMETOOLONG)
            else if Lookup(root, tree, at, c).Failed? then Lookup(root, tree, at, c)
            else Fold(root, tree, Lookup(root, tree, at, c).k, rest)
  {
    assert ([c] + rest)[0] == c && ([c] + rest)[1..] == rest;
  }

  // What a lookup finds, and why it fails: the root by "/" at the start; otherwise
  // ENOTDIR below anything but a directory, and ENOENT without an entry of the name.
  lemma LookupSays(root: Knode, tree: Tree, at: Knode?, name: string)
    ensures var r := Lookup(root, tree, at, name); var dir := if at == null then root else at;
      if at == null && name == "/" then r == Found(root)
      else if at != null && at.kind != KDir then r == Failed(-ENOTDIR)
      else if forall e :: e in EntriesOf(tree, dir) ==> e.name != name then r == Failed(-ENOENT)
      else r == Found(FirstNamed(EntriesOf(tree, dir), name))
  {
  }

  // A resolution that fails does so at its first component that is too long or
  // that is looked up in vain where the components before it lead.
  lemma {:induction false} FoldFails(root: Knode, tree: Tree, at: Knode?, comps: seq<string>) returns (i: nat)
    requires Fold(root, tree, at, comps).Failed?
    ensures i < |comps| && Fold(root, tree, at, comps[..i]).Found?
    ensures var error := Fold(root, tree, at, comps).error; var k := Fold(root, tree, at, comps[..i]).k;
      if |comps[i]| >= PATHBUF_LEN then error == -ENAMETOOLONG
      else if k != null && k.kind != KDir then error == -ENOTDIR
      else error == -ENOENT && forall e :: e in EntriesOf(tree, if k == null then root else k) ==> e.name != comps[i]
    decreases |comps|
  {
    var c, rest := comps[0], comps[1..];
    LookupSays(root, tree, at, c);
    if |c| >= PATHBUF_LEN || Lookup(root, tree, at, c).Failed? {
      i := 0;
      assert comps[..0] == [];
    } else {
      var j := FoldFails(root, tree, Lookup(root, tree, at, c).k, rest);
      i := j + 1;
      assert comps[..i] == [c] + rest[..j];
      FoldStep(root, tree, at, c, rest[..j]);
    }
  }

  // Resolving a longer path goes on where the shorter one ends.
  lemma {:induction false} FoldConcat(root: Knode, tree: Tree, at: Knode?, comps: seq<string>, rest: seq<string>)
    ensures Fold(root, tree, at, comps + rest)
         == if Fold(root, tree, at, comps).Found? then Fold(root, tree, Fold(root, tree, at, comps).k, rest)
            else Fold(root, tree, at, comps)
    decreases |comps|
  {
    if comps == [] {
      assert [] + rest == rest;
    } else {
      assert comps + rest == [comps[0]] + (comps[1..] + rest) && comps == [comps[0]] + comps[1..];
      FoldStep(root, tree, at, comps[0], comps[1..] + rest);
      FoldStep(root, tree, at, comps[0], comps[1..]);
      if |comps[0]| <= PATHBUF_LEN - 1 && Lookup(root, tree, at, comps[0]).Found? {
        FoldConcat(root, tree, Lookup(root, tree, at, comps[0]).k, comps[1..], rest);
      }
    }
  }

  // Directories only come and grow at their ends.
  ghost predicate Grown(tree: Tree, tree': Tree) {
    forall d :: d in tree ==> d in tree' && tree[d] <= tree'[d]
  }

  lemma GrownSame(tree: Tree)
    ensures Grown(tree, tree)
  {
  }

  lemma GrownTwice(t0: Tree, t1: Tree, t2: Tree)
    requires Grown(t0, t1) && Grown(t1, t2)
    ensures Grown(t0, t2)
  {
  }

  lemma {:induction false} FirstNamedGrows(s: seq<Knode>, t: seq<Knode>, name: string)
    requires s <= t && FirstNamed(s, name) != null
    ensures FirstNamed(t, name) == FirstNamed(s, name)
  {
    if s != [] && s[0].name != name { FirstNamedGrows(s[1..], t[1..], name); }
  }

  // What a path resolves to, it resolves to for good, whatever is appended.
  lemma {:induction false} FoldGrows(root: Knode, tree: Tree, tree': Tree, at: Knode?, comps: seq<string>)
    requires Grown(tree, tree') && Fold(root, tree, at, comps).Found?
    ensures Fold(root, tree', at, comps) == Fold(root, tree, at, comps)
    decreases |comps|
  {
    hide FirstNamed;
    if comps != [] {
      var k := if at == null then root else at;
      if comps[0] != "/" || at != null {
        FirstNamedGrows(EntriesOf(tree, k), EntriesOf(tree', k), comps[0]);
      }
      FoldGrows(root, tree, tree', Lookup(root, tree, at, comps[0]).k, comps[1..]);
    }
  }

  // A directory node's directory is one of the tree's.
  ghost predicate HasEntries(tree: Tree, k: Knode) {
    k.kind == KDir ==> k.data != null && k.data in tree
  }

  ghost predicate Apart(tree: Tree, owner: map<Tailq, Directory>) {
    forall d :: d in tree ==> d.list in owner && owner[d.list] == d
  }

  ghost predicate Homed(tree: Tree, home: map<Knode, Directory>) {
    forall d, k :: d in tree && k in tree[d] ==> k in home && home[k] == d && HasEntries(tree, k)
  }

  lemma HomedAppend(tree: Tree, home: map<Knode, Directory>, d: Directory, k: Knode)
    requires Homed(tree, home) && d in tree && HasEntries(tree, k) && forall e :: e in tree ==> k !in tree[e]
    ensures Homed(tree[d := tree[d] + [k]], home[k := d])
  {
    var tree', home' := tree[d := tree[d] + [k]], home[k := d];
    forall e, j | e in tree' && j in tree'[e]
      ensures j in home' && home'[j] == e && HasEntries(tree', j)
    {
      if j != k { assert j in tree[e]; }
    }
  }

  lemma HomedDirectory(tree: Tree, home: map<Knode, Directory>, d: Directory)
    requires Homed(tree, home) && d !in tree
    ensures Homed(tree[d := []], home)
  {
    var tree' := tree[d := []];
    forall e, j | e in tree' && j in tree'[e]
      ensures j in home && home[j] == e && HasEntries(tree', j)
    {
      assert j in tree[e];
    }
  }

  lemma ApartDirectory(tree: Tree, owner: map<Tailq, Directory>, d: Directory)
    requires Apart(tree, owner) && d !in tree && d.list !in owner
    ensures Apart(tree[d := []], owner[d.list := d])
  {
  }

  lemma ApartKept(tree: Tree, tree': Tree, owner: map<Tailq, Directory>)
    requires Apart(tree, owner) && tree'.Keys == tree.Keys
    ensures Apart(tree', owner)
  {
    assert forall d :: d in tree' ==> d in tree;
  }

  lemma HasEntriesKept(tree: Tree, tree': Tree, k: Knode)
    requires HasEntries(tree, k) && tree.Keys <= tree'.Keys
    ensures HasEntries(tree', k)
  {
  }

  lemma HasOwnEntries(tree: Tree, k: Knode)
    requires k.data != null && k.data in tree
    ensures HasEntries(tree, k)
  {
  }

  class Store {
    const root: Knode
    ghost var tree: Tree

    // Whose queue a queue is, and on whose queue a node is.
    ghost var owner: map<Tailq, Directory>
    ghost var home: map<Knode, Directory>
    ghost var Repr: set<object>

    // Every directory node has its directory, no two directories share a queue, no
    // node is on two queues, and every directory is a well-formed queue of the
    // entries in tree.
    ghost predicate Valid()
      reads this, Repr
    {
      && this !in Repr && tree.Keys <= Repr && owner.Keys <= Repr && home.Keys <= Repr
      && root.kind == KDir && Known(root) && Apart(tree, owner) && Homed(tree, home)
      && (forall d :: d in tree ==> d.list.elems == tree[d])
      && forall d :: d in tree ==> d.Valid()
    }

    ghost predicate Known(k: Knode)
      reads this
    {
      HasEntries(tree, k)
    }

    // The node is on no queue.
    ghost predicate Loose(k: Knode)
      reads this
    {
      forall d :: d in tree ==> k !in tree[d]
    }

    // ob_store_init's root, made by ob_dir_new.
    constructor (rootNode: Knode)
      requires rootNode.kind == KDir && rootNode.data != null
      requires rootNode.data.Valid() && rootNode.data.list.elems == []
      ensures Valid() && root == rootNode && tree == map[rootNode.data := []]
    {
      root := rootNode;
      tree, owner, home := map[rootNode.data := []], map[rootNode.data.list := rootNode.data], map[];
      Repr := {rootNode.data, rootNode.data.list};
    }

    // ---- Lookups ----

    // The TAILQ_FOREACH loop of both lookups.
    method FindIn(dir: Directory, name: string) returns (res: Knode?)
      requires dir.Valid()
      ensures res == FirstNamed(dir.list.elems, name)
    {
      ghost var s := dir.list.elems;
      ghost var i := 0;
      var knp := dir.list.first;
      while knp != null
        invariant 0 <= i <= |s| && knp == NextAfter(s, i - 1)
        invariant FirstNamed(s, name) == FirstNamed(s[i..], name)
        decreases |s| - i
      {
        assert Linked(s, i) && s[i..][1..] == s[i + 1..];
        if FirstChar(knp.name) == FirstChar(name) && knp.name == name {
          return knp;
        }
        knp := knp.next;
        i := i + 1;
      }
      return null;
    }

    // ob_root_get.
    method RootGet(name: string) returns (error: int, res: Knode?)
      requires Valid()
      ensures Answers(Lookup(root, tree, null, name), error, res) && (res != null ==> Known(res))
    {
      if name == "/" {
        return 0, root;
      }
      res := FindIn(root.data, name);
      error := if res == null then -ENOENT else 0;
    }

    // knode_subdir_find.
    method SubdirFind(parent: Knode?, name: string) returns (error: int, res: Knode?)
      requires Valid() && (parent != null ==> Known(parent))
      ensures parent == null ==> error == -EINVAL && res == null
      ensures parent != null ==> Answers(Lookup(root, tree, parent, name), error, res) && (res != null ==> Known(res))
    {
      if parent == null {
        return -EINVAL, null;
      }
      if parent.kind != KDir {
        return -ENOTDIR, null;
      }
      res := FindIn(parent.data, name);
      error := if res == null then -ENOENT else 0;
    }

    // Search the root at first, then the node found last.
    method LookupFrom(knp: Knode?, name: string) returns (error: int, res: Knode?)
      requires Valid() && (knp != null ==> Known(knp))
      ensures Answers(Lookup(root, tree, knp, name), error, res) && (res != null ==> Known(res))
    {
      if knp == null {
        error, res := RootGet(name);
      } else {
        error, res := SubdirFind(knp, name);
      }
    }

    // ob_knode_resolve.
    method Resolve(path: string) returns (error: int, res: Knode?)
      requires Valid()
      ensures Answers(Fold(root, tree, null, Components(path)), error, res) && (res != null ==> Known(res))
    {
      hide Components, Fold, Lookup, Store.Valid;
      var pathbuf := new char[PATHBUF_LEN];
      var knp: Knode? := null;
      var p := 0;
      assert path[0..] == path;
      while p < |path|
        invariant 0 <= p <= |path| && (knp != null ==> Known(knp))
        invariant Fold(root, tree, null, Components(path)) == Fold(root, tree, knp, Components(path[p..]))
        decreases |path| - p
      {
        ghost var component, rest;
        var fits, name;
        fits, name, p, component, rest := NextName(path, p, pathbuf);
        FoldStep(root, tree, knp, component, rest);
        if !fits {
          return -ENAMETOOLONG, null;
        }
        error, knp := LookupFrom(knp, name);
        if error != 0 {
          return error, null;
        }
      }
      NoComponents(path);
      FoldEnds(root, tree, knp);
      return 0, knp;
    }

    // ob_dir_append; NULL stands for the root.
    method Append(knp: Knode?, dirNode: Knode?) returns (error: int)
      requires Valid() && (dirNode != null ==> Known(dirNode))
      requires knp != null ==> Known(knp) && Loose(knp)
      modifies this, Repr, knp
      ensures Valid()
      ensures error == if knp == null then -EINVAL else if Target(dirNode).kind != KDir then -ENOTSUP else 0
      ensures tree == if error == 0 then Appended(old(tree), Target(dirNode).data, knp) else old(tree)
      ensures Repr <= old(Repr) + {knp}
    {
      if knp == null {
        return -EINVAL;
      }
      var target := if dirNode == null then root else dirNode;
      if target.kind != KDir {
        return -ENOTSUP;
      }
      AppendTo(target.data, knp);
      error := 0;
    }

    method AppendTo(dir: Directory, knp: Knode)
      requires Valid() && dir in tree && Known(knp) && Loose(knp)
      modifies this, dir, dir.list, dir.list.elems, knp
      ensures Valid() && tree == Appended(old(tree), dir, knp) && Repr <= old(Repr) + {knp}
    {
      hide Directory.Valid, Apart, Homed, HasEntries;
      ghost var tree' := tree[dir := tree[dir] + [knp]];
      HomedAppend(tree, home, dir, knp);
      ApartKept(tree, tree', owner);
      HasEntriesKept(tree, tree', root);
      forall d | d in tree && d != dir ensures Foreign(d, dir, knp) {
        OthersForeign(d, dir, knp);
      }
      dir.Append(knp);
      forall d | d in tree && d != dir
        ensures d.list.elems == tree'[d] && d.Valid()
      {
        assert old(Foreign(d, dir, knp));
        DirectoryUntouched(d);
      }
      Record(tree', owner, home[knp := dir], Repr + {knp});
    }

    // The ghost state catches up with the directories.
    ghost method Record(tree': Tree, owner': map<Tailq, Directory>, home': map<Knode, Directory>, Repr': set<object>)
      requires root.kind == KDir && HasEntries(tree', root) && Apart(tree', owner') && Homed(tree', home')
      requires tree'.Keys <= Repr' && owner'.Keys <= Repr' && home'.Keys <= Repr' && this !in Repr'
      requires forall d :: d in tree' ==> d.list.elems == tree'[d]
      requires forall d :: d in tree' ==> d.Valid()
      modifies this
      ensures Valid() && tree == tree' && owner == owner' && home == home' && Repr == Repr'
    {
      hide Directory.Valid, Apart, Homed, HasEntries;
      tree, owner, home, Repr := tree', owner', home', Repr';
    }

    // Nothing of the directory is touched by an append of the node elsewhere.
    ghost predicate Foreign(d: Directory, dir: Directory, knp: Knode)
      reads d.list, dir.list
    {
      d != dir && d.list != dir.list && forall k :: k in d.list.elems ==> k != knp && k !in dir.list.elems
    }

    lemma OthersForeign(d: Directory, dir: Directory, knp: Knode)
      requires Valid() && dir in tree && d in tree && d != dir && Loose(knp)
      ensures Foreign(d, dir, knp)
    {
      hide Directory.Valid;
      assert owner[d.list] == d && owner[dir.list] == dir;
      forall k | k in tree[d] ensures k != knp && k !in tree[dir] {
        assert home[k] == d;
      }
    }

    // A directory node made by DirNew comes under the store's care, still empty,
    // before it is appended somewhere.
    ghost method Adopt(k: Knode)
      requires Valid() && k.kind == KDir && k.data != null && k.data !in tree
      requires k.data.Valid() && k.data.list.elems == [] && k.data.list !in owner
      modifies this
      ensures Valid() && tree == old(tree)[k.data := []] && Known(k)
      ensures Repr == old(Repr) + {k.data, k.data.list}
    {
      hide Directory.Valid, Apart, Homed, HasEntries;
      HomedDirectory(tree, home, k.data);
      ApartDirectory(tree, owner, k.data);
      ghost var tree' := tree[k.data := []];
      HasEntriesKept(tree, tree', root);
      HasOwnEntries(tree', k);
      Record(tree', owner[k.data.list := k.data], home, Repr + {k.data, k.data.list});
    }

    // A path that ends in a slash, "/" included, asks for an empty name where the
    // rest of the path leads: it is found exactly when that is a directory, or the
    // root, with an entry of the empty name.
    lemma TrailingSlash(path: string)
      requires EndsInSlash(path)
      ensures var o := Fold(root, tree, null, NonEmpty(Split(path)));
        var whole := Fold(root, tree, null, Components(path));
        && (whole.Found? <==> o.Found? && (o.k == null || o.k.kind == KDir)
                              && FirstNamed(EntriesOf(tree, if o.k == null then root else o.k), "") != null)
        && (whole.Found? ==> whole.k == FirstNamed(EntriesOf(tree, if o.k == null then root else o.k), ""))
    {
      hide Fold, FirstNamed, EntriesOf;
      var comps := NonEmpty(Split(path));
      ComponentsAreSplit(path);
      FoldConcat(root, tree, null, comps, [""]);
      var o := Fold(root, tree, null, comps);
      if o.Found? {
        FoldStep(root, tree, o.k, "", []);
        assert [""] + [] == [""];
        var found := Lookup(root, tree, o.k, "");
        if found.Found? { FoldEnds(root, tree, found.k); }
      }
    }

    // entry_count, nelem and the length of the list are one number.
    lemma CountsAgree(d: Directory)
      requires Valid() && d in tree
      ensures d.entryCount == d.list.nelem == |tree[d]|
    {
      assert d.Valid();
    }

    lemma RootKnown()
      requires Valid()
      ensures root.kind == KDir && Known(root)
    {
    }

    function Target(dirNode: Knode?): Knode {
      if dirNode == null then root else dirNode
    }
  }

  ghost function Appended(tree: Tree, d: Directory?, k: Knode?): Tree {
    if d != null && d in tree && k != null then tree[d := tree[d] + [k]] else tree
  }

  lemma FoldEnds(root: Knode, tree: Tree, at: Knode?)
    ensures Fold(root, tree, at, []) == Found(at)
  {
  }

  // ob_knode_new; room says whether the pool has memory for the node.
  method KnodeNew(name: string, kind: Kind, data: Directory?, room: bool) returns (error: int, res: Knode?)
    ensures error == if |name| >= KNODE_NAME_LEN - 1 then -ENAMETOOLONG else if !room then -ENOMEM else 0
    ensures error != 0 ==> res == null
    ensures error == 0 ==> fresh(res) && res.name == name && res.kind == kind && res.data == data && res.ref == 1
  {
    if |name| >= KNODE_NAME_LEN - 1 {
      return -ENAMETOOLONG, null;
    }
    if !room {
      return -ENOMEM, null;
    }
    res := new Knode(name, kind, data);
    error := 0;
  }

  // ob_dir_new; roomForData for the directory behind the node.
  method DirNew(name: string, room: bool, roomForData: bool) returns (error: int, res: Knode?)
    ensures error
         == if |name| >= KNODE_NAME_LEN - 1 then -ENAMETOOLONG else if !(room && roomForData) then -ENOMEM else 0
    ensures error != 0 ==> res == null
    ensures error == 0 ==>
      && fresh(res) && res.name == name && res.kind == KDir && res.data != null && fresh(res.data)
      && res.data.Valid() && fresh(res.data.list) && res.data.list.elems == []
  {
    var dir := new Directory();
    error, res := KnodeNew(name, KDir, dir, room);
    if error != 0 {
      return;
    }
    if !roomForData {
      return -ENOMEM, null;
    }
  }

  // ---- Building a store ----

  // Make a node or a directory under the directory that a path names. room and
  // roomForData say whether the pool has memory.
  datatype Creation = Creation(parent: string, name: string, dir: bool, room: bool, roomForData: bool)

  function PathOf(r: Creation): string { r.parent + "/" + r.name }

  // Names that can be looked up under that path.
  predicate Addressable(r: Creation) {
    r.name != "" && (forall k :: 0 <= k < |r.name| ==> r.name[k] != '/') && !EndsInSlash(r.parent)
  }

  function NodeError(r: Creation): int {
    if |r.name| >= KNODE_NAME_LEN - 1 then -ENAMETOOLONG
    else if !r.room || (r.dir && !r.roomForData) then -ENOMEM
    else 0
  }

  // The first thing that goes wrong: the path, the node, the directory.
  function CreationError(r: Creation, at: Outcome): int {
    if at.Failed? then at.error
    else if NodeError(r) != 0 then NodeError(r)
    else if at.k != null && at.k.kind != KDir then -ENOTSUP
    else 0
  }

  // A creation succeeds exactly when the path leads to a directory or to the root,
  // the name fits and there is memory; and which error is answered otherwise.
  lemma CreationErrorSays(r: Creation, at: Outcome)
    requires at.Failed? ==> at.error != 0
    ensures CreationError(r, at) == 0
       <==> at.Found? && (at.k == null || at.k.kind == KDir) && |r.name| < KNODE_NAME_LEN - 1
            && r.room && (r.dir ==> r.roomForData)
    ensures at.Failed? ==> CreationError(r, at) == at.error
    ensures at.Found? && |r.name| >= KNODE_NAME_LEN - 1 ==> CreationError(r, at) == -ENAMETOOLONG
    ensures at.Found? && |r.name| < KNODE_NAME_LEN - 1 && (!r.room || (r.dir && !r.roomForData)) ==>
      CreationError(r, at) == -ENOMEM
    ensures at.Found? && |r.name| < KNODE_NAME_LEN - 1 && r.room && (r.dir ==> r.roomForData) ==>
      at.k != null && at.k.kind != KDir ==> CreationError(r, at) == -ENOTSUP
  {
  }

  // Directories have been added, and none has changed.
  ghost predicate Extended(tree: Tree, tree': Tree) {
    forall d :: d in tree ==> d in tree' && tree'[d] == tree[d]
  }

  method NewNode(store: Store, r: Creation) returns (error: int, res: Knode?)
    requires store.Valid()
    modifies store
    ensures store.Valid() && error == NodeError(r) && Extended(old(store.tree), store.tree)
    ensures error != 0 ==> res == null
    ensures error == 0 ==> fresh(res) && res.name == r.name && store.Known(res) && store.Loose(res)
    ensures error == 0 ==> (res.kind == KDir <==> r.dir) && EntriesOf(store.tree, res) == []
    ensures error == 0 && res.data != null ==> res.data !in old(store.tree)
    ensures fresh(store.Repr - old(store.Repr))
  {
    hide Store.Valid, Directory.Valid;
    if r.dir {
      error, res := DirNew(r.name, r.room, r.roomForData);
      if error == 0 { store.Adopt(res); }
    } else {
      error, res := KnodeNew(r.name, KClockDevice, null, r.room);
    }
  }

  // Of two entries of one name the earlier one is found.
  ghost function Winner(root: Knode, tree: Tree, r: Creation, res: Knode): Knode
    requires Fold(root, tree, null, Components(r.parent)).Found?
  {
    var at := Fold(root, tree, null, Components(r.parent)).k;
    var earlier := FirstNamed(EntriesOf(tree, if at == null then root else at), r.name);
    if earlier == null then res else earlier
  }

  // What a creation leaves: directories have only grown, and the path of the new
  // node resolves, to the node itself unless its name was taken.
  ghost predicate Created(root: Knode, tree: Tree, r: Creation, res: Knode, tree': Tree) {
    && Fold(root, tree, null, Components(r.parent)).Found? && res.name == r.name
    && (Addressable(r) ==>
          Fold(root, tree', null, Components(PathOf(r))) == Found(Winner(root, tree, r, res)))
  }

  // The entry appended last is found unless an earlier one has its name.
  lemma CreatedAt(root: Knode, tree: Tree, r: Creation, at: Knode?, res: Knode, tree': Tree)
    requires Fold(root, tree, null, Components(r.parent)) == Found(at)
    requires res.name == r.name && |r.name| <= PATHBUF_LEN - 1
    requires var dir := if at == null then root else at;
      && dir.kind == KDir && dir.data != null && dir.data in tree && Grown(tree, tree')
      && dir.data in tree' && tree'[dir.data] == tree[dir.data] + [res]
    ensures Created(root, tree, r, res, tree')
  {
    hide Components, Fold, FirstNamed, Grown;
    if Addressable(r) {
      var dir := if at == null then root else at;
      assert Fold(root, tree', null, Components(PathOf(r))) == Fold(root, tree', at, [r.name]) by {
        ComponentsBelow(r.parent, r.name);
        FoldGrows(root, tree, tree', null, Components(r.parent));
        FoldConcat(root, tree', null, Components(r.parent), [r.name]);
      }
      FirstNamedAppend(tree[dir.data], res, r.name);
      assert [r.name] + [] == [r.name] && r.name[0] != '/';
      FoldStep(root, tree', at, r.name, []);
      FoldEnds(root, tree', Winner(root, tree, r, res));
    }
  }

  lemma ExtendedSame(tree: Tree)
    ensures Extended(tree, tree)
  {
  }

  lemma GrownExtended(tree: Tree, tree': Tree, d: Directory?, k: Knode?)
    requires Extended(tree, tree')
    ensures Grown(tree, tree') && Grown(tree, Appended(tree', d, k))
  {
  }

  lemma AppendedEntries(tree: Tree, tree': Tree, dir: Knode, k: Knode)
    requires dir.data != null && dir.data in tree && Extended(tree, tree')
    requires EntriesOf(tree', k) == [] && (k.data != null ==> k.data !in tree)
    ensures EntriesOf(Appended(tree', dir.data, k), k) == []
    ensures dir.data in Appended(tree', dir.data, k) && Appended(tree', dir.data, k)[dir.data] == tree[dir.data] + [k]
  {
  }

  method Create(store: Store, r: Creation) returns (error: int, res: Knode?)
    requires store.Valid()
    modifies store, store.Repr
    ensures store.Valid() && Grown(old(store.tree), store.tree)
    ensures error == CreationError(r, Fold(store.root, old(store.tree), null, Components(r.parent)))
    ensures error != 0 ==> res == null && Extended(old(store.tree), store.tree)
    ensures error == 0 ==> fresh(res) && Created(store.root, old(store.tree), r, res, store.tree)
    ensures error == 0 ==> (res.kind == KDir <==> r.dir) && EntriesOf(store.tree, res) == []
    ensures fresh(store.Repr - old(store.Repr))
  {
    hide Store.Valid, Components, Fold, Lookup, EntriesOf, Appended, Extended, Created, Grown;
    store.RootKnown();
    ghost var tree := store.tree;
    ExtendedSame(tree);
    GrownExtended(tree, tree, null, null);
    var at;
    error, at := store.Resolve(r.parent);
    if error != 0 {
      return error, null;
    }
    error, res := NewNode(store, r);
    GrownExtended(tree, store.tree, store.Target(at).data, res);
    if error != 0 {
      return error, null;
    }
    ghost var tree1 := store.tree;
    error := store.Append(res, at);
    if error != 0 {
      return error, null;
    }
    AppendedEntries(tree, tree1, store.Target(at), res);
    CreatedAt(store.root, tree, r, at, res, store.tree);
  }

  // In a directory just made under a free name, a node is found as itself.
  lemma FoundInNewDirectory(root: Knode, t0: Tree, d: Creation, dir: Knode, t1: Tree, r: Creation, res: Knode, t2: Tree)
    requires Created(root, t0, d, dir, t1) && Addressable(d) && Winner(root, t0, d, dir) == dir
    requires EntriesOf(t1, dir) == [] && r.parent == PathOf(d)
    requires Created(root, t1, r, res, t2) && Addressable(r)
    ensures Fold(root, t2, null, Components(PathOf(r))) == Found(res)
  {
    hide Components, Fold;
    assert FirstNamed([], r.name) == null;
  }

  lemma CreatedGrows(root: Knode, tree: Tree, r: Creation, res: Knode, tree': Tree, tree'': Tree)
    requires Created(root, tree, r, res, tree') && Grown(tree', tree'')
    ensures Created(root, tree, r, res, tree'')
  {
    hide Components, Fold, Grown, Winner;
    if Addressable(r) { FoldGrows(root, tree', tree'', null, Components(PathOf(r))); }
  }

  // What creation i of a run did, and what is left of it in the last tree.
  ghost predicate Logged(root: Knode, r: Creation, error: int, node: Knode?, before: Tree, after: Tree, last: Tree) {
    && Grown(before, after) && Grown(after, last)
    && error == CreationError(r, Fold(root, before, null, Components(r.parent)))
    && (node == null <==> error != 0)
    && (node != null ==> Created(root, before, r, node, last))
  }

  lemma LoggedGrows(root: Knode, r: Creation, error: int, node: Knode?, before: Tree, after: Tree, last: Tree,
                    last': Tree)
    requires Logged(root, r, error, node, before, after, last) && Grown(last, last')
    ensures Logged(root, r, error, node, before, after, last')
  {
    hide Components, Fold, Grown, Created;
    GrownTwice(after, last, last');
    if node != null { CreatedGrows(root, before, r, node, last, last'); }
  }

  // Any run of creations: what was resolved before still is, and in the end the
  // path of every node made still leads to it, or to what had its name before.
  method CreateAll(store: Store, rs: seq<Creation>)
    returns (errors: seq<int>, nodes: seq<Knode?>, ghost trees: seq<Tree>)
    requires store.Valid()
    modifies store, store.Repr
    ensures store.Valid() && fresh(store.Repr - old(store.Repr))
    ensures |errors| == |rs| && |nodes| == |rs| && |trees| == |rs| + 1
    ensures trees[0] == old(store.tree) && Grown(old(store.tree), store.tree)
    ensures forall i :: 0 <= i < |rs| ==>
      Logged(store.root, rs[i], errors[i], nodes[i], trees[i], trees[i + 1], store.tree)
  {
    hide Store.Valid, Logged, Grown;
    errors, nodes, trees := [], [], [store.tree];
    GrownSame(store.tree);
    for n := 0 to |rs|
      invariant store.Valid() && fresh(store.Repr - old(store.Repr))
      invariant |errors| == n && |nodes| == n && |trees| == n + 1
      invariant trees[0] == old(store.tree) && trees[n] == store.tree && Grown(old(store.tree), store.tree)
      invariant forall i :: 0 <= i < n ==>
        Logged(store.root, rs[i], errors[i], nodes[i], trees[i], trees[i + 1], store.tree)
    {
      ghost var tree := store.tree;
      var error, res := Create(store, rs[n]);
      forall i | 0 <= i < n
        ensures Logged(store.root, rs[i], errors[i], nodes[i], trees[i], trees[i + 1], store.tree)
      {
        LoggedGrows(store.root, rs[i], errors[i], nodes[i], trees[i], trees[i + 1], tree, store.tree);
      }
      GrownSame(store.tree);
      GrownTwice(old(store.tree), tree, store.tree);
      LoggedNow(store.root, rs[n], error, res, tree, store.tree);
      errors, nodes, trees := errors + [error], nodes + [res], trees + [store.tree];
    }
  }

  lemma LoggedNow(root: Knode, r: Creation, error: int, node: Knode?, before: Tree, after: Tree)
    requires Grown(before, after) && error == CreationError(r, Fold(root, before, null, Components(r.parent)))
    requires (node == null <==> error != 0) && (node != null ==> Created(root, before, r, node, after))
    ensures Logged(root, r, error, node, before, after, after)
  {
    hide Created;
    GrownSame(after);
  }

  // A directory none of whose fields or entries changed is still well formed.
  twostate lemma DirectoryUntouched(d: Directory)
    requires old(d.Valid()) && unchanged(d) && unchanged(d.list) && forall k :: k in d.list.elems ==> unchanged(k)
    ensures d.Valid()
  {
    ghost var s := d.list.elems;
    forall i | 0 <= i < |s| ensures Linked(s, i) {
      assert old(Linked(s, i)) && s[i] in s;
    }
  }

  // Error code and result pointer say what the outcome is.
  ghost predicate Answers(o: Outcome, error: int, res: Knode?) {
    match o
    case Found(k) => error == 0 && res == k
    case Failed(e) => error == e && e != 0
  }

  function FirstChar(s: string): char { if s == "" then '\0' else s[0] }

  // ---- The path loops ----

  method SkipLoop(path: string, p0: nat) returns (p: nat)
    requires p0 <= |path|
    ensures p0 <= p <= |path| && path[p..] == SkipSlashes(path[p0..])
  {
    hide SkipSlashes;
    p := p0;
    while p < |path| && path[p] == '/'
      invariant p0 <= p <= |path| && SkipSlashes(path[p..]) == SkipSlashes(path[p0..])
    {
      SlashSkips(path, p);
      p := p + 1;
    }
    SkipStops(path, p);
  }

  lemma SlashSkips(path: string, p: nat)
    requires p < |path| && path[p] == '/'
    ensures SkipSlashes(path[p..]) == SkipSlashes(path[p + 1..])
  {
    assert path[p..][1..] == path[p + 1..];
  }

  lemma SkipStops(path: string, p: nat)
    requires p <= |path| && (p < |path| ==> path[p] != '/')
    ensures SkipSlashes(path[p..]) == path[p..]
  {
  }

  // One round of the loop's two scans: the next component, as it arrives in the
  // buffer of 128 bytes.
  method NextName(path: string, p0: nat, pathbuf: array<char>)
    returns (fits: bool, name: string, p: nat, ghost component: string, ghost rest: seq<string>)
    requires p0 < |path| && pathbuf.Length == PATHBUF_LEN
    modifies pathbuf
    ensures Components(path[p0..]) == [component] + rest && (fits <==> |component| <= PATHBUF_LEN - 1)
    ensures fits ==> name == component && p0 < p <= |path| && rest == Components(path[p..])
  {
    hide Components, SkipSlashes, FirstComponent;
    NextComponent(path[p0..]);
    ghost var q := SkipSlashes(path[p0..]);
    component := FirstComponent(q);
    rest := Components(q[|component|..]);
    p := SkipLoop(path, p0);
    var idx, p1;
    ghost var skipped := p;
    fits, idx, p1 := FillLoop(path, p, pathbuf);
    name := [];
    if fits {
      p := p1;
      name := pathbuf[..idx];
      assert path[p..] == q[|component|..];
    }
  }

  method FillLoop(path: string, p0: nat, pathbuf: array<char>) returns (fits: bool, idx: nat, p: nat)
    requires p0 <= |path| && pathbuf.Length == PATHBUF_LEN
    modifies pathbuf
    ensures var c := FirstComponent(path[p0..]);
      && (fits <==> |c| <= PATHBUF_LEN - 1)
      && (fits ==> idx == |c| && pathbuf[..idx] == c && p == p0 + |c| && pathbuf[idx] == '\0')
  {
    hide FirstComponent;
    p, idx := p0, 0;
    ghost var component := FirstComponent(path[p0..]);
    while p < |path| && path[p] != '/'
      invariant p == p0 + idx <= |path| && idx <= PATHBUF_LEN - 1
      invariant idx <= |component| && pathbuf[..idx] == component[..idx]
      invariant FirstComponent(path[p..]) == component[idx..]
    {
      ComponentGrows(path, p);
      assert component[idx..][0] == path[p] && component[idx..][1..] == component[idx + 1..];
      if idx >= PATHBUF_LEN - 1 {
        return false, idx, p;
      }
      pathbuf[idx] := path[p];
      idx := idx + 1;
      p := p + 1;
    }
    ComponentEnds(path, p);
    pathbuf[idx] := '\0';
    fits := true;
  }

  lemma ComponentGrows(path: string, p: nat)
    requires p < |path| && path[p] != '/'
    ensures FirstComponent(path[p..]) == [path[p]] + FirstComponent(path[p + 1..])
  {
    assert path[p..][1..] == path[p + 1..];
  }

  lemma ComponentEnds(path: string, p: nat)
    requires p <= |path| && (p < |path| ==> path[p] == '/')
    ensures FirstComponent(path[p..]) == ""
  {
  }

  lemma NextComponent(p: string)
    requires p != ""
    ensures var q := SkipSlashes(p); var c := FirstComponent(q);
      Components(p) == [c] + Components(q[|c|..]) && |q| - |c| < |p|
  {
    if SkipSlashes(p) == "" { assert FirstComponent("") == "" && Components("") == []; }
  }

  lemma NoComponents(path: string)
    ensures path[|path|..] == "" && Components("") == []
  {
  }
}
