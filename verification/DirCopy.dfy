/**
 Recursive directory copy that keeps hard links (`copy_dir_recursive` of src/utils/cutils/utils_file.c).
 The source is a tree of files whose inodes a table describes; the destination is a map from paths to
 nodes and from inode numbers to contents. System calls on a fresh destination succeed.

 The map that remembers the first copy of a file has keys of type int, as in DirSize.
 */
module DirCopy {
  import opened Common
  import opened DirTree

  type Path = seq<string>

  /** What `lstat` says of a source inode that is no directory. `nlink` is the reported link count. */
  datatype Inode = Regular(content: string, nlink: nat) | Symlink(target: string) | Device | FifoOrSocket

  type InodeTable = FileId -> Inode

  /** A node of the destination. */
  datatype Copy = CopyDir | CopyRegular(ino: nat) | CopySymlink(target: string) | CopyDevice

  predicate Shared(table: InodeTable, id: FileId) { table(id).Regular? && table(id).nlink > 1 }

  /** Two files that the copy takes for one: both shared, and with the same key. */
  predicate Confused(table: InodeTable, x: FileId, y: FileId) { Shared(table, x) && Shared(table, y) && Key(x) == Key(y) }

  // ----- what a copy should look like

  /** Where each node of a tree goes. */
  function Layout(n: Node, at: Path): map<Path, Node>
    decreases n, 0
  {
    match n
    case File(_) => map[at := n]
    case Dir(entries) => LayoutIn(entries, at)[at := n]
  }

  function LayoutIn(es: seq<Entry>, at: Path): map<Path, Node>
    decreases es, 1
  {
    if es == [] then map[]
    else var e := es[|es| - 1]; LayoutIn(es[..|es| - 1], at) + Layout(e.node, at + [e.name])
  }

  /** Names in a directory are distinct. */
  predicate WellFormed(n: Node)
    decreases n, 0
  {
    n.Dir? ==> WellFormedIn(n.entries)
  }

  predicate WellFormedIn(es: seq<Entry>)
    decreases es, 1
  {
    && (forall i, j :: 0 <= i < j < |es| ==> es[i].name != es[j].name)
    && (forall i :: 0 <= i < |es| ==> WellFormed(es[i].node))
  }

  /** No fifo and no socket anywhere. */
  predicate Copyable(n: Node, table: InodeTable)
    decreases n, 0
  {
    match n
    case File(id) => !table(id).FifoOrSocket?
    case Dir(entries) => CopyableIn(entries, table)
  }

  predicate CopyableIn(es: seq<Entry>, table: InodeTable)
    decreases es, 1
  {
    forall i :: 0 <= i < |es| ==> Copyable(es[i].node, table)
  }

  lemma {:induction false} LayoutBelow(n: Node, at: Path, p: Path)
    requires p in Layout(n, at)
    ensures at <= p
    decreases n, 0
  {
    if n.Dir? && p != at { LayoutInBelow(n.entries, at, p); }
  }

  lemma {:induction false} LayoutInBelow(es: seq<Entry>, at: Path, p: Path)
    requires p in LayoutIn(es, at)
    ensures at < p && exists i :: 0 <= i < |es| && at + [es[i].name] <= p
    decreases es, 1
  {
    var last := |es| - 1;
    if p in Layout(es[last].node, at + [es[last].name]) {
      LayoutBelow(es[last].node, at + [es[last].name], p);
    } else {
      LayoutInBelow(es[..last], at, p);
      var i :| 0 <= i < last && at + [es[..last][i].name] <= p;
      assert at + [es[i].name] <= p;
    }
  }

  // ----- the layout is the tree

  function EntryNamed(es: seq<Entry>, name: string): Option<Node> {
    if es == [] then None
    else if es[|es| - 1].name == name then Some(es[|es| - 1].node)
    else EntryNamed(es[..|es| - 1], name)
  }

  /** What a path leads to, name by name. */
  function NodeAt(n: Node, rel: Path): Option<Node>
    decreases |rel|
  {
    if rel == [] then Some(n)
    else if n.File? then None
    else match EntryNamed(n.entries, rel[0])
      case None => None
      case Some(child) => NodeAt(child, rel[1..])
  }

  /** The layout has at every path what the path leads to in the tree, and nothing else. */
  lemma {:induction false} LayoutIsTree(n: Node, at: Path, rel: Path)
    requires WellFormed(n)
    ensures At(Layout(n, at), at + rel) == NodeAt(n, rel)
    decreases n, 0
  {
    if rel == [] {
      AppendNothing(at);
    } else {
      assert (at + rel)[|at|] == rel[0];
      if n.Dir? { LayoutInIsTree(n.entries, at, rel); }
    }
  }

  function At(layout: map<Path, Node>, p: Path): Option<Node> { if p in layout then Some(layout[p]) else None }

  lemma {:induction false} LayoutInIsTree(es: seq<Entry>, at: Path, rel: Path)
    requires WellFormedIn(es) && rel != []
    ensures At(LayoutIn(es, at), at + rel) ==
            match EntryNamed(es, rel[0]) case None => None case Some(child) => NodeAt(child, rel[1..])
    decreases es, 1
  {
    if es != [] {
      var last := |es| - 1;
      var e, p := es[last], at + rel;
      assert p[|at|] == rel[0];
      LayoutInIsTree(es[..last], at, rel);
      if e.name == rel[0] {
        assert at + [e.name] + rel[1..] == p;
        LayoutIsTree(e.node, at + [e.name], rel[1..]);
        if p in LayoutIn(es[..last], at) { NotBelowSibling(es, last, at, p); }
      } else {
        OtherBranch(at, e.name, rel);
        if p in Layout(e.node, at + [e.name]) { LayoutBelow(e.node, at + [e.name], p); }
      }
    }
  }

  lemma OtherBranch(at: Path, name: string, rel: Path)
    requires rel != [] && rel[0] != name
    ensures !(at + [name] <= at + rel)
  {
    assert (at + [name])[|at|] == name && (at + rel)[|at|] == rel[0];
  }

  // ----- the order of copying

  function Order(n: Node): seq<FileId>
    decreases n, 0
  {
    match n
    case File(id) => [id]
    case Dir(entries) => OrderIn(entries)
  }

  function OrderIn(es: seq<Entry>): seq<FileId>
    decreases es, 1
  {
    if es == [] then [] else OrderIn(es[..|es| - 1]) + Order(es[|es| - 1].node)
  }

  /** The first shared file with the key. */
  function FirstShared(table: InodeTable, ids: seq<FileId>, k: nat): Option<FileId> {
    if ids == [] then None
    else if Shared(table, ids[0]) && Key(ids[0]) == k then Some(ids[0])
    else FirstShared(table, ids[1..], k)
  }

  lemma {:induction false} FirstSharedAppend(table: InodeTable, ids: seq<FileId>, id: FileId, k: nat)
    ensures FirstShared(table, ids + [id], k) ==
            if FirstShared(table, ids, k).None? && Shared(table, id) && Key(id) == k then Some(id) else FirstShared(table, ids, k)
  {
    if ids == [] {
      assert ids + [id] == [id] && [id][1..] == [];
    } else {
      assert (ids + [id])[1..] == ids[1..] + [id];
      FirstSharedAppend(table, ids[1..], id, k);
    }
  }

  /** The file whose contents a copy gets: of files taken for one, the first. */
  function WrittenId(table: InodeTable, ids: seq<FileId>, id: FileId): FileId {
    var first := FirstShared(table, ids, Key(id));
    if Shared(table, id) && first.Some? then first.value else id
  }

  // ----- the destination

  /** The destination file system and the map from keys to the path of the first copy. `origin` records
      which source file each regular file was copied for. */
  datatype State = State(nodes: map<Path, Copy>, contents: map<nat, string>, links: map<nat, Path>, origin: map<Path, FileId>)

  /** Every copied regular file has the contents of the file its first copy was made from; two of them
      are one inode exactly when their sources are taken for one. */
  ghost predicate Inv(s: State, table: InodeTable) { AllFaithful(s, table) && AllLinkedRight(s, table) && AllFirstCopies(s, table) }

  ghost predicate AllFaithful(s: State, table: InodeTable) {
    forall p {:trigger Faithful(s, table, p)} :: p in s.origin ==> Faithful(s, table, p)
  }

  ghost predicate AllLinkedRight(s: State, table: InodeTable) {
    forall p, q {:trigger LinkedRight(s, table, p, q)} :: p in s.origin && q in s.origin && p != q ==> LinkedRight(s, table, p, q)
  }

  ghost predicate AllFirstCopies(s: State, table: InodeTable) {
    forall k {:trigger FirstCopy(s, table, k)} :: k in s.links ==> FirstCopy(s, table, k)
  }

  /** The map of links leads to the copy of a shared file with the key. */
  ghost predicate FirstCopy(s: State, table: InodeTable, k: nat)
    requires k in s.links
  {
    var first := s.links[k];
    first in s.origin && Key(s.origin[first]) == k && Shared(table, s.origin[first])
  }

  /** Where the contents of the copy at p were written: at the first copy of a shared file, or at p. */
  function WrittenAt(s: State, table: InodeTable, p: Path): Path
    requires p in s.origin
  {
    var k := Key(s.origin[p]);
    if Shared(table, s.origin[p]) && k in s.links then s.links[k] else p
  }

  ghost predicate Faithful(s: State, table: InodeTable, p: Path)
    requires p in s.origin
  {
    && p in s.nodes && s.nodes[p].CopyRegular? && s.nodes[p].ino in s.contents
    && table(s.origin[p]).Regular? && (Shared(table, s.origin[p]) ==> Key(s.origin[p]) in s.links)
    && WrittenAt(s, table, p) in s.origin
    && s.contents[s.nodes[p].ino] == ContentOf(table, s.origin[WrittenAt(s, table, p)])
  }

  function ContentOf(table: InodeTable, id: FileId): string { if table(id).Regular? then table(id).content else "" }

  ghost predicate LinkedRight(s: State, table: InodeTable, p: Path, q: Path)
    requires p in s.origin && q in s.origin
  {
    p in s.nodes && q in s.nodes && (s.nodes[p] == s.nodes[q] <==> Confused(table, s.origin[p], s.origin[q]))
  }

  /** The node p of the destination is a copy of n. */
  predicate Placed(s: State, table: InodeTable, p: Path, n: Node) {
    p in s.nodes &&
    match n
    case Dir(_) => s.nodes[p] == CopyDir
    case File(id) =>
      match table(id)
      case Regular(_, _) => p in s.origin && s.origin[p] == id && s.nodes[p].CopyRegular?
      case Symlink(target) => s.nodes[p] == CopySymlink(target)
      case Device => s.nodes[p] == CopyDevice
      case FifoOrSocket => false
  }

  /** From s to s' exactly the layout has been added. */
  ghost predicate Added(s: State, s': State, table: InodeTable, layout: map<Path, Node>) {
    && (forall p :: p in layout ==> Placed(s', table, p, layout[p]))
    && (forall p :: p !in layout ==> SameAt(s, s', p))
  }

  predicate SameAt(s: State, s': State, p: Path) {
    && (p in s.nodes <==> p in s'.nodes) && (p in s.nodes ==> s.nodes[p] == s'.nodes[p])
    && (p in s.origin <==> p in s'.origin) && (p in s.origin ==> s.origin[p] == s'.origin[p])
  }

  predicate Free(s: State, p: Path) { p !in s.nodes && p !in s.origin }

  /** Nothing is at `at` or below it. */
  ghost predicate FreeFrom(s: State, at: Path) { forall p :: at <= p ==> Free(s, p) }

  /** Nothing is below `at`. */
  ghost predicate FreeBelow(s: State, at: Path) { forall p :: at < p ==> Free(s, p) }

  // ----- the steps

  function PutNode(s: State, p: Path, c: Copy): State { s.(nodes := s.nodes[p := c]) }

  /** A new inode number. */
  ghost predicate Unused(s: State, ino: nat) { ino !in s.contents }

  /** Placing a node that is no regular file keeps the invariant. */
  lemma PutKeepsInv(s: State, table: InodeTable, p: Path, c: Copy)
    requires Inv(s, table) && p !in s.origin
    ensures Inv(PutNode(s, p, c), table)
  {
    var s' := PutNode(s, p, c);
    assert AllFaithful(s', table) by {
      forall q | q in s'.origin ensures Faithful(s', table, q) { PutKeepsFaithful(s, table, p, c, q); }
    }
    assert AllLinkedRight(s', table) by {
      forall q, r | q in s'.origin && r in s'.origin && q != r ensures LinkedRight(s', table, q, r) {
        assert LinkedRight(s, table, q, r);
      }
    }
    assert AllFirstCopies(s', table) by {
      forall k | k in s'.links ensures FirstCopy(s', table, k) { assert FirstCopy(s, table, k); }
    }
  }

  lemma PutKeepsFaithful(s: State, table: InodeTable, p: Path, c: Copy, q: Path)
    requires Inv(s, table) && p !in s.origin && q in s.origin
    ensures Faithful(PutNode(s, p, c), table, q)
  {
    assert Faithful(s, table, q);
    assert WrittenAt(PutNode(s, p, c), table, q) == WrittenAt(s, table, q);
  }

  /** The state after the contents of source file i have been copied to a new file at p. */
  function Created(s: State, table: InodeTable, p: Path, i: FileId, ino: nat): State
    requires table(i).Regular?
  {
    State(s.nodes[p := CopyRegular(ino)], s.contents[ino := table(i).content],
          if Shared(table, i) then s.links[Key(i) := p] else s.links, s.origin[p := i])
  }

  lemma CreateKeepsInv(s: State, table: InodeTable, p: Path, i: FileId, ino: nat)
    requires Inv(s, table) && Free(s, p) && table(i).Regular? && Unused(s, ino)
    requires Shared(table, i) ==> Key(i) !in s.links
    ensures Inv(Created(s, table, p, i, ino), table)
  {
    var s' := Created(s, table, p, i, ino);
    assert AllFaithful(s', table) by {
      forall q | q in s'.origin ensures Faithful(s', table, q) { CreateKeepsFaithful(s, table, p, i, ino, q); }
    }
    assert AllLinkedRight(s', table) by {
      forall q, r | q in s'.origin && r in s'.origin && q != r ensures LinkedRight(s', table, q, r) {
        CreateKeepsLinked(s, table, p, i, ino, q, r);
      }
    }
    assert AllFirstCopies(s', table) by {
      forall k | k in s'.links ensures FirstCopy(s', table, k) { CreateKeepsFirst(s, table, p, i, ino, k); }
    }
  }

  lemma CreateKeepsFirst(s: State, table: InodeTable, p: Path, i: FileId, ino: nat, k: nat)
    requires Inv(s, table) && Free(s, p) && table(i).Regular?
    requires Shared(table, i) ==> Key(i) !in s.links
    requires k in Created(s, table, p, i, ino).links
    ensures FirstCopy(Created(s, table, p, i, ino), table, k)
  {
    if k in s.links { assert FirstCopy(s, table, k); }
  }

  lemma CreateKeepsLinked(s: State, table: InodeTable, p: Path, i: FileId, ino: nat, q: Path, r: Path)
    requires Inv(s, table) && Free(s, p) && table(i).Regular? && Unused(s, ino)
    requires Shared(table, i) ==> Key(i) !in s.links
    requires q != r && (q == p || q in s.origin) && (r == p || r in s.origin)
    ensures LinkedRight(Created(s, table, p, i, ino), table, q, r)
  {
    if q == p {
      assert Faithful(s, table, r);
    } else if r == p {
      assert Faithful(s, table, q);
    } else {
      assert LinkedRight(s, table, q, r);
    }
  }

  lemma CreateKeepsFaithful(s: State, table: InodeTable, p: Path, i: FileId, ino: nat, q: Path)
    requires Inv(s, table) && Free(s, p) && table(i).Regular? && Unused(s, ino)
    requires Shared(table, i) ==> Key(i) !in s.links
    requires q == p || q in s.origin
    ensures Faithful(Created(s, table, p, i, ino), table, q)
  {
    var s' := Created(s, table, p, i, ino);
    if q == p {
      assert WrittenAt(s', table, p) == p;
    } else {
      assert Faithful(s, table, q);
      assert WrittenAt(s', table, q) == WrittenAt(s, table, q);
    }
  }

  lemma CreatedPlaces(s: State, table: InodeTable, p: Path, i: FileId, ino: nat)
    requires table(i).Regular?
    ensures Placed(Created(s, table, p, i, ino), table, p, File(i))
    ensures forall q :: q != p ==> SameAt(s, Created(s, table, p, i, ino), q)
  {
  }

  /** The state after p has been made a link to the first copy with the key of source file i. */
  function Linked(s: State, p: Path, i: FileId): State
    requires Key(i) in s.links && s.links[Key(i)] in s.nodes
  {
    s.(nodes := s.nodes[p := s.nodes[s.links[Key(i)]]], origin := s.origin[p := i])
  }

  lemma LinkKeepsInv(s: State, table: InodeTable, p: Path, i: FileId)
    requires Inv(s, table) && Free(s, p) && Shared(table, i) && Key(i) in s.links && s.links[Key(i)] in s.nodes
    ensures Inv(Linked(s, p, i), table)
  {
    var s', t := Linked(s, p, i), s.links[Key(i)];
    assert FirstCopy(s, table, Key(i)) && Faithful(s, table, t);
    assert AllFaithful(s', table) by {
      forall q | q in s'.origin ensures Faithful(s', table, q) {
        if q != p { assert Faithful(s, table, q); }
        assert WrittenAt(s', table, q) == if q == p then t else WrittenAt(s, table, q);
      }
    }
    assert AllLinkedRight(s', table) by {
      forall q, r | q in s'.origin && r in s'.origin && q != r ensures LinkedRight(s', table, q, r) {
        if q != p && r != p { assert LinkedRight(s, table, q, r); }
        if q == p && r != t { assert LinkedRight(s, table, t, r); }
        if r == p && q != t { assert LinkedRight(s, table, q, t); }
      }
    }
    assert AllFirstCopies(s', table) by {
      forall k | k in s'.links ensures FirstCopy(s', table, k) { assert FirstCopy(s, table, k); }
    }
  }

  /** What the map of links says of a key. */
  function LinkOf(s: State, k: nat): Option<FileId> {
    if k in s.links && s.links[k] in s.origin then Some(s.origin[s.links[k]]) else None
  }

  /** The map of links leads to the first of the files copied so far. */
  ghost predicate LinksToFirst(s: State, table: InodeTable, done: seq<FileId>) {
    forall k :: LinkOf(s, k) == FirstShared(table, done, k)
  }

  lemma PutLinksToFirst(s: State, table: InodeTable, done: seq<FileId>, p: Path, c: Copy, id: FileId)
    requires LinksToFirst(s, table, done) && !table(id).Regular?
    ensures LinksToFirst(PutNode(s, p, c), table, done + [id])
  {
    forall k ensures LinkOf(PutNode(s, p, c), k) == FirstShared(table, done + [id], k) {
      FirstSharedAppend(table, done, id, k);
      assert LinkOf(PutNode(s, p, c), k) == LinkOf(s, k);
    }
  }

  lemma CreateLinksToFirst(s: State, table: InodeTable, done: seq<FileId>, p: Path, i: FileId, ino: nat)
    requires LinksToFirst(s, table, done) && Inv(s, table) && Free(s, p) && table(i).Regular?
    requires Shared(table, i) ==> Key(i) !in s.links
    ensures LinksToFirst(Created(s, table, p, i, ino), table, done + [i])
  {
    var s' := Created(s, table, p, i, ino);
    forall k ensures LinkOf(s', k) == FirstShared(table, done + [i], k) {
      FirstSharedAppend(table, done, i, k);
      if k in s.links { assert FirstCopy(s, table, k); }
      assert LinkOf(s, k) == FirstShared(table, done, k);
    }
  }

  lemma LinkLinksToFirst(s: State, table: InodeTable, done: seq<FileId>, p: Path, i: FileId)
    requires LinksToFirst(s, table, done) && Inv(s, table) && Free(s, p) && Key(i) in s.links && s.links[Key(i)] in s.nodes
    ensures LinksToFirst(Linked(s, p, i), table, done + [i])
  {
    var s' := Linked(s, p, i);
    assert FirstCopy(s, table, Key(i)) && LinkOf(s, Key(i)) == FirstShared(table, done, Key(i));
    forall k ensures LinkOf(s', k) == FirstShared(table, done + [i], k) {
      FirstSharedAppend(table, done, i, k);
      if k in s.links { assert FirstCopy(s, table, k); }
      assert LinkOf(s, k) == FirstShared(table, done, k);
    }
  }

  // ----- the copier

  class Copier {
    const table: InodeTable
    var nodes: map<Path, Copy>
    var contents: map<nat, string>
    var links: map<nat, Path>
    var nextIno: nat
    ghost var origin: map<Path, FileId>
    /** The files copied so far, in order. */
    ghost var done: seq<FileId>

    ghost function Abs(): State
      reads this
    {
      State(nodes, contents, links, origin)
    }

    ghost predicate Valid()
      reads this
    {
      Inv(Abs(), table) && LinksToFirst(Abs(), table, done) && forall ino :: ino in contents ==> ino < nextIno
    }

    constructor (table: InodeTable, nodes: map<Path, Copy>, contents: map<nat, string>, nextIno: nat)
      requires forall ino :: ino in contents ==> ino < nextIno
      ensures Valid() && Abs() == State(nodes, contents, map[], map[]) && this.table == table && done == []
    {
      this.table, this.nodes, this.contents, this.nextIno := table, nodes, contents, nextIno;
      links, origin, done := map[], map[], [];
    }

    /** `copy_regular`. */
    method CopyRegularFile(dst: Path, id: FileId)
      requires Valid() && Free(Abs(), dst) && table(id).Regular?
      modifies this
      ensures Valid() && Placed(Abs(), table, dst, File(id)) && done == old(done) + [id]
      ensures forall p :: p != dst ==> SameAt(old(Abs()), Abs(), p)
    {
      if table(id).nlink > 1 {
        if Key(id) in links {
          LinkExisting(dst, id);
          return;
        }
      }
      CreateKeepsInv(Abs(), table, dst, id, nextIno);
      CreatedPlaces(Abs(), table, dst, id, nextIno);
      CreateLinksToFirst(Abs(), table, done, dst, id, nextIno);
      CreateNew(dst, id);
    }

    /** `link` to the first copy with the key of the file. */
    method LinkExisting(dst: Path, id: FileId)
      requires Valid() && Free(Abs(), dst) && Shared(table, id) && Key(id) in links
      modifies this`nodes, this`origin, this`done
      ensures Valid() && Placed(Abs(), table, dst, File(id)) && done == old(done) + [id]
      ensures forall p :: p != dst ==> SameAt(old(Abs()), Abs(), p)
    {
      assert FirstCopy(Abs(), table, Key(id)) && Faithful(Abs(), table, links[Key(id)]);
      LinkKeepsInv(Abs(), table, dst, id);
      LinkLinksToFirst(Abs(), table, done, dst, id);
      nodes := nodes[dst := nodes[links[Key(id)]]];
      origin := origin[dst := id];
      done := done + [id];
      assert Abs() == Linked(old(Abs()), dst, id);
    }

    /** `util_copy_file`, after the path has been entered in the map if the file is shared. */
    method CreateNew(dst: Path, id: FileId)
      requires table(id).Regular?
      modifies this
      ensures Abs() == Created(old(Abs()), table, dst, id, old(nextIno)) && nextIno == old(nextIno) + 1
      ensures done == old(done) + [id]
    {
      if table(id).nlink > 1 {
        links := links[Key(id) := dst];
      }
      nodes := nodes[dst := CopyRegular(nextIno)];
      contents := contents[nextIno := table(id).content];
      origin := origin[dst := id];
      done := done + [id];
      nextIno := nextIno + 1;
    }

    /** `copy_file`. */
    method CopyFile(dst: Path, id: FileId) returns (ok: bool)
      requires Valid() && Free(Abs(), dst)
      modifies this
      ensures ok == Copyable(File(id), table) && Valid()
      ensures ok ==> Added(old(Abs()), Abs(), table, Layout(File(id), dst)) && done == old(done) + Order(File(id))
    {
      ok := true;
      match table(id)
      case Regular(_, _) =>
        CopyRegularFile(dst, id);
      case Symlink(target) =>
        PutKeepsInv(Abs(), table, dst, CopySymlink(target));
        PutLinksToFirst(Abs(), table, done, dst, CopySymlink(target), id);
        nodes, done := nodes[dst := CopySymlink(target)], done + [id];
      case Device =>
        PutKeepsInv(Abs(), table, dst, CopyDevice);
        PutLinksToFirst(Abs(), table, done, dst, CopyDevice, id);
        nodes, done := nodes[dst := CopyDevice], done + [id];
      case FifoOrSocket =>
        ok := false;
    }

    /** `copy_folder`: makes the directory unless it is there already. */
    method CopyFolder(dst: Path) returns (ok: bool)
      requires Valid() && dst !in origin
      modifies this`nodes
      ensures Valid() && ok == (dst in old(nodes) ==> old(nodes[dst]) == CopyDir)
      ensures ok ==> dst in nodes && nodes[dst] == CopyDir
      ensures forall p :: p != dst ==> SameAt(old(Abs()), Abs(), p)
    {
      if dst in nodes {
        return nodes[dst] == CopyDir;
      }
      PutKeepsInv(Abs(), table, dst, CopyDir);
      nodes := nodes[dst := CopyDir];
      assert forall k :: LinkOf(Abs(), k) == LinkOf(old(Abs()), k);
      return true;
    }

    /** `copy_dir_recursive`, into a destination with nothing below it. */
    method CopyDirRecursive(dst: Path, src: Node) returns (ok: bool)
      requires Valid() && src.Dir? && WellFormed(src)
      requires dst !in origin && FreeBelow(Abs(), dst)
      modifies this
      ensures Valid() && ok == (Copyable(src, table) && (dst in old(nodes) ==> old(nodes[dst]) == CopyDir))
      ensures ok ==> Added(old(Abs()), Abs(), table, Layout(src, dst)) && done == old(done) + Order(src)
      decreases src, 1
    {
      ok := CopyFolder(dst);
      if !ok {
        return;
      }
      ghost var s0 := Abs();
      FolderLeavesFree(old(Abs()), s0, dst);
      ok := CopyEntries(dst, src);
      if ok { AddedDir(old(Abs()), s0, Abs(), table, src, dst); }
    }

    /** The loop over the entries of a directory. */
    method CopyEntries(dst: Path, src: Node) returns (ok: bool)
      requires Valid() && src.Dir? && WellFormed(src) && FreeBelow(Abs(), dst)
      modifies this
      ensures Valid() && ok == Copyable(src, table)
      ensures ok ==> Added(old(Abs()), Abs(), table, LayoutIn(src.entries, dst)) && done == old(done) + OrderIn(src.entries)
      decreases src, 0
    {
      ok := true;
      var es := src.entries;
      ghost var s0, done0 := Abs(), done;
      AppendNothing(done);
      for i := 0 to |es|
        invariant Valid() && CopyableIn(es[..i], table)
        invariant Added(s0, Abs(), table, LayoutIn(es[..i], dst))
        invariant done == done0 + OrderIn(es[..i])
      {
        ghost var s1 := Abs();
        EntryIsFree(s0, s1, table, es, i, dst);
        ok := CopyEntry(dst + [es[i].name], es[i].node);
        if !ok {
          return;
        }
        OrderGrows(done0, es, i);
        LayoutGrows(es, i, dst);
        AddedChain(s0, s1, Abs(), table, LayoutIn(es[..i], dst), Layout(es[i].node, dst + [es[i].name]));
      }
      assert es[..|es|] == es;
      ok := true;
    }

    /** The body of the loop: a directory or a file, at a place with nothing at or below it. */
    method CopyEntry(dst: Path, n: Node) returns (ok: bool)
      requires Valid() && WellFormed(n) && FreeFrom(Abs(), dst)
      modifies this
      ensures Valid() && ok == Copyable(n, table)
      ensures ok ==> Added(old(Abs()), Abs(), table, Layout(n, dst)) && done == old(done) + Order(n)
      decreases n, 2
    {
      assert Free(Abs(), dst);
      match n
      case Dir(_) => ok := CopyDirRecursive(dst, n);
      case File(id) => ok := CopyFile(dst, id);
    }
  }

  // ----- the frame of the copy

  lemma AddedChain(s0: State, s1: State, s2: State, table: InodeTable, l1: map<Path, Node>, l2: map<Path, Node>)
    requires Added(s0, s1, table, l1) && Added(s1, s2, table, l2) && l1.Keys !! l2.Keys
    ensures Added(s0, s2, table, l1 + l2)
  {
    forall p | p in l1 + l2 ensures Placed(s2, table, p, (l1 + l2)[p]) {
      if p !in l2 { assert SameAt(s1, s2, p) && Placed(s1, table, p, l1[p]); }
    }
    forall p | p !in l1 + l2 ensures SameAt(s0, s2, p) {
      assert SameAt(s0, s1, p) && SameAt(s1, s2, p);
    }
  }

  lemma AddedDir(s: State, s0: State, s': State, table: InodeTable, src: Node, dst: Path)
    requires src.Dir? && dst in s0.nodes && s0.nodes[dst] == CopyDir
    requires forall p :: p != dst ==> SameAt(s, s0, p)
    requires Added(s0, s', table, LayoutIn(src.entries, dst))
    ensures Added(s, s', table, Layout(src, dst))
  {
    var inner := LayoutIn(src.entries, dst);
    if dst in inner { LayoutInBelow(src.entries, dst, dst); assert false; }
    assert SameAt(s0, s', dst);
    forall p | p in Layout(src, dst) ensures Placed(s', table, p, Layout(src, dst)[p]) {
      if p != dst { assert Placed(s', table, p, inner[p]); }
    }
    forall p | p !in Layout(src, dst) ensures SameAt(s, s', p) { assert SameAt(s, s0, p) && SameAt(s0, s', p); }
  }

  /** Entries with different names go to disjoint places. */
  lemma LayoutGrows(es: seq<Entry>, i: nat, at: Path)
    requires i < |es| && WellFormedIn(es)
    ensures LayoutIn(es[..i + 1], at) == LayoutIn(es[..i], at) + Layout(es[i].node, at + [es[i].name])
    ensures LayoutIn(es[..i], at).Keys !! Layout(es[i].node, at + [es[i].name]).Keys
  {
    assert es[..i + 1][..i] == es[..i] && es[..i + 1][i] == es[i];
    forall p | p in LayoutIn(es[..i], at) ensures p !in Layout(es[i].node, at + [es[i].name]) {
      NotBelowSibling(es, i, at, p);
      if p in Layout(es[i].node, at + [es[i].name]) { LayoutBelow(es[i].node, at + [es[i].name], p); }
    }
  }

  lemma OrderGrows(done: seq<FileId>, es: seq<Entry>, i: nat)
    requires i < |es|
    ensures done + OrderIn(es[..i]) + Order(es[i].node) == done + OrderIn(es[..i + 1])
  {
    assert es[..i + 1][..i] == es[..i] && es[..i + 1][i] == es[i];
    Assoc(done, OrderIn(es[..i]), Order(es[i].node));
  }

  lemma NotBelowSibling(es: seq<Entry>, i: nat, at: Path, p: Path)
    requires i < |es| && WellFormedIn(es) && p in LayoutIn(es[..i], at)
    ensures !(at + [es[i].name] <= p)
  {
    LayoutInBelow(es[..i], at, p);
    var j :| 0 <= j < i && at + [es[..i][j].name] <= p;
    assert p[|at|] == (at + [es[j].name])[|at|] == es[j].name;
  }

  lemma FolderLeavesFree(s: State, s0: State, at: Path)
    requires FreeBelow(s, at) && forall p :: p != at ==> SameAt(s, s0, p)
    ensures FreeBelow(s0, at)
  {
    forall p | at < p ensures Free(s0, p) { assert SameAt(s, s0, p) && Free(s, p); }
  }

  lemma EntryIsFree(s0: State, s1: State, table: InodeTable, es: seq<Entry>, i: nat, at: Path)
    requires i < |es| && WellFormedIn(es) && Added(s0, s1, table, LayoutIn(es[..i], at))
    requires FreeBelow(s0, at)
    ensures FreeFrom(s1, at + [es[i].name])
  {
    var here := at + [es[i].name];
    forall p | here <= p ensures Free(s1, p) {
      assert p[..|at|] == here[..|at|] == at;
      assert Free(s0, p);
      if p in LayoutIn(es[..i], at) { NotBelowSibling(es, i, at, p); }
      assert SameAt(s0, s1, p);
    }
  }

  // ----- what callers get

  /** `util_copy_dir_recursive` into a destination with nothing below it: every node of the source has
      its copy, nothing else changes, and two regular files are one inode exactly when the copy takes
      their sources for one. Whether links and contents are those of the source depends on the keys. */
  method CopyTree(dst: Path, src: Node, table: InodeTable, nodes: map<Path, Copy>, contents: map<nat, string>, nextIno: nat)
    returns (ok: bool, nodes': map<Path, Copy>, contents': map<nat, string>)
    requires src.Dir? && WellFormed(src) && forall ino :: ino in contents ==> ino < nextIno
    requires forall p :: dst < p ==> p !in nodes
    ensures ok == (Copyable(src, table) && (dst in nodes ==> nodes[dst] == CopyDir))
    ensures ok ==> SameShape(nodes, nodes', table, Layout(src, dst))
    ensures ok ==> LinksByKey(nodes', table, Layout(src, dst)) && WrittenOnce(nodes', contents', table, Layout(src, dst))
    ensures ok ==> ContentsOfFirst(nodes', contents', table, Layout(src, dst), Order(src))
    ensures ok ==> (LinksExact(nodes', table, Layout(src, dst)) <==> KeysDistinct(table, Layout(src, dst)))
    ensures ok ==> (SameContents(nodes', contents', table, Layout(src, dst)) <==> ContentsAgree(table, Layout(src, dst)))
    ensures ok && SmallInodes(table, Layout(src, dst)) ==>
              LinksExact(nodes', table, Layout(src, dst)) && SameContents(nodes', contents', table, Layout(src, dst))
    ensures ok ==> (KeepsHardLinks(nodes', table, Layout(src, dst)) <==>
                    CountsReported(table, Layout(src, dst)) && KeysDistinct(table, Layout(src, dst)))
  {
    var copier := new Copier(table, nodes, contents, nextIno);
    ok := copier.CopyDirRecursive(dst, src);
    nodes', contents' := copier.nodes, copier.contents;
    if ok {
      ghost var layout := Layout(src, dst);
      ShapeOf(State(nodes, contents, map[], map[]), copier.Abs(), table, layout);
      LinksOf(State(nodes, contents, map[], map[]), copier.Abs(), table, layout);
      WrittenOf(State(nodes, contents, map[], map[]), copier.Abs(), table, layout);
      PrependNothing(Order(src));
      FirstOf(State(nodes, contents, map[], map[]), copier.Abs(), table, layout, Order(src));
      LinksExactly(nodes', table, layout);
      ContentsExactly(nodes', contents', table, layout);
      LinksKept(nodes', table, layout);
      SmallIsDistinct(table, layout);
    }
  }

  predicate IsRegular(n: Node, table: InodeTable) { n.File? && table(n.id).Regular? }

  predicate RegularAt(layout: map<Path, Node>, table: InodeTable, p: Path) { p in layout && IsRegular(layout[p], table) }

  /** Directories, regular files, links and devices are where the source has them; other paths keep
      what they had. */
  ghost predicate SameShape(nodes: map<Path, Copy>, nodes': map<Path, Copy>, table: InodeTable, layout: map<Path, Node>) {
    && (forall p :: p in layout ==> p in nodes' && SameKind(nodes'[p], layout[p], table))
    && (forall p :: p !in layout ==> (p in nodes <==> p in nodes') && (p in nodes ==> nodes[p] == nodes'[p]))
  }

  predicate SameKind(c: Copy, n: Node, table: InodeTable) {
    match n
    case Dir(_) => c == CopyDir
    case File(id) =>
      match table(id)
      case Regular(_, _) => c.CopyRegular?
      case Symlink(target) => c == CopySymlink(target)
      case Device => c == CopyDevice
      case FifoOrSocket => false
  }

  /** The file at p holds the contents of a source file. */
  predicate HoldsContents(nodes: map<Path, Copy>, contents: map<nat, string>, table: InodeTable, p: Path, id: FileId) {
    p in nodes && nodes[p].CopyRegular? && nodes[p].ino in contents && contents[nodes[p].ino] == ContentOf(table, id)
  }

  /** Two copies are one inode. */
  predicate OneInode(nodes: map<Path, Copy>, p: Path, q: Path) { p in nodes && q in nodes && nodes[p] == nodes[q] }

  /** Two copies are one inode exactly when their sources are taken for one. */
  ghost predicate LinksByKey(nodes: map<Path, Copy>, table: InodeTable, layout: map<Path, Node>) {
    forall p, q :: RegularAt(layout, table, p) && RegularAt(layout, table, q) && p != q ==>
      (OneInode(nodes, p, q) <==> Confused(table, layout[p].id, layout[q].id))
  }

  /** The contents of every copy are those of one of the sources taken for one with its own. */
  ghost predicate WrittenOnce(nodes: map<Path, Copy>, contents: map<nat, string>, table: InodeTable, layout: map<Path, Node>) {
    forall p {:trigger Written(nodes, contents, table, layout, p)} ::
      RegularAt(layout, table, p) ==> Written(nodes, contents, table, layout, p)
  }

  ghost predicate Written(nodes: map<Path, Copy>, contents: map<nat, string>, table: InodeTable, layout: map<Path, Node>, p: Path)
    requires RegularAt(layout, table, p)
  {
    exists q :: WrittenFrom(nodes, contents, table, layout, p, q)
  }

  predicate WrittenFrom(nodes: map<Path, Copy>, contents: map<nat, string>, table: InodeTable, layout: map<Path, Node>, p: Path, q: Path)
    requires RegularAt(layout, table, p)
  {
    && RegularAt(layout, table, q) && HoldsContents(nodes, contents, table, p, layout[q].id)
    && (p == q || Confused(table, layout[p].id, layout[q].id))
  }

  /** The contents of every copy are those of the first source taken for one with its own. */
  ghost predicate ContentsOfFirst(nodes: map<Path, Copy>, contents: map<nat, string>, table: InodeTable, layout: map<Path, Node>, order: seq<FileId>) {
    forall p :: RegularAt(layout, table, p) ==> HoldsContents(nodes, contents, table, p, WrittenId(table, order, layout[p].id))
  }

  ghost predicate SameContents(nodes: map<Path, Copy>, contents: map<nat, string>, table: InodeTable, layout: map<Path, Node>) {
    forall p :: RegularAt(layout, table, p) ==> HoldsContents(nodes, contents, table, p, layout[p].id)
  }

  /** Two copies are one inode exactly when their sources are one file that reports it. */
  ghost predicate LinksExact(nodes: map<Path, Copy>, table: InodeTable, layout: map<Path, Node>) {
    forall p, q :: RegularAt(layout, table, p) && RegularAt(layout, table, q) && p != q ==>
      (OneInode(nodes, p, q) <==> layout[p] == layout[q] && Shared(table, layout[p].id))
  }

  /** Two copies are one inode exactly when their sources are one file. */
  ghost predicate KeepsHardLinks(nodes: map<Path, Copy>, table: InodeTable, layout: map<Path, Node>) {
    forall p, q :: RegularAt(layout, table, p) && RegularAt(layout, table, q) && p != q ==>
      (OneInode(nodes, p, q) <==> layout[p] == layout[q])
  }

  // ----- what a caller can check beforehand

  /** No two different files are taken for one. */
  ghost predicate KeysDistinct(table: InodeTable, layout: map<Path, Node>) {
    forall p, q :: RegularAt(layout, table, p) && RegularAt(layout, table, q) ==>
      (Confused(table, layout[p].id, layout[q].id) ==> layout[p] == layout[q])
  }

  /** Files taken for one have the same contents. */
  ghost predicate ContentsAgree(table: InodeTable, layout: map<Path, Node>) {
    forall p, q :: RegularAt(layout, table, p) && RegularAt(layout, table, q) ==>
      (Confused(table, layout[p].id, layout[q].id) ==> ContentOf(table, layout[p].id) == ContentOf(table, layout[q].id))
  }

  /** Every file that occurs twice reports a link count above one. */
  ghost predicate CountsReported(table: InodeTable, layout: map<Path, Node>) {
    forall p, q :: RegularAt(layout, table, p) && RegularAt(layout, table, q) && p != q ==>
      (layout[p] == layout[q] ==> Shared(table, layout[p].id))
  }

  /** The regular files are on one device, and their inode numbers fit in 32 bits. */
  ghost predicate SmallInodes(table: InodeTable, layout: map<Path, Node>) {
    forall p, q :: RegularAt(layout, table, p) && RegularAt(layout, table, q) ==>
      layout[p].id.dev == layout[q].id.dev && layout[p].id.ino < 0x1_0000_0000
  }

  lemma SmallIsDistinct(table: InodeTable, layout: map<Path, Node>)
    ensures SmallInodes(table, layout) ==> KeysDistinct(table, layout) && ContentsAgree(table, layout)
  {
    if SmallInodes(table, layout) {
      forall p, q | RegularAt(layout, table, p) && RegularAt(layout, table, q) && Confused(table, layout[p].id, layout[q].id)
        ensures layout[p] == layout[q]
      {
        SmallKeysDiffer(layout[p].id, layout[q].id);
      }
    }
  }

  // ----- from the invariant to the promises

  lemma ShapeOf(s: State, s': State, table: InodeTable, layout: map<Path, Node>)
    requires Added(s, s', table, layout)
    ensures SameShape(s.nodes, s'.nodes, table, layout)
  {
    forall p | p in layout ensures p in s'.nodes && SameKind(s'.nodes[p], layout[p], table) {
      assert Placed(s', table, p, layout[p]);
    }
    forall p | p !in layout ensures (p in s.nodes <==> p in s'.nodes) && (p in s.nodes ==> s.nodes[p] == s'.nodes[p]) {
      assert SameAt(s, s', p);
    }
  }

  lemma OriginOf(s: State, s': State, table: InodeTable, layout: map<Path, Node>, p: Path)
    requires Added(s, s', table, layout) && s.origin == map[] && Inv(s', table)
    ensures p in s'.origin <==> RegularAt(layout, table, p)
    ensures p in s'.origin ==> s'.origin[p] == layout[p].id
  {
    if p in layout {
      assert Placed(s', table, p, layout[p]);
      if p in s'.origin { assert Faithful(s', table, p); }
    } else {
      assert SameAt(s, s', p);
    }
  }

  lemma LinksOf(s: State, s': State, table: InodeTable, layout: map<Path, Node>)
    requires Inv(s', table) && Added(s, s', table, layout) && s.origin == map[]
    ensures LinksByKey(s'.nodes, table, layout)
  {
    forall p, q | RegularAt(layout, table, p) && RegularAt(layout, table, q) && p != q
      ensures OneInode(s'.nodes, p, q) <==> Confused(table, layout[p].id, layout[q].id)
    {
      OriginOf(s, s', table, layout, p);
      OriginOf(s, s', table, layout, q);
      assert LinkedRight(s', table, p, q);
    }
  }

  lemma WrittenOf(s: State, s': State, table: InodeTable, layout: map<Path, Node>)
    requires Inv(s', table) && Added(s, s', table, layout) && s.origin == map[]
    ensures WrittenOnce(s'.nodes, s'.contents, table, layout)
  {
    forall p | RegularAt(layout, table, p) ensures Written(s'.nodes, s'.contents, table, layout, p) {
      OriginOf(s, s', table, layout, p);
      assert Faithful(s', table, p);
      if Shared(table, s'.origin[p]) { assert FirstCopy(s', table, Key(s'.origin[p])); }
      var q := WrittenAt(s', table, p);
      OriginOf(s, s', table, layout, q);
      assert WrittenFrom(s'.nodes, s'.contents, table, layout, p, q);
    }
  }

  lemma FirstOf(s: State, s': State, table: InodeTable, layout: map<Path, Node>, order: seq<FileId>)
    requires Inv(s', table) && Added(s, s', table, layout) && s.origin == map[] && LinksToFirst(s', table, order)
    ensures ContentsOfFirst(s'.nodes, s'.contents, table, layout, order)
  {
    forall p | RegularAt(layout, table, p)
      ensures HoldsContents(s'.nodes, s'.contents, table, p, WrittenId(table, order, layout[p].id))
    {
      OriginOf(s, s', table, layout, p);
      assert Faithful(s', table, p);
      var k := Key(layout[p].id);
      if Shared(table, layout[p].id) { assert FirstCopy(s', table, k); }
      assert LinkOf(s', k) == FirstShared(table, order, k);
    }
  }

  lemma LinksExactly(nodes: map<Path, Copy>, table: InodeTable, layout: map<Path, Node>)
    requires LinksByKey(nodes, table, layout)
    ensures LinksExact(nodes, table, layout) <==> KeysDistinct(table, layout)
  {
    if LinksExact(nodes, table, layout) {
      forall p, q | RegularAt(layout, table, p) && RegularAt(layout, table, q) && Confused(table, layout[p].id, layout[q].id)
        ensures layout[p] == layout[q]
      {
        if p != q { assert OneInode(nodes, p, q); }
      }
    }
  }

  /** One file has one contents. */
  lemma ContentsExactly(nodes: map<Path, Copy>, contents: map<nat, string>, table: InodeTable, layout: map<Path, Node>)
    requires LinksByKey(nodes, table, layout) && WrittenOnce(nodes, contents, table, layout)
    ensures SameContents(nodes, contents, table, layout) <==> ContentsAgree(table, layout)
  {
    if SameContents(nodes, contents, table, layout) {
      forall p, q | RegularAt(layout, table, p) && RegularAt(layout, table, q) && Confused(table, layout[p].id, layout[q].id)
        ensures ContentOf(table, layout[p].id) == ContentOf(table, layout[q].id)
      {
        if p != q { assert OneInode(nodes, p, q); }
        assert HoldsContents(nodes, contents, table, p, layout[p].id) && HoldsContents(nodes, contents, table, q, layout[q].id);
      }
    }
    if ContentsAgree(table, layout) {
      forall p | RegularAt(layout, table, p) ensures HoldsContents(nodes, contents, table, p, layout[p].id) {
        assert Written(nodes, contents, table, layout, p);
        var q :| WrittenFrom(nodes, contents, table, layout, p, q);
      }
    }
  }

  lemma LinksKept(nodes: map<Path, Copy>, table: InodeTable, layout: map<Path, Node>)
    requires LinksByKey(nodes, table, layout)
    ensures KeepsHardLinks(nodes, table, layout) <==> CountsReported(table, layout) && KeysDistinct(table, layout)
  {
    if KeepsHardLinks(nodes, table, layout) {
      forall p, q | RegularAt(layout, table, p) && RegularAt(layout, table, q) && p != q
        ensures layout[p] == layout[q] <==> Confused(table, layout[p].id, layout[q].id)
      {
        assert OneInode(nodes, p, q) <==> layout[p] == layout[q];
      }
    }
  }

  // ----- where links and contents go wrong

  /** A directory with two files. */
  function TwoNames(x: FileId, y: FileId): Node { Dir([Entry("a", File(x)), Entry("b", File(y))]) }

  lemma TwoNamesLayout(x: FileId, y: FileId, table: InodeTable, dst: Path)
    requires table(x).Regular? && table(y).Regular?
    ensures WellFormed(TwoNames(x, y)) && Copyable(TwoNames(x, y), table)
    ensures dst + ["a"] != dst + ["b"]
    ensures var layout := Layout(TwoNames(x, y), dst);
            && RegularAt(layout, table, dst + ["a"]) && layout[dst + ["a"]] == File(x)
            && RegularAt(layout, table, dst + ["b"]) && layout[dst + ["b"]] == File(y)
  {
    var es, a, b := TwoNames(x, y).entries, dst + ["a"], dst + ["b"];
    assert forall i :: 0 <= i < |es| ==> WellFormed(es[i].node) && Copyable(es[i].node, table);
    assert a[|dst|] != b[|dst|];
    assert es[..1] == [es[0]] && es[..1][..0] == [];
    assert LayoutIn(es[..1], dst) == map[a := File(x)];
    assert LayoutIn(es, dst) == map[a := File(x)] + map[b := File(y)];
  }

  method CopyTwo(x: FileId, y: FileId, table: InodeTable, dst: Path) returns (first: Copy, second: Copy, contents: map<nat, string>)
    requires table(x).Regular? && table(y).Regular?
    ensures first.CopyRegular? && second.CopyRegular? && (first == second <==> Confused(table, x, y))
    ensures first.ino in contents && contents[first.ino] == table(x).content
  {
    TwoNamesLayout(x, y, table, dst);
    var ok, nodes;
    ok, nodes, contents := CopyTree(dst, TwoNames(x, y), table, map[], map[], 0);
    ghost var layout := Layout(TwoNames(x, y), dst);
    var a, b := dst + ["a"], dst + ["b"];
    assert OneInode(nodes, a, b) <==> Confused(table, layout[a].id, layout[b].id);
    assert a in nodes && SameKind(nodes[a], layout[a], table) && b in nodes && SameKind(nodes[b], layout[b], table);
    FirstOfTwo(x, y, table);
    assert HoldsContents(nodes, contents, table, a, WrittenId(table, Order(TwoNames(x, y)), layout[a].id));
    return nodes[a], nodes[b], contents;
  }

  lemma FirstOfTwo(x: FileId, y: FileId, table: InodeTable)
    ensures WrittenId(table, Order(TwoNames(x, y)), x) == x
  {
    var es := TwoNames(x, y).entries;
    assert es[..1] == [es[0]] && es[..1][..0] == [];
    assert OrderIn(es[..1]) == [] + [x];
    assert OrderIn(es)[0] == x;
  }

  /** Where the count says two or more, the link is kept: the two copies are one file. */
  method ReportedLinkIsKept(id: FileId, table: InodeTable, dst: Path) returns (first: Copy, second: Copy)
    requires table(id).Regular? && table(id).nlink >= 2
    ensures first.CopyRegular? && first == second
  {
    var contents;
    first, second, contents := CopyTwo(id, id, table, dst);
  }

  /** Where the count says one, the link is lost: the two copies of the file are two files. */
  method UnreportedLinkIsLost(id: FileId, table: InodeTable, dst: Path) returns (first: Copy, second: Copy)
    requires table(id).Regular? && table(id).nlink <= 1
    ensures first.CopyRegular? && second.CopyRegular? && first != second
  {
    var contents;
    first, second, contents := CopyTwo(id, id, table, dst);
  }

  /** Two different files with the inode numbers 1 and 2^32 + 1, both with a link count above one, become
      one file with the contents of the first. */
  method DifferentFilesAreLinked(dev: nat, table: InodeTable, dst: Path) returns (first: Copy, second: Copy, stored: string)
    requires Shared(table, FileId(dev, 1)) && Shared(table, FileId(dev, 0x1_0000_0001))
    ensures first.CopyRegular? && first == second && stored == table(FileId(dev, 1)).content
  {
    var contents;
    first, second, contents := CopyTwo(FileId(dev, 1), FileId(dev, 0x1_0000_0001), table, dst);
    stored := contents[first.ino];
  }
}
