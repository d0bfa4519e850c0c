/**
 Size of a directory tree with every file counted once (src/utils/cutils/utils_file.c). A tree is what
 `readdir` lists, in the order it lists it. A file that is not a directory is identified by its device
 and its inode number, and the same file may occur under several names.

 The walks remember files in maps with keys of type int. Such a map keeps the low half of a 64-bit inode
 number on the little-endian machines the engine runs on, and nothing of the device.
 */
module DirTree {

  datatype FileId = FileId(dev: nat, ino: nat)

  datatype Node = Dir(entries: seq<Entry>) | File(id: FileId)

  datatype Entry = Entry(name: string, node: Node)

  /** What a map with keys of type int keeps of a file. */
  function Key(id: FileId): nat { id.ino % 0x1_0000_0000 }

  /** Two files have the same key exactly when 2^32 divides the difference of their inode numbers. */
  lemma SameKeyExactly(x: FileId, y: FileId)
    ensures Key(x) == Key(y) <==> exists q: int :: Apart(x, y, q)
  {
    var m := 0x1_0000_0000;
    assert x.ino == m * (x.ino / m) + Key(x) && y.ino == m * (y.ino / m) + Key(y);
    if Key(x) == Key(y) { assert Apart(x, y, x.ino / m - y.ino / m); }
    if q :| Apart(x, y, q) { assert Key(x) == (y.ino + q * m) % m == Key(y); }
  }

  predicate Apart(x: FileId, y: FileId, q: int) { x.ino == y.ino + q * 0x1_0000_0000 }

  /** Files of one device whose inode numbers fit in 32 bits. */
  ghost predicate SmallOnOneDevice(ids: set<FileId>) {
    forall x, y :: x in ids && y in ids ==> x.dev == y.dev && x.ino < 0x1_0000_0000
  }

  /** Such files are told apart. */
  lemma SmallKeysDiffer(x: FileId, y: FileId)
    requires x.dev == y.dev && x.ino < 0x1_0000_0000 && y.ino < 0x1_0000_0000
    ensures Key(x) == Key(y) ==> x == y
  {
  }
}

module DirSize {
  import opened Common
  import opened DirTree

  const MAX_PATH_DEPTH := 1024

  // ----- the specification

  /** The files below a node at the given depth; directories too deep are not entered. */
  function Inodes(n: Node, depth: nat): set<FileId>
    decreases n, 0
  {
    match n
    case File(id) => {id}
    case Dir(entries) => if depth + 1 > MAX_PATH_DEPTH then {} else InodesIn(entries, depth + 1)
  }

  function InodesIn(es: seq<Entry>, depth: nat): set<FileId>
    decreases es, 1
  {
    if es == [] then {} else InodesIn(es[..|es| - 1], depth) + Inodes(es[|es| - 1].node, depth)
  }

  /** The sum of f over a set. */
  ghost function Sum(f: FileId -> int, s: set<FileId>): int
    decreases |s|
  {
    if s == {} then 0 else var x :| x in s; f(x) + Sum(f, s - {x})
  }

  lemma {:induction false} SumRemove(f: FileId -> int, s: set<FileId>, y: FileId)
    requires y in s
    ensures Sum(f, s) == f(y) + Sum(f, s - {y})
    decreases |s|
  {
    var x :| x in s && Sum(f, s) == f(x) + Sum(f, s - {x});
    if x != y {
      SumRemove(f, s - {x}, y);
      SumRemove(f, s - {y}, x);
      assert s - {x} - {y} == s - {y} - {x};
    }
  }

  lemma {:induction false} SumUnion(f: FileId -> int, a: set<FileId>, b: set<FileId>)
    requires a !! b
    ensures Sum(f, a + b) == Sum(f, a) + Sum(f, b) && |a + b| == |a| + |b|
    decreases |b|
  {
    if b == {} {
      assert a + b == a;
    } else {
      var x :| x in b;
      SumUnion(f, a, b - {x});
      SumRemove(f, a + b, x);
      SumRemove(f, b, x);
      assert a + b - {x} == a + (b - {x});
    }
  }

  // ----- what the specification does not depend on

  function AllInodes(n: Node): set<FileId>
    decreases n, 0
  {
    match n
    case File(id) => {id}
    case Dir(entries) => AllInodesIn(entries)
  }

  function AllInodesIn(es: seq<Entry>): set<FileId>
    decreases es, 1
  {
    if es == [] then {} else AllInodesIn(es[..|es| - 1]) + AllInodes(es[|es| - 1].node)
  }

  /** Directories nested in a node. */
  function Depth(n: Node): nat
    decreases n, 0
  {
    match n
    case File(_) => 0
    case Dir(entries) => 1 + DepthIn(entries)
  }

  function DepthIn(es: seq<Entry>): nat
    decreases es, 1
  {
    if es == [] then 0
    else
      var a, b := DepthIn(es[..|es| - 1]), Depth(es[|es| - 1].node);
      if a < b then b else a
  }

  /** A tree within the depth limit is seen in full. */
  lemma {:induction false} ShallowIsSeenInFull(n: Node, depth: nat)
    requires Depth(n) + depth <= MAX_PATH_DEPTH
    ensures Inodes(n, depth) == AllInodes(n)
    decreases n, 0
  {
    if n.Dir? { ShallowEntries(n.entries, depth + 1); }
  }

  lemma {:induction false} ShallowEntries(es: seq<Entry>, depth: nat)
    requires DepthIn(es) + depth <= MAX_PATH_DEPTH
    ensures InodesIn(es, depth) == AllInodesIn(es)
    decreases es, 1
  {
    if es != [] {
      ShallowEntries(es[..|es| - 1], depth);
      ShallowIsSeenInFull(es[|es| - 1].node, depth);
    }
  }

  /** `p` and `q` are permutations of the indices below n, inverse to each other. */
  predicate Inverse(p: seq<nat>, q: seq<nat>, n: nat) {
    && |p| == |q| == n
    && (forall i :: 0 <= i < n ==> p[i] < n && q[p[i]] == i)
    && (forall j :: 0 <= j < n ==> q[j] < n && p[q[j]] == j)
  }

  /** Two trees that differ only in the order in which directories list their entries. */
  ghost predicate Reordered(a: Node, b: Node)
    decreases a, 0
  {
    match (a, b)
    case (File(i), File(j)) => i == j
    case (Dir(es), Dir(fs)) => |es| == |fs| && exists p, q :: Inverse(p, q, |es|) && Shuffled(es, fs, p)
    case _ => false
  }

  ghost predicate Shuffled(es: seq<Entry>, fs: seq<Entry>, p: seq<nat>)
    decreases es, 1
  {
    && |p| == |es|
    && forall i :: 0 <= i < |es| ==> p[i] < |fs| && es[i].name == fs[p[i]].name && Reordered(es[i].node, fs[p[i]].node)
  }

  lemma {:induction false} FoundAt(es: seq<Entry>, depth: nat, x: FileId) returns (i: nat)
    requires x in InodesIn(es, depth)
    ensures i < |es| && x in Inodes(es[i].node, depth)
    decreases |es|
  {
    var last := |es| - 1;
    if x in Inodes(es[last].node, depth) { i := last; } else { i := FoundAt(es[..last], depth, x); }
  }

  lemma {:induction false} EntryCounts(es: seq<Entry>, depth: nat, i: nat)
    requires i < |es|
    ensures Inodes(es[i].node, depth) <= InodesIn(es, depth)
    decreases |es|
  {
    var last := |es| - 1;
    if i < last { EntryCounts(es[..last], depth, i); }
  }

  /** The listing order makes no difference to the set of files. */
  lemma {:induction false} SameFiles(a: Node, b: Node, depth: nat)
    requires Reordered(a, b)
    ensures Inodes(a, depth) == Inodes(b, depth)
    decreases a, 0
  {
    if a.Dir? && depth < MAX_PATH_DEPTH {
      var es, fs := a.entries, b.entries;
      var p, q :| Inverse(p, q, |es|) && Shuffled(es, fs, p);
      ShuffledInodes(es, fs, p, depth + 1);
      SameSets(es, fs, p, q, depth + 1);
    }
  }

  lemma {:induction false} ShuffledInodes(es: seq<Entry>, fs: seq<Entry>, p: seq<nat>, depth: nat)
    requires Shuffled(es, fs, p)
    ensures MapsInodes(es, fs, p, depth)
    decreases es, 1
  {
    forall i | 0 <= i < |es| ensures Inodes(es[i].node, depth) == Inodes(fs[p[i]].node, depth) {
      SameFiles(es[i].node, fs[p[i]].node, depth);
    }
  }

  predicate MapsInodes(es: seq<Entry>, fs: seq<Entry>, p: seq<nat>, depth: nat) {
    && |p| == |es|
    && forall i :: 0 <= i < |es| ==> p[i] < |fs| && Inodes(es[i].node, depth) == Inodes(fs[p[i]].node, depth)
  }

  lemma SameSets(es: seq<Entry>, fs: seq<Entry>, p: seq<nat>, q: seq<nat>, depth: nat)
    requires |es| == |fs| && Inverse(p, q, |es|) && MapsInodes(es, fs, p, depth)
    ensures InodesIn(es, depth) == InodesIn(fs, depth)
  {
    MappedInto(es, fs, p, depth);
    forall j | 0 <= j < |fs| ensures q[j] < |es| && Inodes(fs[j].node, depth) == Inodes(es[q[j]].node, depth) {
      assert p[q[j]] == j;
    }
    MappedInto(fs, es, q, depth);
  }

  lemma MappedInto(es: seq<Entry>, fs: seq<Entry>, p: seq<nat>, depth: nat)
    requires MapsInodes(es, fs, p, depth)
    ensures InodesIn(es, depth) <= InodesIn(fs, depth)
  {
    forall x | x in InodesIn(es, depth) ensures x in InodesIn(fs, depth) {
      var i := FoundAt(es, depth, x);
      EntryCounts(fs, depth, p[i]);
    }
  }

  // ----- what the walk counts

  /** The files in the order in which the walk meets them. */
  function Met(n: Node, depth: nat): seq<FileId>
    decreases n, 0
  {
    match n
    case File(id) => [id]
    case Dir(entries) => if depth + 1 > MAX_PATH_DEPTH then [] else MetIn(entries, depth + 1)
  }

  function MetIn(es: seq<Entry>, depth: nat): seq<FileId>
    decreases es, 1
  {
    if es == [] then [] else MetIn(es[..|es| - 1], depth) + Met(es[|es| - 1].node, depth)
  }

  function Keys(met: seq<FileId>): set<nat> { set id | id in met :: Key(id) }

  /** The files counted: those whose key is new, given the keys seen before. */
  function Counted(met: seq<FileId>, seen: set<nat>): seq<FileId>
    decreases |met|
  {
    if met == [] then []
    else if Key(met[0]) in seen then Counted(met[1..], seen)
    else [met[0]] + Counted(met[1..], seen + {Key(met[0])})
  }

  function Total(sizeOf: FileId -> int, ids: seq<FileId>): int {
    if ids == [] then 0 else sizeOf(ids[0]) + Total(sizeOf, ids[1..])
  }

  lemma {:induction false} CountedAppend(a: seq<FileId>, b: seq<FileId>, seen: set<nat>)
    ensures Counted(a + b, seen) == Counted(a, seen) + Counted(b, seen + Keys(a))
    decreases |a|
  {
    if a == [] {
      assert a + b == b && seen + Keys(a) == seen;
    } else {
      assert (a + b)[1..] == a[1..] + b;
      KeysStep(a);
      var k := Key(a[0]);
      if k in seen {
        CountedAppend(a[1..], b, seen);
        assert seen + Keys(a[1..]) == seen + Keys(a);
      } else {
        CountedAppend(a[1..], b, seen + {k});
        assert seen + {k} + Keys(a[1..]) == seen + Keys(a);
        Assoc([a[0]], Counted(a[1..], seen + {k}), Counted(b, seen + Keys(a)));
      }
    }
  }

  lemma KeysStep(a: seq<FileId>)
    requires a != []
    ensures Keys(a) == {Key(a[0])} + Keys(a[1..])
  {
    assert forall id :: id in a <==> id == a[0] || id in a[1..];
  }

  lemma KeysAppend(a: seq<FileId>, b: seq<FileId>)
    ensures Keys(a + b) == Keys(a) + Keys(b)
  {
    assert forall id :: id in a + b <==> id in a || id in b;
  }

  lemma {:induction false} TotalAppend(sizeOf: FileId -> int, a: seq<FileId>, b: seq<FileId>)
    ensures Total(sizeOf, a + b) == Total(sizeOf, a) + Total(sizeOf, b)
  {
    if a == [] {
      assert a + b == b;
    } else {
      assert (a + b)[1..] == a[1..] + b;
      TotalAppend(sizeOf, a[1..], b);
    }
  }

  /** The files met are the files there are. */
  lemma {:induction false} MetAreInodes(n: Node, depth: nat, id: FileId)
    ensures id in Met(n, depth) <==> id in Inodes(n, depth)
    decreases n, 0
  {
    if n.Dir? { MetInAreInodes(n.entries, depth + 1, id); }
  }

  lemma {:induction false} MetInAreInodes(es: seq<Entry>, depth: nat, id: FileId)
    ensures id in MetIn(es, depth) <==> id in InodesIn(es, depth)
    decreases es, 1
  {
    if es != [] {
      MetInAreInodes(es[..|es| - 1], depth, id);
      MetAreInodes(es[|es| - 1].node, depth, id);
    }
  }

  // ----- when every file counts once

  /** No two files have the same key. */
  ghost predicate KeysDistinct(ids: set<FileId>) {
    forall x, y :: x in ids && y in ids && Key(x) == Key(y) ==> x == y
  }

  lemma SmallIsDistinct(ids: set<FileId>)
    ensures SmallOnOneDevice(ids) ==> KeysDistinct(ids)
  {
    if SmallOnOneDevice(ids) {
      forall x, y | x in ids && y in ids && Key(x) == Key(y) ensures x == y { SmallKeysDiffer(x, y); }
    }
  }

  function KeySet(ids: set<FileId>): set<nat> { set id | id in ids :: Key(id) }

  /** There are as many keys as files exactly when no two files have the same key. */
  lemma {:induction false} KeySetSize(ids: set<FileId>)
    ensures |KeySet(ids)| <= |ids| && (|KeySet(ids)| == |ids| <==> KeysDistinct(ids))
    decreases |ids|
  {
    if ids != {} {
      var x :| x in ids;
      var rest := ids - {x};
      KeySetSize(rest);
      KeySetStep(ids, x);
      if Key(x) in KeySet(rest) {
        var y :| y in rest && Key(y) == Key(x);
        assert !KeysDistinct(ids);
      } else {
        assert KeysDistinct(rest) ==> KeysDistinct(ids);
      }
    }
  }

  lemma KeySetStep(ids: set<FileId>, x: FileId)
    requires x in ids
    ensures KeySet(ids) == KeySet(ids - {x}) + {Key(x)}
    ensures |KeySet(ids)| == |KeySet(ids - {x})| + if Key(x) in KeySet(ids - {x}) then 0 else 1
  {
    var rest := ids - {x};
    forall k | k in KeySet(ids) ensures k in KeySet(rest) + {Key(x)} {
      var y :| y in ids && Key(y) == k;
      if y != x { assert y in rest; }
    }
  }

  function AsSet(ids: seq<FileId>): set<FileId> { set id | id in ids }

  predicate NoRepeats(ids: seq<FileId>) { forall i, j :: 0 <= i < j < |ids| ==> ids[i] != ids[j] }

  /** One file is counted for each new key. */
  lemma {:induction false} OnePerKey(met: seq<FileId>, seen: set<nat>)
    ensures |Counted(met, seen)| == |Keys(met) - seen|
    decreases |met|
  {
    if met != [] {
      KeysStep(met);
      var k := Key(met[0]);
      if k in seen {
        OnePerKey(met[1..], seen);
        assert Keys(met) - seen == Keys(met[1..]) - seen;
      } else {
        OnePerKey(met[1..], seen + {k});
        assert Keys(met) - seen == (Keys(met[1..]) - (seen + {k})) + {k};
      }
    }
  }

  lemma {:induction false} CountedIsNew(met: seq<FileId>, seen: set<nat>, id: FileId)
    requires id in Counted(met, seen)
    ensures id in met && Key(id) !in seen
    decreases |met|
  {
    var k := Key(met[0]);
    if k in seen {
      CountedIsNew(met[1..], seen, id);
    } else if id != met[0] {
      CountedIsNew(met[1..], seen + {k}, id);
    }
  }

  /** Every new key is that of a file counted. */
  lemma {:induction false} KeyIsCounted(met: seq<FileId>, seen: set<nat>, id: FileId) returns (x: FileId)
    requires id in met && Key(id) !in seen
    ensures x in Counted(met, seen) && Key(x) == Key(id)
    decreases |met|
  {
    var k := Key(met[0]);
    if k == Key(id) {
      x := met[0];
    } else if k in seen {
      x := KeyIsCounted(met[1..], seen, id);
    } else {
      x := KeyIsCounted(met[1..], seen + {k}, id);
    }
  }

  lemma {:induction false} CountedOnce(met: seq<FileId>, seen: set<nat>)
    ensures NoRepeats(Counted(met, seen))
    decreases |met|
  {
    if met != [] {
      var k := Key(met[0]);
      if k in seen {
        CountedOnce(met[1..], seen);
      } else {
        CountedOnce(met[1..], seen + {k});
        var rest := Counted(met[1..], seen + {k});
        if met[0] in rest {
          CountedIsNew(met[1..], seen + {k}, met[0]);
          assert false;
        }
        NoRepeatsPrepend(met[0], rest);
      }
    }
  }

  lemma NoRepeatsPrepend(x: FileId, ids: seq<FileId>)
    requires NoRepeats(ids) && x !in ids
    ensures NoRepeats([x] + ids)
  {
  }

  lemma {:induction false} TotalIsSum(f: FileId -> int, ids: seq<FileId>)
    requires NoRepeats(ids)
    ensures Total(f, ids) == Sum(f, AsSet(ids)) && |ids| == |AsSet(ids)|
    decreases |ids|
  {
    if ids != [] {
      TotalIsSum(f, ids[1..]);
      SumRemove(f, AsSet(ids), ids[0]);
      assert AsSet(ids) - {ids[0]} == AsSet(ids[1..]);
    }
  }

  lemma KeysOfSet(met: seq<FileId>)
    ensures Keys(met) - {} == KeySet(AsSet(met))
  {
  }

  /** The number counted is that of the files met exactly when no two of them have the same key. */
  lemma CountExact(met: seq<FileId>)
    ensures |Counted(met, {})| == |AsSet(met)| <==> KeysDistinct(AsSet(met))
  {
    OnePerKey(met, {});
    KeysOfSet(met);
    KeySetSize(AsSet(met));
  }

  lemma DistinctAreCounted(met: seq<FileId>)
    requires KeysDistinct(AsSet(met))
    ensures AsSet(Counted(met, {})) == AsSet(met)
  {
    forall id | id in met ensures id in Counted(met, {}) {
      var x := KeyIsCounted(met, {}, id);
      CountedIsNew(met, {}, x);
      assert x in AsSet(met) && id in AsSet(met);
    }
    forall id | id in Counted(met, {}) ensures id in met { CountedIsNew(met, {}, id); }
  }

  /** The walk's size is the sum over the files met. */
  ghost predicate SizeRight(f: FileId -> int, met: seq<FileId>) { Total(f, Counted(met, {})) == Sum(f, AsSet(met)) }

  lemma DistinctSizeRight(f: FileId -> int, met: seq<FileId>)
    requires KeysDistinct(AsSet(met))
    ensures SizeRight(f, met)
  {
    DistinctAreCounted(met);
    CountedOnce(met, {});
    TotalIsSum(f, Counted(met, {}));
  }

  /** The size is the sum over the files met, whatever their sizes, exactly when no two of them have the
      same key. */
  lemma SizeExact(met: seq<FileId>)
    ensures (forall f :: SizeRight(f, met)) <==> KeysDistinct(AsSet(met))
  {
    if KeysDistinct(AsSet(met)) {
      forall f ensures SizeRight(f, met) { DistinctSizeRight(f, met); }
    } else {
      var one: FileId -> int := _ => 1;
      CountExact(met);
      TotalOfOnes(one, Counted(met, {}));
      SumOfOnes(one, AsSet(met));
      assert !SizeRight(one, met);
    }
  }

  lemma {:induction false} TotalOfOnes(one: FileId -> int, ids: seq<FileId>)
    requires forall id :: one(id) == 1
    ensures Total(one, ids) == |ids|
  {
    if ids != [] { TotalOfOnes(one, ids[1..]); }
  }

  lemma {:induction false} SumOfOnes(one: FileId -> int, ids: set<FileId>)
    requires forall id :: one(id) == 1
    ensures Sum(one, ids) == |ids|
    decreases |ids|
  {
    if ids != {} {
      var x :| x in ids;
      SumRemove(one, ids, x);
      SumOfOnes(one, ids - {x});
    }
  }

  lemma MetSet(n: Node, depth: nat)
    ensures AsSet(Met(n, depth)) == Inodes(n, depth)
  {
    forall id ensures id in Met(n, depth) <==> id in Inodes(n, depth) { MetAreInodes(n, depth, id); }
  }

  function TwoFiles(x: FileId, y: FileId): Node { Dir([Entry("a", File(x)), Entry("b", File(y))]) }

  lemma TwoFilesMet(x: FileId, y: FileId)
    ensures Met(TwoFiles(x, y), 0) == [x, y]
  {
    var es := TwoFiles(x, y).entries;
    assert es[..1] == [es[0]] && es[..1][..0] == [];
    assert MetIn(es[..1], 1) == [] + [x] == [x];
    assert MetIn(es, 1) == [x] + [y];
  }

  /** Two files with the same key count as one, with the size of the one met first. */
  lemma SameKeyCountsOnce(x: FileId, y: FileId)
    requires Key(x) == Key(y)
    ensures Counted(Met(TwoFiles(x, y), 0), {}) == [x]
  {
    TwoFilesMet(x, y);
    var seen := {} + {Key(x)};
    assert [x, y][1..] == [y] && [y][1..] == [];
    assert Counted([y], seen) == Counted([], seen) == [];
  }

  /** So do the files with the inode numbers 1 and 2^32 + 1. */
  lemma CollisionCountsOnce(dev: nat)
    ensures Counted(Met(TwoFiles(FileId(dev, 1), FileId(dev, 0x1_0000_0001)), 0), {}) == [FileId(dev, 1)]
  {
    SameKeyCountsOnce(FileId(dev, 1), FileId(dev, 0x1_0000_0001));
  }

  /** Directories, each in the next, with a file in the innermost. */
  function Nested(k: nat, id: FileId): Node { if k == 0 then File(id) else Dir([Entry("d", Nested(k - 1, id))]) }

  /** A file is met exactly under at most 1024 directories. */
  lemma NestedIsMet(k: nat, id: FileId)
    ensures Met(Nested(k, id), 0) == if k <= 1024 then [id] else []
  {
    NestedFrom(k, id, 0);
  }

  lemma {:induction false} NestedDepth(k: nat, id: FileId)
    ensures Depth(Nested(k, id)) == k
  {
    if k > 0 {
      NestedDepth(k - 1, id);
      var es := Nested(k, id).entries;
      assert es[..0] == [] && DepthIn(es[..0]) == 0;
    }
  }

  lemma {:induction false} NestedFrom(k: nat, id: FileId, depth: nat)
    requires depth <= MAX_PATH_DEPTH
    ensures Met(Nested(k, id), depth) == if k + depth <= MAX_PATH_DEPTH then [id] else []
    decreases k
  {
    if k > 0 && depth < MAX_PATH_DEPTH {
      NestedFrom(k - 1, id, depth + 1);
      var es := Nested(k, id).entries;
      assert es[..0] == [] && MetIn(es, depth + 1) == MetIn(es[..0], depth + 1) + Met(es[0].node, depth + 1);
      PrependNothing(Met(es[0].node, depth + 1));
    }
  }

  // ----- the order of listing

  /** The size the walk gives does not change from tree a to tree b. */
  ghost predicate SameSize(a: Node, b: Node, f: FileId -> int) {
    Total(f, Counted(Met(a, 0), {})) == Total(f, Counted(Met(b, 0), {}))
  }

  /** The listing order makes no difference to the count. */
  lemma OrderKeepsCount(a: Node, b: Node)
    requires Reordered(a, b)
    ensures |Counted(Met(a, 0), {})| == |Counted(Met(b, 0), {})|
  {
    SameFiles(a, b, 0);
    MetSet(a, 0);
    MetSet(b, 0);
    OnePerKey(Met(a, 0), {});
    OnePerKey(Met(b, 0), {});
    KeysOfSet(Met(a, 0));
    KeysOfSet(Met(b, 0));
  }

  /** The listing order makes no difference to the size exactly when no two files have the same key. */
  lemma OrderIsIrrelevant(a: Node)
    ensures (forall b, f :: Reordered(a, b) ==> SameSize(a, b, f)) <==> KeysDistinct(Inodes(a, 0))
  {
    if KeysDistinct(Inodes(a, 0)) {
      forall b, f | Reordered(a, b) ensures SameSize(a, b, f) { DistinctSize(a, b, f); }
    } else {
      var y := Uncounted(a);
      var b := Fronted(a, 0, y);
      FrontedIsReordered(a, 0, y);
      var f: FileId -> int := id => if id == y then 1 else 0;
      TotalOfOne(f, y, Counted(Met(a, 0), {}));
      TotalOfOne(f, y, Counted(Met(b, 0), {}));
      FrontedIsFirst(a, 0, y);
      assert !SameSize(a, b, f);
    }
  }

  lemma DistinctSize(a: Node, b: Node, f: FileId -> int)
    requires Reordered(a, b) && KeysDistinct(Inodes(a, 0))
    ensures SameSize(a, b, f)
  {
    SameFiles(a, b, 0);
    MetSet(a, 0);
    MetSet(b, 0);
    DistinctSizeRight(f, Met(a, 0));
    DistinctSizeRight(f, Met(b, 0));
  }

  /** Where two files have the same key, some file is not counted. */
  lemma Uncounted(a: Node) returns (y: FileId)
    requires !KeysDistinct(Inodes(a, 0))
    ensures y in Inodes(a, 0) && y !in Counted(Met(a, 0), {})
  {
    MetSet(a, 0);
    y := SomeUncounted(Met(a, 0));
  }

  lemma SomeUncounted(met: seq<FileId>) returns (y: FileId)
    requires !KeysDistinct(AsSet(met))
    ensures y in AsSet(met) && y !in Counted(met, {})
  {
    var c := Counted(met, {});
    CountExact(met);
    CountedOnce(met, {});
    SizeOfSet(c);
    forall id | id in c ensures id in met { CountedIsNew(met, {}, id); }
    assert AsSet(c) <= AsSet(met) && AsSet(c) != AsSet(met);
    y :| y in AsSet(met) && y !in AsSet(c);
  }

  lemma SizeOfSet(ids: seq<FileId>)
    requires NoRepeats(ids)
    ensures |AsSet(ids)| == |ids|
  {
    TotalIsSum(_ => 1, ids);
  }

  lemma {:induction false} TotalOfOne(f: FileId -> int, y: FileId, ids: seq<FileId>)
    requires forall id :: f(id) == if id == y then 1 else 0
    ensures Total(f, ids) >= 0 && (Total(f, ids) > 0 <==> y in ids)
  {
    if ids != [] { TotalOfOne(f, y, ids[1..]); }
  }

  /** Where in a listing a file is found. */
  function PlaceOf(es: seq<Entry>, depth: nat, id: FileId): (i: nat)
    requires id in InodesIn(es, depth)
    ensures i < |es| && id in Inodes(es[i].node, depth)
    decreases |es|
  {
    var last := |es| - 1;
    if id in Inodes(es[last].node, depth) then last else PlaceOf(es[..last], depth, id)
  }

  /** The tree with a file moved to the front at every level. */
  function Fronted(n: Node, depth: nat, id: FileId): Node
    requires id in Inodes(n, depth)
    decreases n
  {
    match n
    case File(_) => n
    case Dir(es) =>
      var i := PlaceOf(es, depth + 1, id);
      Dir([Entry(es[i].name, Fronted(es[i].node, depth + 1, id))] + es[..i] + es[i + 1..])
  }

  lemma {:induction false} FrontedIsFirst(n: Node, depth: nat, id: FileId)
    requires id in Inodes(n, depth)
    ensures var met := Met(Fronted(n, depth, id), depth); met != [] && met[0] == id && id in Counted(met, {})
    decreases n
  {
    if n.Dir? {
      var es := n.entries;
      var i := PlaceOf(es, depth + 1, id);
      FrontedIsFirst(es[i].node, depth + 1, id);
      MetInHead(Fronted(n, depth, id).entries, depth + 1);
    }
  }

  lemma {:induction false} MetInHead(es: seq<Entry>, depth: nat)
    requires es != []
    ensures MetIn(es, depth) == Met(es[0].node, depth) + MetIn(es[1..], depth)
    decreases |es|
  {
    var last := |es| - 1;
    if last == 0 {
      assert es[..0] == [] && es[1..] == [];
      PrependNothing(Met(es[0].node, depth));
      AppendNothing(Met(es[0].node, depth));
    } else {
      var mid := es[1..last];
      MetInHead(es[..last], depth);
      Middle(es);
      assert MetIn(es[1..], depth) == MetIn(mid, depth) + Met(es[last].node, depth);
      Assoc(Met(es[0].node, depth), MetIn(mid, depth), Met(es[last].node, depth));
    }
  }

  lemma Middle(es: seq<Entry>)
    requires |es| > 1
    ensures var last := |es| - 1;
            es[..last][1..] == es[1..last] && es[1..][..|es[1..]| - 1] == es[1..last] && es[1..][|es[1..]| - 1] == es[last]
  {
  }

  lemma {:induction false} ReorderedSelf(n: Node)
    ensures Reordered(n, n)
    decreases n
  {
    if n.Dir? {
      var es := n.entries;
      var p: seq<nat> := seq(|es|, i => i);
      forall i | 0 <= i < |es| ensures Reordered(es[i].node, es[i].node) { ReorderedSelf(es[i].node); }
      assert Inverse(p, p, |es|) && Shuffled(es, es, p);
    }
  }

  lemma {:induction false} FrontedIsReordered(n: Node, depth: nat, id: FileId)
    requires id in Inodes(n, depth)
    ensures Reordered(n, Fronted(n, depth, id))
    decreases n
  {
    if n.Dir? {
      var es, fs := n.entries, Fronted(n, depth, id).entries;
      var i := PlaceOf(es, depth + 1, id);
      var p: seq<nat> := seq(|es|, j => if j == i then 0 else if j < i then j + 1 else j);
      var q: seq<nat> := seq(|es|, j => if j == 0 then i else if j <= i then j - 1 else j);
      assert Inverse(p, q, |es|);
      forall j | 0 <= j < |es| ensures p[j] < |fs| && es[j].name == fs[p[j]].name && Reordered(es[j].node, fs[p[j]].node) {
        if j == i { FrontedIsReordered(es[i].node, depth + 1, id); } else { ReorderedSelf(es[j].node); }
      }
      assert Shuffled(es, fs, p);
    }
  }

  // ----- the walk

  /** The map of keys seen so far, shared by the whole walk. */
  class InodeTable {
    var seen: set<nat>

    constructor ()
      ensures seen == {}
    {
      seen := {};
    }
  }

  /** What a part of the walk that meets the files `met` adds to its totals. */
  ghost predicate Adds(sizeOf: FileId -> int, before: set<nat>, met: seq<FileId>, size: int, count: int) {
    size == Total(sizeOf, Counted(met, before)) && count == |Counted(met, before)|
  }

  lemma AddsAppend(f: FileId -> int, before: set<nat>, a: seq<FileId>, b: seq<FileId>, size: int, count: int, size': int, count': int)
    requires Adds(f, before, a, size, count) && Adds(f, before + Keys(a), b, size', count')
    ensures Adds(f, before, a + b, size + size', count + count')
  {
    CountedAppend(a, b, before);
    TotalAppend(f, Counted(a, before), Counted(b, before + Keys(a)));
  }

  /** `do_calculate_dir_size_without_hardlink`. */
  method CalculateDir(d: Node, depth: nat, sizeOf: FileId -> int, table: InodeTable) returns (size: int, count: int)
    requires d.Dir?
    modifies table
    ensures table.seen == old(table.seen) + Keys(Met(d, depth))
    ensures Adds(sizeOf, old(table.seen), Met(d, depth), size, count)
    decreases d, 1
  {
    size, count := 0, 0;
    if depth + 1 > MAX_PATH_DEPTH {
      return;
    }
    size, count := WalkEntries(d, depth, sizeOf, table);
  }

  lemma MetGrows(es: seq<Entry>, i: nat, depth: nat)
    requires i < |es|
    ensures MetIn(es[..i + 1], depth) == MetIn(es[..i], depth) + Met(es[i].node, depth)
    ensures Keys(MetIn(es[..i + 1], depth)) == Keys(MetIn(es[..i], depth)) + Keys(Met(es[i].node, depth))
  {
    assert es[..i + 1][..i] == es[..i] && es[..i + 1][i] == es[i];
    KeysAppend(MetIn(es[..i], depth), Met(es[i].node, depth));
  }

  /** `recursive_cal_dir_size__without_hardlink_helper`. */
  method WalkEntries(d: Node, depth: nat, sizeOf: FileId -> int, table: InodeTable) returns (size: int, count: int)
    requires d.Dir? && depth + 1 <= MAX_PATH_DEPTH
    modifies table
    ensures table.seen == old(table.seen) + Keys(MetIn(d.entries, depth + 1))
    ensures Adds(sizeOf, old(table.seen), MetIn(d.entries, depth + 1), size, count)
    decreases d, 0
  {
    var es := d.entries;
    size, count := 0, 0;
    ghost var before := table.seen;
    for i := 0 to |es|
      invariant table.seen == before + Keys(MetIn(es[..i], depth + 1))
      invariant Adds(sizeOf, before, MetIn(es[..i], depth + 1), size, count)
    {
      MetGrows(es, i, depth + 1);
      assert es[i].node < d;
      ghost var a, b := MetIn(es[..i], depth + 1), Met(es[i].node, depth + 1);
      var subSize, subCount := CalculateEntry(es[i].node, depth, sizeOf, table);
      AddsAppend(sizeOf, before, a, b, size, count, subSize, subCount);
      size, count := size + subSize, count + subCount;
    }
    assert es[..|es|] == es;
  }

  /** The body of the listing loop, after `lstat`. */
  method CalculateEntry(n: Node, depth: nat, sizeOf: FileId -> int, table: InodeTable) returns (size: int, count: int)
    modifies table
    ensures table.seen == old(table.seen) + Keys(Met(n, depth + 1))
    ensures Adds(sizeOf, old(table.seen), Met(n, depth + 1), size, count)
    decreases n, 2
  {
    size, count := 0, 0;
    match n
    case Dir(_) => size, count := CalculateDir(n, depth + 1, sizeOf, table);
    case File(id) =>
      KeysStep([id]);
      assert [id][1..] == [];
      if Key(id) in table.seen {
        return;
      }
      size, count := sizeOf(id), 1;
      table.seen := table.seen + {Key(id)};
  }

  /** `utils_calculate_dir_size_without_hardlink`: of the files met, the first with each key counts. That
      is every file once exactly when no two files have the same key. */
  method DirSizeWithoutHardlink(root: Node, sizeOf: FileId -> int) returns (size: int, count: int)
    requires root.Dir?
    ensures size == Total(sizeOf, Counted(Met(root, 0), {})) && count == |Counted(Met(root, 0), {})|
    ensures count == |Inodes(root, 0)| <==> KeysDistinct(Inodes(root, 0))
    ensures KeysDistinct(Inodes(root, 0)) ==> size == Sum(sizeOf, Inodes(root, 0))
    ensures SmallOnOneDevice(Inodes(root, 0)) ==> count == |Inodes(root, 0)| && size == Sum(sizeOf, Inodes(root, 0))
    ensures Depth(root) <= MAX_PATH_DEPTH ==> Inodes(root, 0) == AllInodes(root)
  {
    var table := new InodeTable();
    size, count := CalculateDir(root, 0, sizeOf, table);
    MetSet(root, 0);
    CountExact(Met(root, 0));
    SmallIsDistinct(Inodes(root, 0));
    if KeysDistinct(Inodes(root, 0)) { DistinctSizeRight(sizeOf, Met(root, 0)); }
    if Depth(root) <= MAX_PATH_DEPTH { ShallowIsSeenInFull(root, 0); }
  }
}
