/**
 Log rotation in the shim (`shim_json_data_write`, `shim_dump_log_file` and
 `shim_rename_old_log_file` of src/cmd/isulad-shim/terminal.c).

 File 0 is the log itself and file i its archive with suffix ".i". A file is the sequence of the
 records written to it; its bytes are their concatenation.
 */
module LogRotation {
  import opened Common
  import opened LogCache

  type File = seq<string>

  function Size(f: File): nat { |Flatten(f)| }

  lemma SizeAppend(f: File, r: string)
    ensures Size(f + [r]) == Size(f) + |r|
  {
    FlattenConcat(f, [r]);
    assert [r][1..] == [];
  }

  /** A record longer than a whole log file loses its last bytes. */
  function Cut(r: string, maxSize: nat): string { if |r| <= maxSize then r else r[..maxSize] }

  /** What is kept of a record: its first bytes, as many as a log file may hold. */
  lemma CutKeepsFront(r: string, maxSize: nat)
    ensures Cut(r, maxSize) <= r && |Cut(r, maxSize)| == if |r| <= maxSize then |r| else maxSize
  {
  }

  // ----- the reference: packing records into generations of files

  /** Generations of the log, oldest first; the last is the one being written. */
  type Generations = g: seq<File> | g != [] witness [[]]

  function AddRecord(g: Generations, r: string, maxSize: nat): Generations {
    var last := |g| - 1;
    if Size(g[last]) + |r| <= maxSize then g[last := g[last] + [r]] else g + [[Cut(r, maxSize)]]
  }

  function Pack(rs: seq<string>, maxSize: nat): Generations {
    if rs == [] then [[]] else AddRecord(Pack(rs[..|rs| - 1], maxSize), rs[|rs| - 1], maxSize)
  }

  function CutAll(rs: seq<string>, maxSize: nat): seq<string> {
    if rs == [] then [] else CutAll(rs[..|rs| - 1], maxSize) + [Cut(rs[|rs| - 1], maxSize)]
  }

  /** The records of the generations from number m on. */
  function Since(g: seq<File>, m: nat): seq<string>
    decreases |g| - m
  {
    if m >= |g| then [] else g[m] + Since(g, m + 1)
  }

  /** The packing keeps every record, in order, and no generation outgrows a log file. */
  lemma {:induction false} PackIsFaithful(rs: seq<string>, maxSize: nat)
    ensures Since(Pack(rs, maxSize), 0) == CutAll(rs, maxSize)
    ensures forall i :: 0 <= i < |Pack(rs, maxSize)| ==> Size(Pack(rs, maxSize)[i]) <= maxSize
  {
    if rs != [] {
      var r := rs[|rs| - 1];
      var g := Pack(rs[..|rs| - 1], maxSize);
      PackIsFaithful(rs[..|rs| - 1], maxSize);
      AddRecordIsFaithful(g, r, maxSize);
    }
  }

  lemma AddRecordIsFaithful(g: Generations, r: string, maxSize: nat)
    requires forall i :: 0 <= i < |g| ==> Size(g[i]) <= maxSize
    ensures var g' := AddRecord(g, r, maxSize);
            && Since(g', 0) == Since(g, 0) + [Cut(r, maxSize)]
            && forall i :: 0 <= i < |g'| ==> Size(g'[i]) <= maxSize
  {
    SizeAppend(g[|g| - 1], r);
    SizeAppend([], Cut(r, maxSize));
    assert [] + [Cut(r, maxSize)] == [Cut(r, maxSize)];
    AddRecordSince(g, r, maxSize, 0);
  }

  lemma {:induction false} AddRecordSince(g: Generations, r: string, maxSize: nat, m: nat)
    requires m < |g|
    ensures Since(AddRecord(g, r, maxSize), m) == Since(g, m) + [Cut(r, maxSize)]
    decreases |g| - m
  {
    var g', cut := AddRecord(g, r, maxSize), Cut(r, maxSize);
    if m < |g| - 1 {
      AddRecordSince(g, r, maxSize, m + 1);
      Assoc(g[m], Since(g, m + 1), [cut]);
    } else {
      AppendNothing(g[m]);
      AppendNothing(g'[m]);
      AppendNothing([cut]);
      assert |g'| == |g| + 1 ==> Since(g', |g|) == [cut] + Since(g', |g| + 1);
    }
  }

  /** A new generation starts only with a record that does not fit: one that would have outgrown the
      generation before, or one as long as a whole file. */
  ghost predicate Greedy(g: seq<File>, maxSize: nat) {
    forall i :: 0 < i < |g| ==> StartsForced(g[i - 1], g[i], maxSize)
  }

  predicate StartsForced(before: File, f: File, maxSize: nat) {
    f != [] && (Size(before) + |f[0]| > maxSize || |f[0]| == maxSize)
  }

  lemma {:induction false} PackIsGreedy(rs: seq<string>, maxSize: nat)
    ensures Greedy(Pack(rs, maxSize), maxSize)
  {
    if rs != [] {
      var g, r := Pack(rs[..|rs| - 1], maxSize), rs[|rs| - 1];
      PackIsGreedy(rs[..|rs| - 1], maxSize);
      var g' := AddRecord(g, r, maxSize);
      forall i | 0 < i < |g'| ensures StartsForced(g'[i - 1], g'[i], maxSize) {
        if i < |g| { assert StartsForced(g[i - 1], g[i], maxSize); }
      }
    }
  }

  // ----- the files

  /** What the operating system does to one rotation: the numbered renames that fail although their
      source exists, whether renaming the log itself fails, and whether reopening it fails. */
  datatype Env = Env(failing: set<nat>, logRenameFails: bool, reopenFails: bool)

  const FINE := Env({}, false, false)

  /** `open` says whether the terminal has a file descriptor; `written` lists the records written. */
  datatype Log = Log(files: map<nat, File>, open: bool, written: seq<string>)

  const EMPTY_LOG := Log(map[0 := []], true, [])

  predicate Usable(s: Log) { s.open ==> 0 in s.files }

  function Rename(files: map<nat, File>, from: nat, to: nat): map<nat, File>
    requires from in files && from != to
  {
    (files - {from})[to := files[from]]
  }

  /** The renames i - 1 to i, i - 2 to i - 1, ..., 1 to 2; a missing source is passed over and a
      failure stops the whole. */
  function Shift(files: map<nat, File>, i: nat, failing: set<nat>): (map<nat, File>, bool)
    decreases i
  {
    if i <= 1 then (files, true)
    else if i - 1 !in files then Shift(files, i - 1, failing)
    else if i in failing then (files, false)
    else Shift(Rename(files, i - 1, i), i - 1, failing)
  }

  /** The rotation: shift the archives, make the log archive 1, and open a new log. */
  function Dump(s: Log, env: Env, maxFile: nat): (Log, bool)
    requires maxFile > 0 && 0 in s.files
  {
    ShiftKeepsLog(s.files, maxFile - 1, env.failing);
    var (shifted, ok) := Shift(s.files, maxFile - 1, env.failing);
    if !ok then (s.(files := shifted), false)
    else
      var moved := if env.logRenameFails then shifted else Rename(shifted, 0, 1);
      if env.reopenFails then (s.(files := moved, open := false), false)
      else (s.(files := if 0 in moved then moved else moved[0 := []]), true)
  }

  function Append(s: Log, r: string): Log
    requires 0 in s.files
  {
    s.(files := s.files[0 := s.files[0] + [r]], written := s.written + [r])
  }

  function WriteRecord(s: Log, r: string, env: Env, maxSize: nat, maxFile: nat): (s': Log)
    requires maxFile > 0 && Usable(s)
    ensures Usable(s')
  {
    if !s.open then s
    else if Size(s.files[0]) + |r| <= maxSize then Append(s, r)
    else
      ShiftKeepsLog(s.files, maxFile - 1, env.failing);
      var (d, ok) := Dump(s, env, maxFile);
      if ok then Append(d, Cut(r, maxSize)) else d
  }

  lemma {:induction false} ShiftKeepsLog(files: map<nat, File>, i: nat, failing: set<nat>)
    ensures 0 in files <==> 0 in Shift(files, i, failing).0
    ensures 0 in files ==> Shift(files, i, failing).0[0] == files[0]
    decreases i
  {
    if i > 1 {
      if i - 1 !in files { ShiftKeepsLog(files, i - 1, failing); }
      else if i !in failing { ShiftKeepsLog(Rename(files, i - 1, i), i - 1, failing); }
    }
  }

  /** The shift fails exactly when one of its renames fails although there is something to rename: a
      missing archive is no failure. */
  lemma {:induction false} ShiftFailsExactly(files: map<nat, File>, i: nat, failing: set<nat>)
    ensures !Shift(files, i, failing).1 <==> exists j :: j in failing && 2 <= j <= i && j - 1 in files
    decreases i
  {
    if i > 1 {
      if i - 1 !in files {
        ShiftFailsExactly(files, i - 1, failing);
      } else if i !in failing {
        var renamed := Rename(files, i - 1, i);
        ShiftFailsExactly(renamed, i - 1, failing);
      }
    }
  }

  function Run(start: Log, rs: seq<string>, envs: seq<Env>, maxSize: nat, maxFile: nat): (s: Log)
    requires maxFile > 0 && |envs| == |rs| && Usable(start)
    ensures Usable(s)
    decreases |rs|
  {
    if rs == [] then start
    else
      var last := |rs| - 1;
      WriteRecord(Run(start, rs[..last], envs[..last], maxSize, maxFile), rs[last], envs[last], maxSize, maxFile)
  }

  /** How many archives the configuration keeps; even a single file keeps one. */
  function Kept(maxFile: nat): nat { if maxFile <= 2 then 1 else maxFile - 1 }

  // ----- without failures the files are the last generations

  function Get(files: map<nat, File>, i: nat): Option<File> { if i in files then Some(files[i]) else None }

  /** File i is the generation i before the last, for as many as are kept; there is no other file. */
  ghost predicate Holds(s: Log, g: Generations, kept: nat) {
    && s.open && 0 in s.files
    && forall i: nat :: Get(s.files, i) == if i <= kept && i < |g| then Some(g[|g| - 1 - i]) else None
  }

  /** The archives below i have no gap. */
  ghost predicate GapFree(files: map<nat, File>, i: nat) {
    forall j: nat :: 1 < j < i && Get(files, j).Some? ==> Get(files, j - 1).Some?
  }

  /** The shift moves every archive below i up by one. */
  lemma {:induction false} ShiftMovesUp(files: map<nat, File>, i: nat, j: nat)
    requires GapFree(files, i)
    ensures Shift(files, i, {}).1
    ensures Get(Shift(files, i, {}).0, j) ==
            if j == 1 && i > 1 then None
            else if 2 <= j <= i && Get(files, j - 1).Some? then Get(files, j - 1)
            else Get(files, j)
    decreases i
  {
    if i > 1 {
      if i - 1 !in files {
        assert GapFree(files, i - 1);
        ShiftMovesUp(files, i - 1, j);
        if j == i - 1 && j > 1 { assert Get(files, j).None?; }
      } else {
        var renamed := Rename(files, i - 1, i);
        assert GapFree(renamed, i - 1) by {
          forall k: nat | 1 < k < i - 1 && Get(renamed, k).Some? ensures Get(renamed, k - 1).Some? {
            assert Get(renamed, k) == Get(files, k) && Get(renamed, k - 1) == Get(files, k - 1);
          }
        }
        ShiftMovesUp(renamed, i - 1, j);
        assert GapFree(files, i) && (1 < j < i && Get(files, j).Some? ==> Get(files, j - 1).Some?);
      }
    }
  }

  /** A rotation without failures, file by file. */
  lemma DumpMovesUp(s: Log, maxFile: nat, j: nat)
    requires maxFile > 0 && 0 in s.files && GapFree(s.files, Kept(maxFile) + 1)
    requires forall k: nat :: Get(s.files, k).Some? ==> k <= Kept(maxFile)
    ensures var (d, ok) := Dump(s, FINE, maxFile);
            && ok && d == s.(files := d.files)
            && Get(d.files, j) == if j == 0 then Some([]) else if j <= Kept(maxFile) then Get(s.files, j - 1) else None
  {
    assert GapFree(s.files, maxFile - 1);
    ShiftMovesUp(s.files, maxFile - 1, j);
    ShiftKeepsLog(s.files, maxFile - 1, {});
    var shifted := Shift(s.files, maxFile - 1, {}).0;
    var moved := Rename(shifted, 0, 1);
    assert j > 1 ==> Get(moved, j) == Get(shifted, j);
    assert 1 < j < Kept(maxFile) + 1 && Get(s.files, j).Some? ==> Get(s.files, j - 1).Some?;
    assert j > Kept(maxFile) ==> Get(s.files, j).None?;
  }

  lemma WriteHolds(s: Log, g: Generations, r: string, maxSize: nat, maxFile: nat)
    requires maxFile > 0 && Holds(s, g, Kept(maxFile))
    ensures Holds(WriteRecord(s, r, FINE, maxSize, maxFile), AddRecord(g, r, maxSize), Kept(maxFile))
  {
    assert Get(s.files, 0) == Some(g[|g| - 1]);
    if Size(s.files[0]) + |r| > maxSize {
      RotateHolds(s, g, r, maxSize, maxFile);
    } else {
      forall i: nat | i > 0 ensures Get(Append(s, r).files, i) == Get(s.files, i) {}
    }
  }

  lemma RotateHolds(s: Log, g: Generations, r: string, maxSize: nat, maxFile: nat)
    requires maxFile > 0 && Holds(s, g, Kept(maxFile)) && Get(s.files, 0) == Some(g[|g| - 1])
    requires Size(s.files[0]) + |r| > maxSize
    ensures Holds(WriteRecord(s, r, FINE, maxSize, maxFile), AddRecord(g, r, maxSize), Kept(maxFile))
  {
    var g' := AddRecord(g, r, maxSize);
    var s' := WriteRecord(s, r, FINE, maxSize, maxFile);
    assert [] + [Cut(r, maxSize)] == [Cut(r, maxSize)];
    forall i: nat
      ensures s'.open && Get(s'.files, i) == if i <= Kept(maxFile) && i < |g'| then Some(g'[|g'| - 1 - i]) else None
    {
      DumpMovesUp(s, maxFile, i);
      DumpMovesUp(s, maxFile, 0);
      if i > 0 {
        assert Get(s'.files, i) == Get(Dump(s, FINE, maxFile).0.files, i);
        assert Get(s.files, i - 1) == if i - 1 <= Kept(maxFile) && i - 1 < |g| then Some(g[|g| - i]) else None;
      }
    }
  }

  /** On every run without failures the log and its archives are exactly the last generations of the
      packing, as many as the configuration keeps. */
  lemma {:induction false} FilesAreGenerations(rs: seq<string>, maxSize: nat, maxFile: nat)
    requires maxFile > 0
    ensures Holds(Run(EMPTY_LOG, rs, AllFine(|rs|), maxSize, maxFile), Pack(rs, maxSize), Kept(maxFile))
  {
    if rs != [] {
      var last := |rs| - 1;
      FilesAreGenerations(rs[..last], maxSize, maxFile);
      assert AllFine(|rs|)[..last] == AllFine(last);
      WriteHolds(Run(EMPTY_LOG, rs[..last], AllFine(last), maxSize, maxFile), Pack(rs[..last], maxSize), rs[last], maxSize, maxFile);
    }
  }

  function AllFine(n: nat): seq<Env> { seq(n, _ => FINE) }

  // ----- what is kept, oldest first

  function Slot(files: map<nat, File>, i: nat): File { if i in files then files[i] else [] }

  /** The records of the files n, n - 1, ..., 1, 0, in this order. */
  function History(files: map<nat, File>, n: nat): seq<string> {
    Slot(files, n) + if n == 0 then [] else History(files, n - 1)
  }

  predicate IsSuffix(a: seq<string>, b: seq<string>) { |a| <= |b| && b[|b| - |a|..] == a }

  /** Where the last n + 1 generations start. */
  function FirstOf(g: Generations, n: nat): nat { if n < |g| then |g| - 1 - n else 0 }

  /** The history is the concatenation of the last generations. */
  lemma {:induction false} HistoryOfGenerations(s: Log, g: Generations, kept: nat, n: nat)
    requires Holds(s, g, kept) && n <= kept
    ensures History(s.files, n) == Since(g, FirstOf(g, n))
  {
    SlotOf(s, g, kept, n);
    SinceStep(g, n);
    if n > 0 { HistoryOfGenerations(s, g, kept, n - 1); }
  }

  lemma SinceStep(g: Generations, n: nat)
    ensures Since(g, FirstOf(g, n)) == Generation(g, n) + if n == 0 then [] else Since(g, FirstOf(g, n - 1))
  {
    if n >= |g| {
      PrependNothing(Since(g, 0));
      assert FirstOf(g, n - 1) == 0;
    } else if n == 0 {
      assert Since(g, |g|) == [];
    } else {
      assert FirstOf(g, n - 1) == FirstOf(g, n) + 1;
    }
  }

  function Generation(g: Generations, n: nat): File { if n < |g| then g[|g| - 1 - n] else [] }

  lemma SlotOf(s: Log, g: Generations, kept: nat, n: nat)
    requires Holds(s, g, kept) && n <= kept
    ensures Slot(s.files, n) == Generation(g, n)
  {
    assert Get(s.files, n) == if n <= kept && n < |g| then Some(g[|g| - 1 - n]) else None;
  }

  /** On every run without failures no file outgrows the limit and no archive beyond those configured
      exists. */
  lemma FilesStaySmall(rs: seq<string>, maxSize: nat, maxFile: nat)
    requires maxFile > 0
    ensures var s := Run(EMPTY_LOG, rs, AllFine(|rs|), maxSize, maxFile);
            forall i: nat :: Get(s.files, i).Some? ==>
              i <= Kept(maxFile) && Size(s.files[i]) <= maxSize && (maxFile >= 2 ==> i < maxFile)
  {
    var s, g := Run(EMPTY_LOG, rs, AllFine(|rs|), maxSize, maxFile), Pack(rs, maxSize);
    FilesAreGenerations(rs, maxSize, maxFile);
    PackIsFaithful(rs, maxSize);
    forall i: nat | Get(s.files, i).Some? ensures i <= Kept(maxFile) && Size(s.files[i]) <= maxSize {
      assert Get(s.files, i) == Some(g[|g| - 1 - i]);
    }
  }

  /** On every run without failures, oldest to newest the files hold a suffix of the records, each cut
      to the limit; all of them as long as the generations fit. */
  lemma FilesHoldSuffix(rs: seq<string>, maxSize: nat, maxFile: nat)
    requires maxFile > 0
    ensures var s := Run(EMPTY_LOG, rs, AllFine(|rs|), maxSize, maxFile);
            && IsSuffix(History(s.files, Kept(maxFile)), CutAll(rs, maxSize))
            && (|Pack(rs, maxSize)| <= Kept(maxFile) + 1 ==> History(s.files, Kept(maxFile)) == CutAll(rs, maxSize))
  {
    var g, n := Pack(rs, maxSize), Kept(maxFile);
    FilesAreGenerations(rs, maxSize, maxFile);
    HistoryOfGenerations(Run(EMPTY_LOG, rs, AllFine(|rs|), maxSize, maxFile), g, n, n);
    PackIsFaithful(rs, maxSize);
    SinceIsSuffix(g, FirstOf(g, n));
  }

  lemma {:induction false} SinceIsSuffix(g: seq<File>, m: nat)
    requires m <= |g|
    ensures IsSuffix(Since(g, m), Since(g, 0))
  {
    if m > 0 {
      SinceIsSuffix(g, m - 1);
      EndsWith(g[m - 1], Since(g, m));
      SuffixTrans(Since(g, m), Since(g, m - 1), Since(g, 0));
    }
  }

  lemma EndsWith(a: seq<string>, b: seq<string>)
    ensures IsSuffix(b, a + b)
  {
  }

  // ----- with failures order survives

  lemma {:induction false} HistoryFrame(f: map<nat, File>, f': map<nat, File>, n: nat)
    requires forall j: nat :: j <= n ==> Slot(f, j) == Slot(f', j)
    ensures History(f, n) == History(f', n)
  {
    if n > 0 { HistoryFrame(f, f', n - 1); }
  }

  lemma EmptyMiddle(a: seq<string>, b: seq<string>)
    ensures a + ([] + b) == [] + (a + b)
  {
  }

  /** Renaming i to i + 1 drops what was at i + 1 and otherwise keeps the history. */
  lemma {:induction false} RenameHistory(files: map<nat, File>, i: nat, n: nat)
    requires i in files && i + 1 <= n
    ensures History(Rename(files, i, i + 1), n) == History(files - {i + 1}, n)
  {
    var f, f' := Rename(files, i, i + 1), files - {i + 1};
    if n == i + 1 {
      if i > 0 { HistoryFrame(f, f', i - 1); }
      EmptyMiddle(files[i], if i > 0 then History(f', i - 1) else []);
      assert History(f, i) == Slot(f, i) + (if i > 0 then History(f', i - 1) else []);
    } else {
      RenameHistory(files, i, n - 1);
      assert Slot(f, n) == Slot(f', n);
    }
  }

  lemma NothingThere(files: map<nat, File>, i: nat)
    requires i !in files
    ensures files - {i} == files
  {
  }

  /** The shift keeps the history when its topmost place is free, and leaves place 1 free. */
  lemma {:induction false} ShiftKeepsHistory(files: map<nat, File>, i: nat, failing: set<nat>, n: nat)
    requires 0 < i <= n && i !in files
    ensures var (f, ok) := Shift(files, i, failing);
            History(f, n) == History(files, n) && (ok ==> 1 !in f) && (forall j :: j > i ==> Get(f, j) == Get(files, j))
    decreases i
  {
    if i > 1 {
      if i - 1 !in files {
        ShiftKeepsHistory(files, i - 1, failing, n);
      } else if i !in failing {
        RenameHistory(files, i - 1, n);
        NothingThere(files, i);
        var renamed := Rename(files, i - 1, i);
        ShiftKeepsHistory(renamed, i - 1, failing, n);
        forall j: nat | j > i ensures Get(renamed, j) == Get(files, j) {}
      }
    }
  }

  lemma DropOldest(files: map<nat, File>, n: nat)
    ensures IsSuffix(History(files - {n}, n), History(files, n))
  {
    if n > 0 { HistoryFrame(files - {n}, files, n - 1); }
  }

  ghost predicate Within(files: map<nat, File>, n: nat) { forall j: nat :: j > n ==> Get(files, j).None? }

  /** Shifting, whatever fails, loses at most the oldest archive. */
  lemma ShiftLosesOldest(files: map<nat, File>, n: nat, failing: set<nat>)
    requires n > 1 && Within(files, n)
    ensures var (f, ok) := Shift(files, n, failing);
            IsSuffix(History(f, n), History(files, n)) && Within(f, n) && (ok ==> 1 !in f)
  {
    DropOldest(files, n);
    if n - 1 !in files {
      ShiftKeepsHistory(files, n - 1, failing, n);
    } else if n !in failing {
      var renamed := Rename(files, n - 1, n);
      RenameHistory(files, n - 1, n);
      ShiftKeepsHistory(renamed, n - 1, failing, n);
      forall j: nat | j > n ensures Get(renamed, j) == Get(files, j) {}
    }
  }

  lemma SuffixTrans(a: seq<string>, b: seq<string>, c: seq<string>)
    requires IsSuffix(a, b) && IsSuffix(b, c)
    ensures IsSuffix(a, c)
  {
    assert c[|c| - |b|..][|b| - |a|..] == c[|c| - |a|..];
  }

  /** Making the log archive 1 loses at most what was archive 1, and nothing when the place is free. */
  lemma MoveLogHistory(files: map<nat, File>, n: nat)
    requires 0 in files && 0 < n && Within(files, n) && (n > 1 ==> 1 !in files)
    ensures var f := Rename(files, 0, 1); IsSuffix(History(f, n), History(files, n)) && Within(f, n)
  {
    RenameHistory(files, 0, n);
    if n > 1 { NothingThere(files, 1); } else { DropOldest(files, 1); }
    forall j: nat | j > n ensures Get(Rename(files, 0, 1), j) == Get(files, j) {}
  }

  lemma {:induction false} HistoryAppend(files: map<nat, File>, r: seq<string>, n: nat)
    ensures History(files[0 := Slot(files, 0) + r], n) == History(files, n) + r
  {
    if n > 0 {
      HistoryAppend(files, r, n - 1);
      Assoc(Slot(files, n), History(files, n - 1), r);
    }
  }

  lemma OpenEmpty(files: map<nat, File>, n: nat)
    requires 0 !in files && Within(files, n)
    ensures History(files[0 := []], n) == History(files, n) && Within(files[0 := []], n)
  {
    var reopened: map<nat, File> := files[0 := []];
    HistoryFrame(files, reopened, n);
    forall j: nat | j > n ensures Get(reopened, j).None? { assert Get(reopened, j) == Get(files, j); }
  }

  /** The archives and the log hold a suffix of the records written, and no archive is beyond n. */
  ghost predicate Ordered(s: Log, n: nat) {
    IsSuffix(History(s.files, n), s.written) && Within(s.files, n)
  }

  lemma DumpKeepsOrder(s: Log, env: Env, maxFile: nat)
    requires maxFile > 0 && 0 in s.files && Ordered(s, Kept(maxFile))
    ensures Ordered(Dump(s, env, maxFile).0, Kept(maxFile))
    ensures Dump(s, env, maxFile).1 ==> 0 in Dump(s, env, maxFile).0.files
  {
    var n := Kept(maxFile);
    if maxFile > 2 { ShiftLosesOldest(s.files, n, env.failing); }
    var (shifted, ok) := Shift(s.files, maxFile - 1, env.failing);
    SuffixTrans(History(shifted, n), History(s.files, n), s.written);
    ShiftKeepsLog(s.files, maxFile - 1, env.failing);
    if ok && !env.logRenameFails {
      MoveLogHistory(shifted, n);
      var moved := Rename(shifted, 0, 1);
      SuffixTrans(History(moved, n), History(shifted, n), s.written);
      OpenEmpty(moved, n);
    }
  }

  lemma WriteKeepsOrder(s: Log, r: string, env: Env, maxSize: nat, maxFile: nat)
    requires maxFile > 0 && Usable(s) && Ordered(s, Kept(maxFile))
    ensures Ordered(WriteRecord(s, r, env, maxSize, maxFile), Kept(maxFile))
  {
    if s.open {
      if Size(s.files[0]) + |r| <= maxSize {
        AppendKeepsOrder(s, r, Kept(maxFile));
      } else {
        DumpKeepsOrder(s, env, maxFile);
        ShiftKeepsLog(s.files, maxFile - 1, env.failing);
        var (d, ok) := Dump(s, env, maxFile);
        if ok { AppendKeepsOrder(d, Cut(r, maxSize), Kept(maxFile)); }
      }
    }
  }

  lemma AppendKeepsOrder(s: Log, r: string, n: nat)
    requires 0 in s.files && Ordered(s, n)
    ensures Ordered(Append(s, r), n)
  {
    HistoryAppend(s.files, [r], n);
    forall j: nat | j > n ensures Get(Append(s, r).files, j) == Get(s.files, j) {}
  }

  /** Whatever renames and reopenings fail, on every run the files hold a suffix of the records
      written, in order, and no archive beyond those configured appears. */
  lemma {:induction false} FailuresKeepOrder(start: Log, rs: seq<string>, envs: seq<Env>, maxSize: nat, maxFile: nat)
    requires maxFile > 0 && |envs| == |rs| && Usable(start) && Ordered(start, Kept(maxFile))
    ensures Ordered(Run(start, rs, envs, maxSize, maxFile), Kept(maxFile))
    decreases |rs|
  {
    if rs != [] {
      var last := |rs| - 1;
      FailuresKeepOrder(start, rs[..last], envs[..last], maxSize, maxFile);
      WriteKeepsOrder(Run(start, rs[..last], envs[..last], maxSize, maxFile), rs[last], envs[last], maxSize, maxFile);
    }
  }

  /** The log takes a record: it is open, and the record fits or the rotation succeeds. */
  predicate Takes(s: Log, r: string, env: Env, maxSize: nat, maxFile: nat)
    requires maxFile > 0 && Usable(s)
  {
    s.open && (Size(s.files[0]) + |r| <= maxSize || (Shift(s.files, maxFile - 1, env.failing).1 && !env.reopenFails))
  }

  /** Which records of a run were taken. */
  function Took(start: Log, rs: seq<string>, envs: seq<Env>, maxSize: nat, maxFile: nat): seq<bool>
    requires maxFile > 0 && |envs| == |rs| && Usable(start)
  {
    seq(|rs|, i requires 0 <= i < |rs| => Takes(Run(start, rs[..i], envs[..i], maxSize, maxFile), rs[i], envs[i], maxSize, maxFile))
  }

  /** The elements at the places marked. */
  function Select(xs: seq<string>, marks: seq<bool>): seq<string>
    requires |marks| == |xs|
  {
    if xs == [] then []
    else var last := |xs| - 1; Select(xs[..last], marks[..last]) + if marks[last] then [xs[last]] else []
  }

  lemma {:induction false} CutAllAt(rs: seq<string>, maxSize: nat)
    ensures |CutAll(rs, maxSize)| == |rs|
    ensures rs != [] ==> CutAll(rs, maxSize)[..|rs| - 1] == CutAll(rs[..|rs| - 1], maxSize)
    ensures rs != [] ==> CutAll(rs, maxSize)[|rs| - 1] == Cut(rs[|rs| - 1], maxSize)
  {
    if rs != [] { CutAllAt(rs[..|rs| - 1], maxSize); }
  }

  /** A write adds the record, cut to the limit, if the log takes it, and nothing otherwise. */
  lemma WriteTakes(s: Log, r: string, env: Env, maxSize: nat, maxFile: nat)
    requires maxFile > 0 && Usable(s)
    ensures WriteRecord(s, r, env, maxSize, maxFile).written ==
            s.written + if Takes(s, r, env, maxSize, maxFile) then [Cut(r, maxSize)] else []
  {
    AppendNothing(s.written);
    if s.open { ShiftKeepsLog(s.files, maxFile - 1, env.failing); }
  }

  /** On every run the records written are those that were taken, cut to the limit, in order. */
  lemma {:induction false} WrittenAreTaken(start: Log, rs: seq<string>, envs: seq<Env>, maxSize: nat, maxFile: nat)
    requires maxFile > 0 && |envs| == |rs| && Usable(start)
    ensures |CutAll(rs, maxSize)| == |rs|
    ensures Run(start, rs, envs, maxSize, maxFile).written ==
            start.written + Select(CutAll(rs, maxSize), Took(start, rs, envs, maxSize, maxFile))
    decreases |rs|
  {
    CutAllAt(rs, maxSize);
    if rs != [] {
      var last := |rs| - 1;
      WrittenAreTaken(start, rs[..last], envs[..last], maxSize, maxFile);
      TookPrefix(start, rs, envs, maxSize, maxFile);
      var s := Run(start, rs[..last], envs[..last], maxSize, maxFile);
      WriteTakes(s, rs[last], envs[last], maxSize, maxFile);
      Assoc(start.written, Select(CutAll(rs[..last], maxSize), Took(start, rs[..last], envs[..last], maxSize, maxFile)),
            if Takes(s, rs[last], envs[last], maxSize, maxFile) then [Cut(rs[last], maxSize)] else []);
    }
  }

  lemma TookPrefix(start: Log, rs: seq<string>, envs: seq<Env>, maxSize: nat, maxFile: nat)
    requires maxFile > 0 && |envs| == |rs| && Usable(start) && rs != []
    ensures var last := |rs| - 1;
            Took(start, rs, envs, maxSize, maxFile)[..last] == Took(start, rs[..last], envs[..last], maxSize, maxFile)
  {
    var last := |rs| - 1;
    forall i | 0 <= i < last
      ensures Took(start, rs, envs, maxSize, maxFile)[i] == Took(start, rs[..last], envs[..last], maxSize, maxFile)[i]
    {
      assert rs[..last][..i] == rs[..i] && envs[..last][..i] == envs[..i];
    }
  }

  /** A log that could not be reopened takes nothing any more, and its files stay as they are. */
  lemma {:induction false} ClosedForGood(start: Log, rs: seq<string>, envs: seq<Env>, maxSize: nat, maxFile: nat)
    requires maxFile > 0 && |envs| == |rs| && Usable(start) && !start.open
    ensures Run(start, rs, envs, maxSize, maxFile) == start
    decreases |rs|
  {
    if rs != [] { ClosedForGood(start, rs[..|rs| - 1], envs[..|rs| - 1], maxSize, maxFile); }
  }

  /** The log of a new terminal. Files left from before are kept, and an existing log is appended to. */
  function StartLog(files: map<nat, File>, opens: bool, n: nat): (s: Log)
    ensures Usable(s)
  {
    Log(if opens && 0 !in files then files[0 := []] else files, opens, History(files, n))
  }

  lemma StartIsOrdered(files: map<nat, File>, opens: bool, n: nat)
    ensures Within(files, n) ==> Ordered(StartLog(files, opens, n), n)
  {
    if Within(files, n) && opens && 0 !in files { OpenEmpty(files, n); }
  }

  // ----- the size limit depends on renaming the log

  ghost predicate Small(files: map<nat, File>, maxSize: nat) {
    forall i: nat :: Get(files, i).Some? ==> Size(Get(files, i).value) <= maxSize
  }

  lemma RenameKeepsSmall(files: map<nat, File>, from: nat, to: nat, maxSize: nat)
    requires from in files && from != to && Small(files, maxSize)
    ensures Small(Rename(files, from, to), maxSize)
  {
    var f := Rename(files, from, to);
    forall j: nat | Get(f, j).Some? ensures Size(Get(f, j).value) <= maxSize {
      assert Get(f, j) == Get(files, if j == to then from else j);
    }
  }

  lemma OpenKeepsSmall(files: map<nat, File>, maxSize: nat)
    requires Small(files, maxSize)
    ensures Small(files[0 := []], maxSize)
  {
    var reopened: map<nat, File> := files[0 := []];
    forall j: nat | Get(reopened, j).Some? ensures Size(Get(reopened, j).value) <= maxSize {
      assert j > 0 ==> Get(reopened, j) == Get(files, j);
    }
  }

  lemma {:induction false} ShiftKeepsSmall(files: map<nat, File>, i: nat, failing: set<nat>, maxSize: nat)
    requires Small(files, maxSize)
    ensures Small(Shift(files, i, failing).0, maxSize)
    decreases i
  {
    if i > 1 {
      if i - 1 !in files {
        ShiftKeepsSmall(files, i - 1, failing, maxSize);
      } else if i !in failing {
        RenameKeepsSmall(files, i - 1, i, maxSize);
        ShiftKeepsSmall(Rename(files, i - 1, i), i - 1, failing, maxSize);
      }
    }
  }

  /** The rotation gets as far as reopening a log that could not be renamed away. */
  predicate KeepsFullLog(s: Log, r: string, env: Env, maxSize: nat, maxFile: nat)
    requires maxFile > 0 && Usable(s)
  {
    && s.open && Size(s.files[0]) + |r| > maxSize && Size(s.files[0]) > 0
    && Shift(s.files, maxFile - 1, env.failing).1
    && env.logRenameFails && !env.reopenFails
  }

  /** The limit survives a write exactly when the write does not append to a log that should have
      been renamed away: the result of that one rename is not looked at. */
  lemma SizeLimitExact(s: Log, r: string, env: Env, maxSize: nat, maxFile: nat)
    requires maxFile > 0 && Usable(s) && Small(s.files, maxSize)
    ensures Small(WriteRecord(s, r, env, maxSize, maxFile).files, maxSize) <==> !KeepsFullLog(s, r, env, maxSize, maxFile)
  {
    if s.open {
      assert Get(s.files, 0).Some?;
      if Size(s.files[0]) + |r| <= maxSize {
        AppendSizes(s, r, maxSize);
      } else {
        ShiftKeepsSmall(s.files, maxFile - 1, env.failing, maxSize);
        ShiftKeepsLog(s.files, maxFile - 1, env.failing);
        var shifted := Shift(s.files, maxFile - 1, env.failing).0;
        var (d, ok) := Dump(s, env, maxFile);
        RenameKeepsSmall(shifted, 0, 1, maxSize);
        OpenKeepsSmall(Rename(shifted, 0, 1), maxSize);
        if ok { AppendSizes(d, Cut(r, maxSize), maxSize); }
      }
    }
  }

  lemma AppendSizes(s: Log, r: string, maxSize: nat)
    requires 0 in s.files && Small(s.files, maxSize)
    ensures Small(Append(s, r).files, maxSize) <==> Size(s.files[0]) + |r| <= maxSize
  {
    SizeAppend(s.files[0], r);
    var s' := Append(s, r);
    assert Get(s'.files, 0) == Some(s.files[0] + [r]);
    forall j: nat | j > 0 ensures Get(s'.files, j) == Get(s.files, j) {}
  }

  // ----- the terminal object

  class LogTerminal {
    const maxSize: nat
    const maxFile: nat
    var files: map<nat, File>
    var fdOpen: bool
    var written: seq<string>

    function Abs(): Log
      reads this
    {
      Log(files, fdOpen, written)
    }

    ghost predicate Valid()
      reads this
    {
      maxFile > 0 && Usable(Abs())
    }

    /** A terminal whose log, if there is a path for it, could be opened; files may be left from before. The
        configuration never asks for fewer than one file. */
    constructor (maxSize: nat, maxFile: nat, hasPath: bool, files: map<nat, File>)
      requires maxFile > 0
      ensures Valid() && Abs() == StartLog(files, hasPath, Kept(maxFile))
      ensures Within(files, Kept(maxFile)) ==> Ordered(Abs(), Kept(maxFile))
      ensures this.maxSize == maxSize && this.maxFile == maxFile
    {
      this.maxSize, this.maxFile := maxSize, maxFile;
      fdOpen, written := false, History(files, Kept(maxFile));
      this.files := files;
      if hasPath {
        fdOpen := true;
        if 0 !in files {
          this.files := files[0 := []];
        }
      }
      new;
      StartIsOrdered(files, hasPath, Kept(maxFile));
    }

    /** `shim_rename_old_log_file`. */
    method RenameOldLogFiles(failing: set<nat>) returns (ok: bool)
      requires maxFile > 0
      modifies this`files
      ensures (files, ok) == Shift(old(files), maxFile - 1, failing)
    {
      var i := maxFile - 1;
      while i > 1
        invariant 0 <= i < maxFile && Shift(old(files), maxFile - 1, failing) == Shift(files, i, failing)
      {
        if i - 1 in files {
          if i in failing {
            return false;
          }
          files := Rename(files, i - 1, i);
        }
        i := i - 1;
      }
      return true;
    }

    /** `shim_dump_log_file`. */
    method DumpLogFile(env: Env) returns (ok: bool)
      requires maxFile > 0 && 0 in files
      modifies this`files, this`fdOpen
      ensures (Abs(), ok) == Dump(old(Abs()), env, maxFile)
    {
      ShiftKeepsLog(files, maxFile - 1, env.failing);
      ok := RenameOldLogFiles(env.failing);
      if !ok {
        return;
      }
      if !env.logRenameFails {
        files := Rename(files, 0, 1);
      }
      if env.reopenFails {
        fdOpen := false;
        return false;
      }
      if 0 !in files {
        files := files[0 := []];
      }
    }

    /** `shim_json_data_write`, for a terminal whose log is open or not. */
    method JsonDataWrite(r: string, env: Env)
      requires Valid()
      modifies this
      ensures Valid() && Abs() == WriteRecord(old(Abs()), r, env, maxSize, maxFile)
      ensures old(Ordered(Abs(), Kept(maxFile))) ==> Ordered(Abs(), Kept(maxFile))
    {
      if Ordered(Abs(), Kept(maxFile)) { WriteKeepsOrder(Abs(), r, env, maxSize, maxFile); }
      if !fdOpen {
        return;
      }
      if |r| <= maxSize - Size(files[0]) {
        files, written := files[0 := files[0] + [r]], written + [r];
        return;
      }
      ShiftKeepsLog(files, maxFile - 1, env.failing);
      var ok := DumpLogFile(env);
      if !ok {
        return;
      }
      var cut := Cut(r, maxSize);
      files, written := files[0 := files[0] + [cut]], written + [cut];
    }
  }
  /** The set-up of a terminal: without a log path there is no log, and a log that cannot be opened ends the
      set-up. */
  method SetUp(maxSize: nat, maxFile: nat, hasPath: bool, openFails: bool, files: map<nat, File>) returns (t: LogTerminal?)
    requires maxFile > 0
    ensures t == null <==> hasPath && openFails
    ensures t != null ==> fresh(t) && t.Valid() && t.Abs() == StartLog(files, hasPath, Kept(maxFile))
    ensures t != null ==> t.maxSize == maxSize && t.maxFile == maxFile
  {
    if hasPath && openFails {
      return null;
    }
    t := new LogTerminal(maxSize, maxFile, hasPath, files);
  }
}
