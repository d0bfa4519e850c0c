/**
 `util_clean_path` of src/utils/cutils/path.c: an algorithm that rewrites a path inside a
 fixed buffer, proved against the fold of the path's pieces over a stack of names.
 */
module CleanPath {
  import opened Common
  import opened Paths

  // ----- the specification

  /** One piece under the buffer bound: a name is refused when the grown path would not leave
      room for the terminator. */
  function Advance(stack: seq<string>, p: string): Option<seq<string>> {
    var next := Step(stack, p);
    if |next| > |stack| && |Below(next)| >= PATH_MAX then None else Some(next)
  }

  function FoldBounded(stack: seq<string>, ps: seq<string>): Option<seq<string>>
    decreases |ps|
  {
    if ps == [] then Some(stack)
    else match Advance(stack, ps[0])
      case None => None
      case Some(next) => FoldBounded(next, ps[1..])
  }

  function FoldFrom(start: Option<seq<string>>, ps: seq<string>): Option<seq<string>> {
    if start.None? then None else FoldBounded(start.value, ps)
  }

  /** The cleaned path, as a function of the path and of what `getcwd` answered. */
  function Cleaned(path: string, cwd: Option<string>): Option<string> {
    if path == "" then None
    else if path[0] == '/' then Rendered(FoldBounded([], Split(path)))
    else if cwd.None? || |path| >= PATH_MAX - 1 - |cwd.value| then None
    else Rendered(FoldBounded(NamesOf(cwd.value), Split(path)))
  }

  function Rendered(stack: Option<seq<string>>): Option<string> {
    if stack.None? then None else Some(Render(stack.value))
  }

  /** What the kernel promises of the current directory. */
  predicate GoodCwd(cwd: Option<string>) { cwd.Some? ==> Canonical(cwd.value) && |cwd.value| < PATH_MAX }

  // ----- properties of the specification

  /** The bound only ever refuses: where it does not, the result is the plain fold. */
  lemma {:induction false} BoundedIsFold(stack: seq<string>, ps: seq<string>)
    ensures FoldBounded(stack, ps).Some? ==> FoldBounded(stack, ps).value == Fold(stack, ps)
    decreases |ps|
  {
    if ps != [] && Advance(stack, ps[0]).Some? {
      BoundedIsFold(Step(stack, ps[0]), ps[1..]);
    }
  }

  /** The bound refuses exactly when the stack of some prefix of the pieces is too long. */
  lemma {:induction false} RefusedExactly(stack: seq<string>, ps: seq<string>)
    requires |Below(stack)| < PATH_MAX
    ensures FoldBounded(stack, ps).None? <==>
            exists k :: 0 <= k <= |ps| && |Below(Fold(stack, ps[..k]))| >= PATH_MAX
    decreases |ps|
  {
    if ps == [] {
    } else {
      var next := Step(stack, ps[0]);
      StepGrows(stack, ps[0]);
      forall k | 1 <= k <= |ps| ensures Fold(stack, ps[..k]) == Fold(next, ps[1..][..k - 1]) {
        assert ps[..k][1..] == ps[1..][..k - 1];
      }
      if |Below(next)| >= PATH_MAX {
        assert Fold(stack, ps[..1]) == Fold(next, ps[1..][..0]) == next;
      } else {
        RefusedExactly(next, ps[1..]);
        if k' :| 0 <= k' <= |ps[1..]| && |Below(Fold(next, ps[1..][..k']))| >= PATH_MAX {
          assert Fold(stack, ps[..k' + 1]) == Fold(next, ps[1..][..k']);
        }
        if k :| 0 <= k <= |ps| && |Below(Fold(stack, ps[..k]))| >= PATH_MAX {
          assert k > 0;
          assert Fold(stack, ps[..k]) == Fold(next, ps[1..][..k - 1]);
        }
      }
    }
  }

  /** A step adds at most a slash and its piece, and nothing else makes the path longer. */
  lemma StepGrows(stack: seq<string>, p: string)
    ensures |Below(Step(stack, p))| <= |Below(stack)| + 1 + |p|
    ensures |Step(stack, p)| <= |stack| ==> |Below(Step(stack, p))| <= |Below(stack)|
  {
    if p != "" && p != "." && p != ".." {
      assert (stack + [p])[..|stack|] == stack;
    }
  }

  /** The write position never overtakes the read position, so a text that would fit is never refused. */
  lemma {:induction false} ShortIsAccepted(stack: seq<string>, s: string)
    requires |Below(stack)| + 1 + |s| < PATH_MAX
    ensures FoldBounded(stack, Split(s)).Some?
    decreases |s|
  {
    var k := FirstSlash(s);
    SplitSegment(s, k);
    StepGrows(stack, s[..k]);
    assert Split(s)[0] == s[..k];
    if k < |s| {
      assert Split(s)[1..] == Split(s[k + 1..]);
      ShortIsAccepted(Step(stack, s[..k]), s[k + 1..]);
    }
  }

  function FirstSlash(s: string): (k: nat)
    ensures k <= |s| && '/' !in s[..k] && (k < |s| ==> s[k] == '/')
  {
    if s == "" || s[0] == '/' then 0
    else
      var k := 1 + FirstSlash(s[1..]);
      assert s[..k] == [s[0]] + s[1..][..k - 1];
      k
  }

  /** A leading empty piece changes nothing. */
  lemma EmptyPiece(stack: seq<string>, ps: seq<string>)
    ensures FoldBounded(stack, [""] + ps) == FoldBounded(stack, ps)
  {
    assert ([""] + ps)[1..] == ps;
  }

  /** The text may be consumed one segment at a time, stopping before the slash that follows it. */
  lemma ConsumeSegment(stack: seq<string>, s: string, k: nat)
    requires k <= |s| && '/' !in s[..k] && (k < |s| ==> s[k] == '/')
    ensures FoldBounded(stack, Split(s)) == FoldFrom(Advance(stack, s[..k]), Split(s[k..]))
  {
    SplitSegment(s, k);
    assert Split(s)[0] == s[..k];
    if Advance(stack, s[..k]).Some? {
      var next := Step(stack, s[..k]);
      if k == |s| {
        assert s[k..] == "" && Split("") == [""] + [];
        assert Split(s)[1..] == [];
        EmptyPiece(next, []);
      } else {
        assert s[k..][1..] == s[k + 1..];
        assert Split(s)[1..] == Split(s[k + 1..]);
        EmptyPiece(next, Split(s[k + 1..]));
      }
    }
  }

  lemma ConsumeSlash(stack: seq<string>, s: string)
    requires s != "" && s[0] == '/'
    ensures FoldBounded(stack, Split(s)) == FoldBounded(stack, Split(s[1..]))
  {
    EmptyPiece(stack, Split(s[1..]));
  }

  // ----- what callers get

  /** Every cleaned path is canonical. */
  lemma CleanedIsCanonical(path: string, cwd: Option<string>)
    requires GoodCwd(cwd)
    ensures Cleaned(path, cwd).Some? ==> Canonical(Cleaned(path, cwd).value) && |Cleaned(path, cwd).value| < PATH_MAX
  {
    if Cleaned(path, cwd).Some? {
      var stack := if path[0] == '/' then [] else NamesOf(cwd.value);
      BoundedIsFold(stack, Split(path));
      FoldNames(stack, Split(path));
      RenderIsCanonical(Fold(stack, Split(path)));
      if path[0] != '/' { CanonicalRoundTrip(cwd.value); }
      BoundedIsShort(stack, Split(path));
    }
  }

  lemma {:induction false} BoundedIsShort(stack: seq<string>, ps: seq<string>)
    requires |Below(stack)| < PATH_MAX
    ensures FoldBounded(stack, ps).Some? ==> |Below(FoldBounded(stack, ps).value)| < PATH_MAX
    decreases |ps|
  {
    if ps != [] && Advance(stack, ps[0]).Some? {
      StepGrows(stack, ps[0]);
      BoundedIsShort(Step(stack, ps[0]), ps[1..]);
    }
  }

  /** Cleaning is idempotent, and fixes exactly the canonical paths that fit. */
  lemma CleanedFixesCanonical(path: string, cwd: Option<string>)
    requires GoodCwd(cwd)
    ensures Cleaned(path, cwd) == Some(path) <==> Canonical(path) && |path| < PATH_MAX
    ensures Cleaned(path, cwd).Some? ==> Cleaned(Cleaned(path, cwd).value, cwd) == Cleaned(path, cwd)
  {
    CleanedIsCanonical(path, cwd);
    if Canonical(path) && |path| < PATH_MAX { CanonicalIsFixed(path, cwd); }
    if Cleaned(path, cwd).Some? { CanonicalIsFixed(Cleaned(path, cwd).value, cwd); }
  }

  lemma CanonicalIsFixed(path: string, cwd: Option<string>)
    requires Canonical(path) && |path| < PATH_MAX
    ensures Cleaned(path, cwd) == Some(path)
  {
    assert path != "" && path[0] == '/';
    CanonicalRoundTrip(path);
    ConsumeSlash([], path);
    ShortIsAccepted([], path[1..]);
    BoundedIsFold([], Split(path));
  }

  /** No absolute path shorter than PATH_MAX is refused. */
  lemma ShortAbsoluteIsAccepted(path: string, cwd: Option<string>)
    requires path != "" && path[0] == '/' && |path| < PATH_MAX
    ensures Cleaned(path, cwd) == Some(Render(NamesOf(path)))
  {
    ConsumeSlash([], path);
    ShortIsAccepted([], path[1..]);
    BoundedIsFold([], Split(path));
  }

  /** A name followed by two dots leaves no trace: "/a/../b" is "/b". */
  lemma ParentIsCleaned(before: string, name: string, after: string, cwd: Option<string>)
    requires IsName(name) && (before == "" || before[0] == '/')
    requires |before + "/" + (name + "/" + (".." + "/" + after))| < PATH_MAX
    ensures Cleaned(before + "/" + (name + "/" + (".." + "/" + after)), cwd) == Cleaned(before + "/" + after, cwd)
  {
    var long, short := before + "/" + (name + "/" + (".." + "/" + after)), before + "/" + after;
    SplitName(name, ".." + "/" + after);
    SplitName("..", after);
    SplitConcat(before, name + "/" + (".." + "/" + after));
    SplitConcat(before, after);
    assert [name] + ([".."] + Split(after)) == [name, ".."] + Split(after);
    FoldConcat([], Split(before), [name, ".."] + Split(after));
    FoldConcat([], Split(before), Split(after));
    ParentUndoesName(Fold([], Split(before)), name, Split(after));
    ShortAbsoluteIsAccepted(long, cwd);
    ShortAbsoluteIsAccepted(short, cwd);
  }

  /** Above the root there is nothing: "/../b" is "/b". */
  lemma RootParentIsCleaned(after: string, cwd: Option<string>)
    requires |"/" + (".." + "/" + after)| < PATH_MAX
    ensures Cleaned("/" + (".." + "/" + after), cwd) == Cleaned("/" + after, cwd)
  {
    SplitName("..", after);
    LeadingSlash(".." + "/" + after);
    LeadingSlash(after);
    RootIsItsParent(Split(after));
    DotIsNothing([], [".."] + Split(after));
    DotIsNothing([], Split(after));
    ShortAbsoluteIsAccepted("/" + (".." + "/" + after), cwd);
    ShortAbsoluteIsAccepted("/" + after, cwd);
  }

  lemma LeadingSlash(s: string)
    ensures Split("/" + s) == [""] + Split(s)
  {
    assert ("/" + s)[1..] == s;
  }

  lemma SplitName(name: string, after: string)
    requires '/' !in name
    ensures Split(name + "/" + after) == [name] + Split(after)
  {
    SplitConcat(name, after);
    SplitSegment(name, |name|);
    assert name[..|name|] == name;
  }

  /** There is nothing to clean in an empty path, and nothing to start from without a current directory. */
  lemma RefusedUpFront(path: string, cwd: Option<string>)
    requires path == "" || (path[0] != '/' && cwd.None?)
    ensures Cleaned(path, cwd).None?
  {
  }

  lemma ShortFolds(stack: seq<string>, s: string)
    requires |Below(stack)| + 1 + |s| < PATH_MAX
    ensures FoldBounded(stack, Split(s)) == Some(Fold(stack, Split(s)))
  {
    ShortIsAccepted(stack, s);
    BoundedIsFold(stack, Split(s));
  }

  lemma CwdIsShort(cwd: string)
    requires Canonical(cwd)
    ensures |Below(NamesOf(cwd))| <= |cwd|
  {
    CanonicalRoundTrip(cwd);
  }

  /** A relative path is refused exactly up front, by the length test: the bound never strikes later. */
  lemma RelativeIsAccepted(path: string, cwd: string)
    requires Canonical(cwd) && path != "" && path[0] != '/'
    ensures Cleaned(path, Some(cwd)) ==
            if |cwd| + |path| < 4095 then Some(Render(Fold(NamesOf(cwd), Split(path)))) else None
  {
    if |cwd| + |path| < 4095 {
      CwdIsShort(cwd);
      ShortFolds(NamesOf(cwd), path);
    }
  }

  // ----- the algorithm

  /** The bytes written so far spell the stack, perhaps followed by one slash. */
  ghost predicate Spells(t: string, stack: seq<string>) {
    t == Below(stack) + "/" || (stack != [] && t == Below(stack))
  }

  /** `do_clean_path_continue`: handles a "." or ".." segment and says whether it did. */
  method CleanContinue(path: string, st: nat, end: nat, res: array<char>, dst: nat, ghost stack: seq<string>)
    returns (handled: bool, dest: nat)
    requires st < end <= |path| && 0 < dst <= res.Length
    requires Names(stack) && Spells(res[..dst], stack)
    ensures handled <==> path[st..end] == "." || path[st..end] == ".."
    ensures dest <= dst && 0 < dest && (!handled ==> dest == dst)
    ensures handled ==> Spells(res[..dest], Step(stack, path[st..end]))
  {
    dest := dst;
    if end - st == 1 && path[st] == '.' {
      assert path[st..end] == ".";
      return true, dest;
    } else if end - st == 2 && path[st] == '.' && path[st + 1] == '.' {
      assert path[st..end] == "..";
      assert res[..][0..dst] == res[..dst];
      dest := ScanBack(res[..], dst, 0, stack);
      assert res[..][0..dest] == res[..dest];
      return true, dest;
    }
    return false, dest;
  }

  /** The backward scan over the last name, which stops just after the slash before it and never
      goes below the slash at position `base`. */
  method ScanBack(res: string, dst: nat, base: nat, ghost stack: seq<string>) returns (dest: nat)
    requires base < dst <= |res| && Names(stack)
    requires Spells(res[base..dst], stack)
    ensures base < dest <= dst && res[dest - 1] == '/'
    ensures Spells(res[base..dest], Pop(stack))
  {
    dest := dst;
    if dest <= base + 1 {
      if stack != [] { NonemptyBelow(stack); }
      assert res[base] == res[base..dst][0];
      return;
    }
    assert stack != [];
    ghost var last := |stack| - 1;
    ghost var keep := base + |Below(stack[..last])| + 1;
    LastName(res[base..dst], stack);
    assert forall i :: keep <= i < keep + |stack[last]| ==> res[i] == res[base..dst][i - base];
    assert res[keep - 1] == res[base..dst][keep - base - 1];
    dest := dest - 1;
    while dest > 0 && res[dest - 1] != '/'
      invariant keep <= dest <= keep + |stack[last]| && dest < dst
    {
      dest := dest - 1;
    }
    assert dest == keep;
    SliceOfSlice(res, base, dst, keep);
  }

  lemma SliceOfSlice(s: string, a: nat, b: nat, k: nat)
    requires a <= k <= b <= |s|
    ensures s[a..b][..k - a] == s[a..k]
  {
  }

  /** Where the last name of a spelled stack sits. */
  lemma LastName(t: string, stack: seq<string>)
    requires Names(stack) && stack != [] && Spells(t, stack)
    ensures var last := |stack| - 1; var keep := |Below(stack[..last])| + 1;
      && keep + |stack[last]| <= |t| <= keep + |stack[last]| + 1
      && |stack[last]| > 0 && t[..keep] == Below(stack[..last]) + "/"
      && (forall i :: keep <= i < keep + |stack[last]| ==> t[i] != '/')
      && (t[|t| - 1] == '/' <==> t == Below(stack) + "/")
  {
    var last := |stack| - 1;
    var keep := |Below(stack[..last])| + 1;
    assert IsName(stack[last]);
    var head := Below(stack[..last]) + "/";
    NameBehind(t, head, stack[last]);
  }

  lemma NameBehind(t: string, head: string, name: string)
    requires '/' !in name && name != "" && (t == head + name || t == head + name + "/")
    ensures t[..|head|] == head && (forall i :: |head| <= i < |head| + |name| ==> t[i] != '/')
    ensures t[|t| - 1] == '/' <==> t == head + name + "/"
  {
    forall i | |head| <= i < |head| + |name| ensures t[i] != '/' { assert t[i] == name[i - |head|]; }
  }

  lemma NonemptyBelow(stack: seq<string>)
    requires Names(stack) && stack != []
    ensures |Below(stack)| >= 2
  {
    assert IsName(stack[|stack| - 1]);
  }

  /** `do_clean_path`. */
  method DoCleanPath(res: array<char>, path: string, dst: nat, ghost start: seq<string>)
    returns (ok: bool, dest: nat, ghost stack: seq<string>)
    requires res.Length >= PATH_MAX && 0 < dst < PATH_MAX
    requires Names(start) && Spells(res[..dst], start)
    modifies res
    ensures ok <==> FoldBounded(start, Split(path)).Some?
    ensures ok ==> stack == FoldBounded(start, Split(path)).value && Names(stack)
    ensures ok ==> 0 < dest < PATH_MAX && Spells(res[..dest], stack)
    ensures forall i :: PATH_MAX <= i < res.Length ==> res[i] == old(res[i])
  {
    ok, dest, stack := true, dst, start;
    var st := 0;
    assert path[0..] == path;
    while st < |path|
      invariant 0 <= st <= |path| && 0 < dest < PATH_MAX
      invariant Names(stack) && Spells(res[..dest], stack)
      invariant FoldBounded(start, Split(path)) == FoldBounded(stack, Split(path[st..]))
      invariant forall i :: PATH_MAX <= i < res.Length ==> res[i] == old(res[i])
    {
      var from := st;
      st := SkipSlashes(path, st);
      ConsumeSlashes(stack, path, from, st);
      var end := SegmentEnd(path, st);
      if end - st == 0 {
        break;
      }
      ConsumeSegmentAt(stack, path, st, end);
      ok, dest, stack := CleanSegment(path, st, end, res, dest, stack);
      if !ok {
        return;
      }
      st := end;
    }
    assert path[st..] == "" && FoldBounded(stack, [""]) == FoldBounded(stack, [""][1..]) == Some(stack);
  }

  /** The part of the loop body after the segment has been delimited. */
  method CleanSegment(path: string, st: nat, end: nat, res: array<char>, dst: nat, ghost stack: seq<string>)
    returns (ok: bool, dest: nat, ghost next: seq<string>)
    requires st < end <= |path| && '/' !in path[st..end]
    requires res.Length >= PATH_MAX && 0 < dst < PATH_MAX
    requires Names(stack) && Spells(res[..dst], stack)
    modifies res
    ensures ok <==> Advance(stack, path[st..end]) == Some(next)
    ensures !ok ==> Advance(stack, path[st..end]).None?
    ensures ok ==> 0 < dest < PATH_MAX && Names(next) && Spells(res[..dest], next)
    ensures forall i :: PATH_MAX <= i < res.Length ==> res[i] == old(res[i])
  {
    ghost var seg := path[st..end];
    next := Step(stack, seg);
    var handled;
    handled, dest := CleanContinue(path, st, end, res, dst, stack);
    if handled {
      return true, dest, next;
    }
    ok, dest := AppendSegment(path, st, end, res, dest, stack);
  }

  lemma ConsumeSegmentAt(stack: seq<string>, path: string, st: nat, end: nat)
    requires st <= end <= |path| && '/' !in path[st..end] && (end < |path| ==> path[end] == '/')
    ensures FoldBounded(stack, Split(path[st..])) == FoldFrom(Advance(stack, path[st..end]), Split(path[end..]))
  {
    var rest := path[st..];
    assert rest[..end - st] == path[st..end];
    assert rest[end - st..] == path[end..];
    ConsumeSegment(stack, rest, end - st);
  }

  /** Leaves the read position on the next character that is not a slash. */
  method SkipSlashes(path: string, from: nat) returns (st: nat)
    requires from <= |path|
    ensures from <= st <= |path| && (st < |path| ==> path[st] != '/')
    ensures forall i :: from <= i < st ==> path[i] == '/'
  {
    st := from;
    while st < |path| && path[st] == '/'
      invariant from <= st <= |path|
      invariant forall i :: from <= i < st ==> path[i] == '/'
    {
      st := st + 1;
    }
  }

  lemma {:induction false} ConsumeSlashes(stack: seq<string>, path: string, from: nat, to: nat)
    requires from <= to <= |path| && forall i :: from <= i < to ==> path[i] == '/'
    ensures FoldBounded(stack, Split(path[from..])) == FoldBounded(stack, Split(path[to..]))
    decreases |path| - from
  {
    if from < to {
      ConsumeSlash(stack, path[from..]);
      assert path[from..][1..] == path[from + 1..];
      ConsumeSlashes(stack, path, from + 1, to);
    }
  }

  method SegmentEnd(path: string, st: nat) returns (end: nat)
    requires st <= |path|
    ensures st <= end <= |path| && '/' !in path[st..end] && (end < |path| ==> path[end] == '/')
  {
    end := st;
    while end < |path| && path[end] != '/'
      invariant st <= end <= |path| && '/' !in path[st..end]
    {
      end := end + 1;
    }
  }

  /** `memcpy` into the buffer: the bytes before `at` and after the copy stay. */
  method CopyInto(res: array<char>, at: nat, src: string)
    requires at + |src| <= res.Length
    modifies res
    ensures res[..at + |src|] == old(res[..at]) + src
    ensures forall i :: at + |src| <= i < res.Length ==> res[i] == old(res[i])
  {
    forall i | 0 <= i < |src| { res[at + i] := src[i]; }
  }

  /** Adds a slash unless the text ends in one. */
  method EndWithSlash(res: array<char>, dst: nat, ghost stack: seq<string>) returns (dest: nat)
    requires res.Length >= PATH_MAX && 0 < dst < PATH_MAX && Names(stack) && Spells(res[..dst], stack)
    modifies res
    ensures 0 < dest <= PATH_MAX && res[..dest] == Below(stack) + "/"
    ensures forall i :: PATH_MAX <= i < res.Length ==> res[i] == old(res[i])
  {
    dest := dst;
    if stack != [] { LastName(res[..dst], stack); }
    if res[dest - 1] != '/' {
      CopyInto(res, dest, "/");
      dest := dest + 1;
    }
  }

  /** The rest of the loop body: slash if needed, length test, copy, terminate. */
  method AppendSegment(path: string, st: nat, end: nat, res: array<char>, dst: nat, ghost stack: seq<string>)
    returns (ok: bool, dest: nat)
    requires st < end <= |path| && res.Length >= PATH_MAX && 0 < dst < PATH_MAX
    requires Names(stack) && Spells(res[..dst], stack)
    modifies res
    ensures ok <==> |Below(stack + [path[st..end]])| < PATH_MAX
    ensures ok ==> 0 < dest < PATH_MAX && res[..dest] == Below(stack + [path[st..end]])
    ensures forall i :: PATH_MAX <= i < res.Length ==> res[i] == old(res[i])
  {
    dest := EndWithSlash(res, dst, stack);
    ghost var grown := stack + [path[st..end]];
    assert Below(grown) == Below(stack) + "/" + path[st..end] by { assert grown[..|stack|] == stack; }
    if dest + (end - st) >= PATH_MAX {
      if dest > 1 {
        dest := dest - 1;
      }
      CopyInto(res, dest, "\0");
      return false, dest;
    }
    CopyInto(res, dest, path[st..end]);
    dest := dest + (end - st);
    assert res[..dest] == Below(grown);
    CopyInto(res, dest, "\0");
    assert res[..dest] == res[..dest + 1][..dest];
    ok := true;
  }

  lemma CwdSpells(d: string)
    requires Canonical(d)
    ensures d != "" && Names(NamesOf(d)) && Spells(d, NamesOf(d))
  {
    CanonicalRoundTrip(d);
  }

  /** A relative path starts from the current directory, with the path appended behind it;
      it is refused when the two together are too long. */
  method StartFromCwd(p: string, res: array<char>, d: string) returns (ok: bool)
    requires Canonical(d) && |d| < PATH_MAX <= res.Length
    modifies res
    ensures ok <==> |p| < PATH_MAX - 1 - |d|
    ensures ok ==> res[..|d|] == d
    ensures forall i :: PATH_MAX <= i < res.Length ==> res[i] == old(res[i])
  {
    CopyInto(res, 0, d);
    if |p| >= PATH_MAX - 1 - |d| {
      return false;
    }
    CopyInto(res, |d|, p);
    assert res[..|d|] == res[..|d| + |p|][..|d|];
    return true;
  }

  /** Drops a trailing slash, except the root's own, and terminates the string. */
  method Finish(res: array<char>, dst: nat, ghost stack: seq<string>) returns (r: string)
    requires 0 < dst < PATH_MAX <= res.Length && Names(stack) && Spells(res[..dst], stack)
    modifies res
    ensures r == Render(stack) && |r| < PATH_MAX && res[..|r|] == r && res[|r|] == '\0'
    ensures forall i :: PATH_MAX <= i < res.Length ==> res[i] == old(res[i])
  {
    var dest := dst;
    if stack != [] { LastName(res[..dest], stack); NonemptyBelow(stack); }
    if dest > 1 && res[dest - 1] == '/' {
      dest := dest - 1;
    }
    assert res[..dest] == Render(stack);
    CopyInto(res, dest, "\0");
    assert res[..dest + 1][..dest] == res[..dest] && res[..dest + 1][dest] == res[dest];
    r := res[..dest];
  }

  /** `util_clean_path`. The caller's buffer may be missing; `cwd` is what `getcwd` answers. */
  method UtilCleanPath(path: Option<string>, res: array?<char>, cwd: Option<string>) returns (r: Option<string>)
    requires GoodCwd(cwd)
    modifies if res == null then {} else {res}
    ensures path.None? || res == null || res.Length < PATH_MAX ==> r.None?
    ensures path.Some? && res != null && res.Length >= PATH_MAX ==> r == Cleaned(path.value, cwd)
    ensures r.Some? ==> |r.value| < PATH_MAX && res[..|r.value|] == r.value && res[|r.value|] == '\0'
    // beyond PATH_MAX the buffer only ever sees the initial zeroing
    ensures path.Some? && path.value != "" && res != null && res.Length >= PATH_MAX ==>
              forall i :: PATH_MAX <= i < res.Length ==> res[i] == '\0'
  {
    if path.None? || path.value == "" || res == null || res.Length < PATH_MAX {
      return None;
    }
    r := CleanInto(path.value, res, cwd);
  }

  method CleanInto(p: string, res: array<char>, cwd: Option<string>) returns (r: Option<string>)
    requires GoodCwd(cwd) && p != "" && res.Length >= PATH_MAX
    modifies res
    ensures r == Cleaned(p, cwd)
    ensures r.Some? ==> |r.value| < PATH_MAX && res[..|r.value|] == r.value && res[|r.value|] == '\0'
    ensures forall i :: PATH_MAX <= i < res.Length ==> res[i] == '\0'
  {
    forall i | 0 <= i < res.Length { res[i] := '\0'; }
    var ok, dest := true, 1;
    ghost var stack := [];
    if p[0] != '/' {
      if cwd.None? {
        return None;
      }
      ok := StartFromCwd(p, res, cwd.value);
      if !ok {
        return None;
      }
      dest, stack := |cwd.value|, NamesOf(cwd.value);
      CwdSpells(cwd.value);
    } else {
      CopyInto(res, 0, "/");
      assert res[..1] == Below([]) + "/";
    }
    ok, dest, stack := DoCleanPath(res, p, dest, stack);
    if !ok {
      return None;
    }
    var s := Finish(res, dest, stack);
    return Some(s);
  }
}
