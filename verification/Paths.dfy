/**
 Slash-separated paths, their pieces, and the stack of names a path denotes.

 A C string is modelled by the characters before its terminator; reading the terminator
 is modelled by an index equal to the length.
 */
module Paths {
  import opened Common

  const PATH_MAX := 4096

  // ----- text and pieces

  /** The pieces between slashes, empty ones included: "/a//b" has the pieces "", "a", "", "b". */
  function Split(s: string): (r: seq<string>)
    ensures r != []
    ensures forall i :: 0 <= i < |r| ==> '/' !in r[i]
  {
    if s == "" then [""]
    else
      var r := Split(s[1..]);
      if s[0] == '/' then [""] + r else [[s[0]] + r[0]] + r[1..]
  }

  /** The inverse of Split. */
  function Join(ps: seq<string>): string
    requires ps != []
  {
    if |ps| == 1 then ps[0] else ps[0] + "/" + Join(ps[1..])
  }

  lemma {:induction false} JoinSplit(s: string)
    ensures Join(Split(s)) == s
  {
    if s != "" {
      JoinSplit(s[1..]);
      var r := Split(s[1..]);
      if s[0] != '/' && |r| > 1 {
        var h := [s[0]] + r[0];
        assert ([h] + r[1..])[1..] == r[1..];
        assert h + "/" + Join(r[1..]) == [s[0]] + (r[0] + "/" + Join(r[1..]));
      }
    }
  }

  /** A piece followed by the end or by a slash is split off whole. */
  lemma {:induction false} SplitSegment(s: string, k: nat)
    requires k <= |s| && '/' !in s[..k] && (k < |s| ==> s[k] == '/')
    ensures Split(s) == [s[..k]] + (if k == |s| then [] else Split(s[k + 1..]))
  {
    if k > 0 {
      SplitSegment(s[1..], k - 1);
      assert s[..k][0] == s[0];
      assert s[1..][..k - 1] == s[..k][1..];
      assert s[..k] == [s[0]] + s[1..][..k - 1];
      if k < |s| { assert s[1..][k..] == s[k + 1..]; }
    }
  }

  lemma {:induction false} SplitJoin(ps: seq<string>)
    requires ps != [] && forall i :: 0 <= i < |ps| ==> '/' !in ps[i]
    ensures Split(Join(ps)) == ps
  {
    var s := Join(ps);
    SplitSegment(s, |ps[0]|) by { assert s[..|ps[0]|] == ps[0]; }
    assert s[..|ps[0]|] == ps[0];
    if |ps| > 1 {
      assert s[|ps[0]| + 1..] == Join(ps[1..]);
      SplitJoin(ps[1..]);
    }
  }

  lemma PrependSplit(c: char, ps: seq<string>, qs: seq<string>)
    requires ps != []
    ensures [[c] + (ps + qs)[0]] + (ps + qs)[1..] == [[c] + ps[0]] + ps[1..] + qs
  {
    assert (ps + qs)[1..] == ps[1..] + qs;
  }

  /** Splitting distributes over a text that continues with a slash. */
  lemma {:induction false} SplitConcat(a: string, b: string)
    ensures Split(a + "/" + b) == Split(a) + Split(b)
  {
    var s := a + "/" + b;
    if a == "" {
      assert s[1..] == b;
    } else {
      SplitConcat(a[1..], b);
      assert s[0] == a[0] && s[1..] == a[1..] + "/" + b;
      if a[0] == '/' {
        Assoc([""], Split(a[1..]), Split(b));
      } else {
        PrependSplit(a[0], Split(a[1..]), Split(b));
      }
    }
  }

  // ----- stacks of names

  /** What one piece does to the stack of names: nothing for an empty piece or a dot, a pop
      clamped at the root for two dots, a push otherwise. */
  function Step(stack: seq<string>, p: string): seq<string> {
    if p == "" || p == "." then stack
    else if p == ".." then Pop(stack)
    else stack + [p]
  }

  function Pop(stack: seq<string>): seq<string> { if stack == [] then [] else stack[..|stack| - 1] }

  function Fold(stack: seq<string>, ps: seq<string>): seq<string>
    decreases |ps|
  {
    if ps == [] then stack else Fold(Step(stack, ps[0]), ps[1..])
  }

  predicate IsName(p: string) { p != "" && p != "." && p != ".." && '/' !in p }

  predicate Names(stack: seq<string>) { forall i :: 0 <= i < |stack| ==> IsName(stack[i]) }

  /** The text of a stack below some directory: empty, or a slash before every name. */
  function Below(stack: seq<string>): string {
    if stack == [] then "" else Below(stack[..|stack| - 1]) + "/" + stack[|stack| - 1]
  }

  function Render(stack: seq<string>): string { if stack == [] then "/" else Below(stack) }

  /** Leading slash, no empty, "." or ".." piece, no trailing slash except for the root itself. */
  predicate Canonical(s: string) {
    s == "/" || (var ps := Split(s); |ps| > 1 && ps[0] == "" && Names(ps[1..]))
  }

  lemma {:induction false} BelowAppend(a: seq<string>, b: seq<string>)
    ensures Below(a + b) == Below(a) + Below(b)
  {
    if b == [] {
      assert a + b == a;
    } else {
      var last := |b| - 1;
      BelowAppend(a, b[..last]);
      assert (a + b)[..|a + b| - 1] == a + b[..last];
      calc {
        Below(a + b);
        Below(a + b[..last]) + "/" + b[last];
        Below(a) + Below(b[..last]) + "/" + b[last];
        Below(a) + (Below(b[..last]) + "/" + b[last]);
      }
    }
  }

  lemma {:induction false} SplitBelow(stack: seq<string>)
    requires Names(stack)
    ensures Split(Below(stack)) == [""] + stack
  {
    if stack != [] {
      var last := |stack| - 1;
      SplitBelow(stack[..last]);
      SplitConcat(Below(stack[..last]), stack[last]);
      SplitSegment(stack[last], |stack[last]|) by { assert IsName(stack[last]); }
      assert stack[last][..|stack[last]|] == stack[last];
      assert Split(stack[last]) == [stack[last]];
      assert stack == stack[..last] + [stack[last]];
    }
  }

  /** A stack of names renders to a canonical path. */
  lemma RenderIsCanonical(stack: seq<string>)
    requires Names(stack)
    ensures Canonical(Render(stack))
  {
    SplitBelow(stack);
  }

  lemma {:induction false} FoldNames(stack: seq<string>, ps: seq<string>)
    requires Names(stack) && forall i :: 0 <= i < |ps| ==> '/' !in ps[i]
    ensures Names(Fold(stack, ps))
    decreases |ps|
  {
    if ps != [] { FoldNames(Step(stack, ps[0]), ps[1..]); }
  }

  /** Folding names only pushes. */
  lemma {:induction false} FoldOfNames(stack: seq<string>, names: seq<string>)
    requires Names(names)
    ensures Fold(stack, names) == stack + names
    decreases |names|
  {
    if names != [] {
      assert IsName(names[0]);
      FoldOfNames(stack + [names[0]], names[1..]);
      assert stack + [names[0]] + names[1..] == stack + names;
    } else {
      assert stack + names == stack;
    }
  }

  /** Reading on: the fold of a path continues from the stack its beginning leaves. */
  lemma {:induction false} FoldConcat(stack: seq<string>, ps: seq<string>, qs: seq<string>)
    ensures Fold(stack, ps + qs) == Fold(Fold(stack, ps), qs)
    decreases |ps|
  {
    if ps == [] {
      PrependNothing(qs);
    } else {
      assert (ps + qs)[1..] == ps[1..] + qs;
      FoldConcat(Step(stack, ps[0]), ps[1..], qs);
    }
  }

  /** Two dots undo the name before them. */
  lemma ParentUndoesName(stack: seq<string>, name: string, ps: seq<string>)
    requires IsName(name)
    ensures Fold(stack, [name, ".."] + ps) == Fold(stack, ps)
  {
    assert ([name, ".."] + ps)[1..] == [".."] + ps && ([".."] + ps)[1..] == ps;
    assert stack + [name] != [] && (stack + [name])[..|stack|] == stack;
    assert Fold(stack, [name, ".."] + ps) == Fold(stack + [name], [".."] + ps) == Fold(stack, ps);
  }

  /** The root is its own parent. */
  lemma RootIsItsParent(ps: seq<string>)
    ensures Fold([], [".."] + ps) == Fold([], ps)
  {
    assert ([".."] + ps)[1..] == ps;
  }

  /** Empty pieces and single dots are nothing. */
  lemma DotIsNothing(stack: seq<string>, ps: seq<string>)
    ensures Fold(stack, [""] + ps) == Fold(stack, ps) && Fold(stack, ["."] + ps) == Fold(stack, ps)
  {
    assert ([""] + ps)[1..] == ps && (["."] + ps)[1..] == ps;
  }

  /** The names of a path read from the root. */
  function NamesOf(s: string): (r: seq<string>)
    ensures Names(r)
  {
    FoldNames([], Split(s));
    Fold([], Split(s))
  }

  /** Stacks of names and canonical paths are the same thing: rendering has NamesOf as inverse. */
  lemma RenderRoundTrip(stack: seq<string>)
    requires Names(stack)
    ensures NamesOf(Render(stack)) == stack
  {
    if stack == [] {
      assert Split("/") == [""] + Split("/"[1..]);
      assert Fold([], ["", ""]) == Fold([], [""]) == [];
    } else {
      SplitBelow(stack);
      assert ([""] + stack)[1..] == stack;
      FoldOfNames([], stack);
    }
  }

  lemma CanonicalRoundTrip(s: string)
    requires Canonical(s)
    ensures Render(NamesOf(s)) == s
  {
    if s == "/" {
      RenderRoundTrip([]);
    } else {
      var ps := Split(s);
      FoldOfNames([], ps[1..]);
      assert NamesOf(s) == ps[1..];
      SplitBelow(ps[1..]);
      assert [""] + ps[1..] == ps;
      JoinSplit(s);
      JoinSplit(Below(ps[1..]));
    }
  }
}
