/**
 `util_follow_symlink_in_scope` of src/utils/cutils/path.c: a path is rewritten against an
 arbitrary file system so that no symbolic link leads out of a root directory. The walk over
 texts and positions is proved against a resolver over lists of names.
 */
module SymlinkScope {
  import opened Common
  import opened Paths
  import opened CleanPath

  const MAXSYMLINKS := 20

  /** What `lstat` and `readlink` say of a path. */
  datatype Node = Plain | Link(target: string) | BrokenLink

  type FileSystem = string -> Node

  /** What the walk learns of a path: `lstat` fails on a path that is too long, and a failed `lstat`
      counts as no link. */
  function Lookup(fs: FileSystem, p: string): Node { if |p| < PATH_MAX then fs(p) else Plain }

  datatype Outcome = Resolved(stack: seq<string>) | TooManyLinks | ReadFailed | TooLong

  // ----- the reference resolver

  /** `readlink` into a buffer of PATH_MAX - 1 characters. */
  function Truncated(target: string): string {
    if |target| < PATH_MAX then target else target[..PATH_MAX - 1]
  }

  predicate IsAbsolute(s: string) { s != "" && s[0] == '/' }

  /** The text that follows a piece: nothing, or a slash and the remaining pieces. */
  function Remaining(ps: seq<string>): string { if ps == [] then "" else "/" + Join(ps) }

  predicate IsDots(p: string) { p == "" || p == "." || p == ".." }

  /** What is found at a segment below `root + stack`; dots are not looked up. */
  function Visited(fs: FileSystem, root: seq<string>, stack: seq<string>, seg: string): Node {
    if IsDots(seg) then Plain else Lookup(fs, Below(root + stack + [seg]))
  }

  datatype Move = Stop(outcome: Outcome) | Go(stack: seq<string>, ps: seq<string>, links: nat)

  /** What the first of the pieces does, below `root + stack` and after some links. An absolute link
      restarts at the root, a relative one continues where the link was found, and two dots stop at
      the root. */
  function FirstMove(fs: FileSystem, root: seq<string>, stack: seq<string>, ps: seq<string>, links: nat): (m: Move)
    requires links <= MAXSYMLINKS && ps != []
    ensures m.Go? ==> links <= m.links <= MAXSYMLINKS && (m.links == links ==> m.ps == ps[1..])
    ensures m.Stop? ==> !m.outcome.Resolved?
  {
    match Visited(fs, root, stack, ps[0])
    case Plain => Go(Step(stack, ps[0]), ps[1..], links)
    case Link(target) =>
      var t := Truncated(target);
      if links == MAXSYMLINKS then Stop(TooManyLinks)
      else if |t| + |Remaining(ps[1..])| >= PATH_MAX then Stop(TooLong)
      else Go(if IsAbsolute(t) then [] else stack, Split(t) + ps[1..], links + 1)
    case BrokenLink => Stop(if links == MAXSYMLINKS then TooManyLinks else ReadFailed)
  }

  /** Resolves the pieces `ps` below `root + stack`. */
  function Resolve(fs: FileSystem, root: seq<string>, stack: seq<string>, ps: seq<string>, links: nat): Outcome
    requires links <= MAXSYMLINKS
    decreases MAXSYMLINKS - links, |ps|
  {
    if ps == [] then Resolved(stack)
    else
      match FirstMove(fs, root, stack, ps, links)
      case Stop(outcome) => outcome
      case Go(stack', ps', links') => Resolve(fs, root, stack', ps', links')
  }

  /** How many characters the resolver moves over: a piece and the slash behind it, or the name of a
      link, whose target then has to be walked. */
  function Consumed(fs: FileSystem, root: seq<string>, stack: seq<string>, ps: seq<string>, links: nat): nat
    requires links <= MAXSYMLINKS
    decreases MAXSYMLINKS - links, |ps|
  {
    if ps == [] then 0
    else
      match FirstMove(fs, root, stack, ps, links)
      case Stop(_) => |ps[0]|
      case Go(stack', ps', links') => |ps[0]| + Slash(links' == links, ps') + Consumed(fs, root, stack', ps', links')
  }

  function Slash(goesOn: bool, ps: seq<string>): nat { if goesOn && ps != [] then 1 else 0 }

  /** The work is bounded by the text and the texts of as many links as may be followed. */
  lemma {:induction false} ConsumedIsBounded(fs: FileSystem, root: seq<string>, stack: seq<string>, ps: seq<string>, links: nat)
    requires links <= MAXSYMLINKS && ps != [] && Slashless(ps)
    ensures Consumed(fs, root, stack, ps, links) <= |Join(ps)| + (MAXSYMLINKS - links) * PATH_MAX
    decreases MAXSYMLINKS - links, |ps|
  {
    var m := FirstMove(fs, root, stack, ps, links);
    if m.Go? && m.ps != [] {
      MoveIsShort(fs, root, stack, ps, links);
      ConsumedIsBounded(fs, root, m.stack, m.ps, m.links);
    }
  }

  lemma MoveIsShort(fs: FileSystem, root: seq<string>, stack: seq<string>, ps: seq<string>, links: nat)
    requires links <= MAXSYMLINKS && ps != [] && Slashless(ps)
    ensures var m := FirstMove(fs, root, stack, ps, links);
            m.Go? ==> Slashless(m.ps) && (m.links > links ==> m.links == links + 1 && m.ps != [] && |Join(m.ps)| < PATH_MAX)
  {
    var node := Visited(fs, root, stack, ps[0]);
    if node.Link? {
      var t := Truncated(node.target);
      SpliceSplits(t, ps[1..]);
      JoinSplit(t + Remaining(ps[1..]));
    }
  }

  // ----- properties of the reference resolver

  predicate Slashless(ps: seq<string>) { forall i :: 0 <= i < |ps| ==> '/' !in ps[i] }

  lemma {:induction false} ResolvedNames(fs: FileSystem, root: seq<string>, stack: seq<string>, ps: seq<string>, links: nat)
    requires links <= MAXSYMLINKS && Names(stack) && Slashless(ps)
    ensures var r := Resolve(fs, root, stack, ps, links); r.Resolved? ==> Names(r.stack)
    decreases MAXSYMLINKS - links, |ps|
  {
    if ps != [] {
      var m := FirstMove(fs, root, stack, ps, links);
      if m.Go? { ResolvedNames(fs, root, m.stack, m.ps, m.links); }
    }
  }

  /** Two file systems agree below the root. */
  ghost predicate AgreeBelow(fs: FileSystem, fs': FileSystem, root: seq<string>) {
    forall stack :: AgreeOn(fs, fs', root, stack)
  }

  ghost predicate AgreeOn(fs: FileSystem, fs': FileSystem, root: seq<string>, stack: seq<string>) {
    Names(stack) && stack != [] ==> fs(Below(root + stack)) == fs'(Below(root + stack))
  }

  lemma AgreeAt(fs: FileSystem, fs': FileSystem, root: seq<string>, stack: seq<string>, p: string)
    requires AgreeBelow(fs, fs', root) && Names(stack) && '/' !in p
    ensures Visited(fs, root, stack, p) == Visited(fs', root, stack, p)
  {
    if !IsDots(p) {
      Assoc(root, stack, [p]);
      assert Names(stack + [p]) && AgreeOn(fs, fs', root, stack + [p]);
    }
  }

  /** Confinement of every step: the walk looks only at paths strictly below the root, so nothing
      outside can influence it. */
  lemma {:induction false} LooksOnlyBelowRoot(
    fs: FileSystem, fs': FileSystem, root: seq<string>, stack: seq<string>, ps: seq<string>, links: nat)
    requires links <= MAXSYMLINKS && Names(stack) && Slashless(ps) && AgreeBelow(fs, fs', root)
    ensures Resolve(fs, root, stack, ps, links) == Resolve(fs', root, stack, ps, links)
    decreases MAXSYMLINKS - links, |ps|
  {
    if ps != [] {
      AgreeAt(fs, fs', root, stack, ps[0]);
      var m := FirstMove(fs, root, stack, ps, links);
      if m.Go? { LooksOnlyBelowRoot(fs, fs', root, m.stack, m.ps, m.links); }
    }
  }

  /** No directory on the way from the root to `stack`, nor `stack` itself, is a link. */
  ghost predicate LinkFree(fs: FileSystem, root: seq<string>, stack: seq<string>) {
    forall k :: 0 < k <= |stack| ==> Lookup(fs, Below(root + stack[..k])).Plain?
  }

  lemma LinkFreePush(fs: FileSystem, root: seq<string>, stack: seq<string>, p: string)
    requires LinkFree(fs, root, stack) && Lookup(fs, Below(root + stack + [p])).Plain?
    ensures LinkFree(fs, root, stack + [p])
  {
    var next := stack + [p];
    forall k | 0 < k <= |next| ensures Lookup(fs, Below(root + next[..k])).Plain? {
      if k <= |stack| { assert next[..k] == stack[..k]; } else { assert root + next[..k] == root + stack + [p]; }
    }
  }

  lemma LinkFreePop(fs: FileSystem, root: seq<string>, stack: seq<string>)
    requires LinkFree(fs, root, stack)
    ensures LinkFree(fs, root, Pop(stack))
  {
    forall k | 0 < k <= |Pop(stack)| ensures Lookup(fs, Below(root + Pop(stack)[..k])).Plain? {
      assert Pop(stack)[..k] == stack[..k];
    }
  }

  lemma MoveIsLinkFree(fs: FileSystem, root: seq<string>, stack: seq<string>, ps: seq<string>, links: nat)
    requires links <= MAXSYMLINKS && ps != [] && LinkFree(fs, root, stack)
    ensures var m := FirstMove(fs, root, stack, ps, links); m.Go? ==> LinkFree(fs, root, m.stack)
  {
    if IsDots(ps[0]) {
      LinkFreePop(fs, root, stack);
    } else if Visited(fs, root, stack, ps[0]).Plain? {
      LinkFreePush(fs, root, stack, ps[0]);
    }
  }

  /** A resolved path has no link left anywhere below the root. */
  lemma {:induction false} ResolvedIsLinkFree(fs: FileSystem, root: seq<string>, stack: seq<string>, ps: seq<string>, links: nat)
    requires links <= MAXSYMLINKS && LinkFree(fs, root, stack)
    ensures var r := Resolve(fs, root, stack, ps, links); r.Resolved? ==> LinkFree(fs, root, r.stack)
    decreases MAXSYMLINKS - links, |ps|
  {
    if ps != [] {
      MoveIsLinkFree(fs, root, stack, ps, links);
      var m := FirstMove(fs, root, stack, ps, links);
      if m.Go? { ResolvedIsLinkFree(fs, root, m.stack, m.ps, m.links); }
    }
  }

  /** Where there is no link, resolving is cleaning. */
  lemma {:induction false} LinkFreeResolves(fs: FileSystem, root: seq<string>, stack: seq<string>, names: seq<string>)
    requires Names(names) && LinkFree(fs, root, stack + names)
    ensures Resolve(fs, root, stack, names, 0) == Resolved(stack + names)
    decreases |names|
  {
    if names == [] {
      assert stack + names == stack;
    } else {
      assert IsName(names[0]);
      var next := stack + [names[0]];
      assert next + names[1..] == stack + names;
      assert (stack + names)[..|next|] == next;
      assert root + stack + [names[0]] == root + next;
      LinkFreeResolves(fs, root, next, names[1..]);
    }
  }

  /** Resolution is idempotent: a result resolves to itself without following any link. */
  lemma ResolveIdempotent(fs: FileSystem, root: seq<string>, ps: seq<string>)
    requires Slashless(ps)
    ensures var r := Resolve(fs, root, [], ps, 0);
            r.Resolved? ==> Resolve(fs, root, [], r.stack, 0) == r
  {
    var r := Resolve(fs, root, [], ps, 0);
    if r.Resolved? {
      ResolvedNames(fs, root, [], ps, 0);
      ResolvedIsLinkFree(fs, root, [], ps, 0);
      assert [] + r.stack == r.stack;
      LinkFreeResolves(fs, root, [], r.stack);
    }
  }

  // ----- what a link does

  /** A link is replaced by its text, as far as `readlink` gives it: from the root if the text starts with
      a slash, from the directory of the link otherwise. Too long a text ends the walk. */
  lemma LinkIsSpliced(fs: FileSystem, root: seq<string>, stack: seq<string>, name: string, rest: seq<string>, links: nat, target: string)
    requires IsName(name) && links < MAXSYMLINKS && Lookup(fs, Below(root + stack + [name])) == Link(target)
    ensures var t := if |target| < 4096 then target else target[..4095];
            var r := Resolve(fs, root, stack, [name] + rest, links);
            if |t| + |Remaining(rest)| < 4096
            then r == Resolve(fs, root, if "/" <= t then [] else stack, Split(t) + rest, links + 1)
            else !r.Resolved?
  {
    assert ([name] + rest)[1..] == rest;
  }

  /** A link that cannot be read, and one too many, end the walk. */
  lemma BadLinkFails(fs: FileSystem, root: seq<string>, stack: seq<string>, name: string, rest: seq<string>, links: nat)
    requires IsName(name) && links <= MAXSYMLINKS && !Lookup(fs, Below(root + stack + [name])).Plain?
    requires Lookup(fs, Below(root + stack + [name])).BrokenLink? || links == MAXSYMLINKS
    ensures !Resolve(fs, root, stack, [name] + rest, links).Resolved?
  {
  }

  predicate LinksTo(fs: FileSystem, root: seq<string>, name: string, target: string) {
    Lookup(fs, Below(root + [name])) == Link(target)
  }

  /** The names of a chain of links in the root: each links to the next, and the last is no link. */
  predicate IsChain(fs: FileSystem, root: seq<string>, chain: seq<string>) {
    && chain != [] && IsName(chain[0]) && |chain[0]| < PATH_MAX
    && if |chain| == 1 then Lookup(fs, Below(root + [chain[0]])).Plain?
       else LinksTo(fs, root, chain[0], chain[1]) && IsChain(fs, root, chain[1..])
  }

  /** Exactly the chains of at most twenty links are followed to their end. */
  lemma ChainIsFollowed(fs: FileSystem, root: seq<string>, chain: seq<string>)
    requires IsChain(fs, root, chain)
    ensures var r := Resolve(fs, root, [], [chain[0]], 0);
            if |chain| - 1 <= 20 then r == Resolved([chain[|chain| - 1]]) else !r.Resolved?
  {
    ChainFrom(fs, root, chain, 0);
  }

  lemma {:induction false} ChainFrom(fs: FileSystem, root: seq<string>, chain: seq<string>, links: nat)
    requires IsChain(fs, root, chain) && links <= MAXSYMLINKS
    ensures var r := Resolve(fs, root, [], [chain[0]], links);
            if |chain| - 1 <= MAXSYMLINKS - links then r == Resolved([chain[|chain| - 1]]) else !r.Resolved?
    decreases |chain|
  {
    var name := chain[0];
    AtRoot(root, name);
    if |chain| == 1 {
      PlainName(fs, root, [], name, links);
    } else if links == MAXSYMLINKS {
      BadLinkFails(fs, root, [], name, [], links);
    } else {
      NameIsOnePiece(chain[1]);
      LinkIsSpliced(fs, root, [], name, [], links, chain[1]);
      ChainFrom(fs, root, chain[1..], links + 1);
    }
  }

  lemma AtRoot(root: seq<string>, name: string)
    ensures root + [] + [name] == root + [name] && root + ([] + [name]) == root + [name]
    ensures [name] + [] == [name] && [] + [name] == [name]
  {
  }

  lemma PlainName(fs: FileSystem, root: seq<string>, stack: seq<string>, x: string, links: nat)
    requires IsName(x) && links <= MAXSYMLINKS && Lookup(fs, Below(root + (stack + [x]))).Plain?
    ensures Resolve(fs, root, stack, [x], links) == Resolved(stack + [x])
  {
    Assoc(root, stack, [x]);
    assert [x][1..] == [];
  }

  lemma NameIsOnePiece(name: string)
    requires IsName(name)
    ensures Split(name) + [] == [name] && !("/" <= name)
  {
    SplitSegment(name, |name|);
    assert name[..|name|] == name;
  }

  /** A link to itself is never followed to an end. */
  lemma {:induction false} SelfLinkFails(fs: FileSystem, root: seq<string>, name: string, links: nat)
    requires IsName(name) && |name| < PATH_MAX && links <= MAXSYMLINKS && LinksTo(fs, root, name, name)
    ensures !Resolve(fs, root, [], [name], links).Resolved?
    decreases MAXSYMLINKS - links
  {
    AtRoot(root, name);
    if links == MAXSYMLINKS {
      BadLinkFails(fs, root, [], name, [], links);
    } else {
      NameIsOnePiece(name);
      LinkIsSpliced(fs, root, [], name, [], links, name);
      SelfLinkFails(fs, root, name, links + 1);
    }
  }

  // ----- consuming a text from the left

  lemma ResolveEmptyPiece(fs: FileSystem, root: seq<string>, stack: seq<string>, ps: seq<string>, links: nat)
    requires links <= MAXSYMLINKS
    ensures Resolve(fs, root, stack, [""] + ps, links) == Resolve(fs, root, stack, ps, links)
    ensures Consumed(fs, root, stack, [""] + ps, links) == (if ps == [] then 0 else 1) + Consumed(fs, root, stack, ps, links)
  {
    assert ([""] + ps)[1..] == ps;
  }

  /** The pieces of a text after its first segment. */
  lemma AfterSegment(text: string, k: nat)
    requires k <= |text| && '/' !in text[..k] && (k < |text| ==> text[k] == '/')
    ensures var ps := Split(text); ps[0] == text[..k] && Remaining(ps[1..]) == text[k..]
    ensures Split(text[k..]) == [""] + Split(text)[1..]
  {
    SplitSegment(text, k);
    var tail := if k == |text| then [] else Split(text[k + 1..]);
    assert Split(text)[1..] == tail;
    StartsWithSlash(text[k..], tail) by {
      if k < |text| { assert text[k..][1..] == text[k + 1..]; }
    }
  }

  lemma StartsWithSlash(s: string, tail: seq<string>)
    requires s == "" || s[0] == '/'
    requires tail == if s == "" then [] else Split(s[1..])
    ensures Remaining(tail) == s && Split(s) == [""] + tail
  {
    if s != "" { JoinSplit(s[1..]); }
  }

  /** Splicing a link target in front of the remaining text splices its pieces. */
  lemma SpliceSplits(t: string, ps: seq<string>)
    requires Slashless(ps)
    ensures Split(t + Remaining(ps)) == Split(t) + ps
  {
    if ps == [] {
      assert t + Remaining(ps) == t && Split(t) + ps == Split(t);
    } else {
      SplitJoin(ps);
      SplitConcat(t, Join(ps));
      assert t + Remaining(ps) == t + "/" + Join(ps);
    }
  }

  // ----- the walk

  /** The output text: the root's own text, then a spelling of the stack. */
  ghost predicate Spelled(rpath: string, root: seq<string>, stack: seq<string>) {
    Below(root) <= rpath && Spells(rpath[|Below(root)|..], stack)
  }

  /** The buffer the output is written to. It has been enlarged at most once, the text fits in it, and
      the text still to be walked will not make it need a second enlargement. */
  ghost predicate Roomy(rpath: string, limit: nat, text: string, start: nat)
    requires start <= |text|
  {
    && (limit == PATH_MAX || limit == 2 * PATH_MAX)
    && |rpath| < limit && |rpath| + Slack(rpath, text, start) + (|text| - start) < 2 * PATH_MAX - 1
  }

  predicate EndsInSlash(s: string) { s != "" && s[|s| - 1] == '/' }

  /** The state of the walk at a position of a text. */
  ghost predicate Walking(root: seq<string>, stack: seq<string>, rpath: string, limit: nat, text: string, start: nat, links: nat) {
    && start <= |text| < PATH_MAX && links <= MAXSYMLINKS
    && Names(stack) && Spelled(rpath, root, stack) && Roomy(rpath, limit, text, start)
  }

  /** One character if the output needs a slash that the text does not have. */
  function Slack(rpath: string, text: string, start: nat): nat
    requires start <= |text|
  {
    if EndsInSlash(rpath) || start == |text| || text[start] == '/' then 0 else 1
  }

  /** `do_eval_symlinks_in_scope`. `text0` is the part of the full path behind the prefix, `limit` the
      size of the buffer that holds `rpath`, and `scanned` the number of characters walked over. */
  method Walk(fs: FileSystem, prefix: string, text0: string, ghost root: seq<string>)
    returns (ok: bool, rpath: string, limit: nat, ghost scanned: nat)
    requires Names(root) && prefix == Below(root) && |prefix| < PATH_MAX - 1 && |prefix| + |text0| < PATH_MAX
    ensures var r := Resolve(fs, root, [], Split(text0), 0);
            ok == r.Resolved? && (ok ==> Names(r.stack) && Spelled(rpath, root, r.stack))
    ensures ok ==> |rpath| < limit <= 2 * PATH_MAX
    ensures scanned == Consumed(fs, root, [], Split(text0), 0)
  {
    var text, start, links := text0, 0, 0;
    ghost var stack: seq<string> := [];
    ok, rpath, limit, scanned := true, prefix + "/", PATH_MAX, 0;
    assert text[0..] == text0;
    assert rpath[|prefix|..] == "/" == Below([]) + "/";
    while start < |text|
      invariant 0 <= start && 0 <= links && Walking(root, stack, rpath, limit, text, start, links)
      invariant OnTrack(fs, root, text0, Progress(stack, text[start..], links), scanned)
      decreases MAXSYMLINKS - links, |text| - start
    {
      var from := start;
      start := SkipSlashes(text, start);
      var end := SegmentEnd(text, start);
      SkipsSlashes(root, stack, rpath, limit, text, from, start, links);
      SlashesKeepTrack(fs, root, text0, stack, text, from, start, links, scanned);
      scanned := scanned + (end - from);
      if end - start == 0 {
        break;
      }
      SegmentOf(text, start, end);
      SegmentKeepsTrack(fs, root, text0, stack, text[start..end], text[end..], links, scanned - (end - start));
      ok, text, start, rpath, limit, links, stack :=
        WalkSegment(fs, prefix, text, start, end, rpath, limit, links, root, stack);
      if !ok {
        return;
      }
    }
    assert text[start..] == "";
    ResolveEmptyPiece(fs, root, stack, [], links);
  }

  /** What has been walked over and what lies ahead together make up the whole walk. */
  ghost predicate OnTrack(fs: FileSystem, root: seq<string>, text0: string, ahead: Progress, scanned: nat) {
    && ahead.links <= MAXSYMLINKS
    && Resolve(fs, root, [], Split(text0), 0) == Resolve(fs, root, ahead.stack, Split(ahead.text), ahead.links)
    && Consumed(fs, root, [], Split(text0), 0) == scanned + Consumed(fs, root, ahead.stack, Split(ahead.text), ahead.links)
  }

  lemma SlashesKeepTrack(fs: FileSystem, root: seq<string>, text0: string, stack: seq<string>, text: string,
                         from: nat, to: nat, links: nat, scanned: nat)
    requires from <= to <= |text| && forall i :: from <= i < to ==> text[i] == '/'
    requires OnTrack(fs, root, text0, Progress(stack, text[from..], links), scanned)
    ensures OnTrack(fs, root, text0, Progress(stack, text[to..], links), scanned + (to - from))
  {
    ResolveSlashes(fs, root, stack, text, from, to, links);
  }

  /** After a segment the walk is on track, or it has failed as it should. */
  lemma SegmentKeepsTrack(fs: FileSystem, root: seq<string>, text0: string, stack: seq<string>, seg: string, rest: string,
                          links: nat, scanned: nat)
    requires '/' !in seg && (rest != "" ==> rest[0] == '/') && links <= MAXSYMLINKS
    requires OnTrack(fs, root, text0, Progress(stack, seg + rest, links), scanned)
    ensures var e := Effect(fs, root, stack, seg, rest, links);
            if e.Some? then OnTrack(fs, root, text0, e.value, scanned + |seg|)
            else !Resolve(fs, root, [], Split(text0), 0).Resolved? && scanned + |seg| == Consumed(fs, root, [], Split(text0), 0)
  {
    ResolveSegment(fs, root, stack, seg, rest, links);
  }

  /** The part of the loop body after a segment has been delimited: either the text goes on behind
      the segment, or a link has been followed and a new text starts. */
  method WalkSegment(fs: FileSystem, prefix: string, text0: string, start0: nat, end: nat, rpath0: string, limit0: nat,
                     links0: nat, ghost root: seq<string>, ghost stack0: seq<string>)
    returns (ok: bool, text: string, start: nat, rpath: string, limit: nat, links: nat, ghost stack: seq<string>)
    requires start0 < end <= |text0| < PATH_MAX && '/' !in text0[start0..end] && (end < |text0| ==> text0[end] == '/')
    requires prefix == Below(root) && |prefix| < PATH_MAX - 1
    requires Walking(root, stack0, rpath0, limit0, text0, start0, links0)
    ensures Effect(fs, root, stack0, text0[start0..end], text0[end..], links0) ==
            if ok && start <= |text| then Some(Progress(stack, text[start..], links)) else None
    ensures ok ==> Walking(root, stack, rpath, limit, text, start, links)
    ensures ok ==> (links == links0 && text == text0 && start == end) || (links == links0 + 1 && start == 0)
  {
    var node: Node;
    node, rpath, limit, stack := VisitSegment(fs, prefix, text0, start0, end, rpath0, limit0, root, stack0);
    ok, text, start, links := true, text0, end, links0;
    if node.Plain? {
      return;
    }
    LinkEffect(fs, root, stack0, text0[start0..end], text0[end..], links0);
    ok, text, rpath, links, stack := FollowLink(node, prefix, text0, end, rpath, limit, links0, root, stack);
    start := 0;
    assert text[0..] == text;
  }

  lemma StartsOver(root: seq<string>, stack: seq<string>, rpath: string, limit: nat, text: string, links: nat)
    requires limit == PATH_MAX || limit == 2 * PATH_MAX
    requires |rpath| < PATH_MAX && EndsInSlash(rpath) && |text| < PATH_MAX && links <= MAXSYMLINKS
    requires Names(stack) && Spelled(rpath, root, stack)
    ensures Walking(root, stack, rpath, limit, text, 0, links)
  {
  }

  lemma SkipsSlashes(root: seq<string>, stack: seq<string>, rpath: string, limit: nat, text: string, from: nat, to: nat, links: nat)
    requires from <= to <= |text| && forall i :: from <= i < to ==> text[i] == '/'
    requires Walking(root, stack, rpath, limit, text, from, links)
    ensures Walking(root, stack, rpath, limit, text, to, links)
  {
    if from < to { assert text[from] == '/'; }
  }

  /** What is left to do once a link has been found in the directory given by the stack. */
  function Taken(node: Node, stack: seq<string>, rest: string, links: nat): Option<Progress> {
    if !node.Link? || links >= MAXSYMLINKS then None
    else
      var t := Truncated(node.target);
      if |rest| >= PATH_MAX - |t| then None
      else Some(Progress(if IsAbsolute(t) then [] else stack, t + rest, links + 1))
  }

  lemma LinkEffect(fs: FileSystem, root: seq<string>, stack: seq<string>, seg: string, rest: string, links: nat)
    requires links <= MAXSYMLINKS && !Visited(fs, root, stack, seg).Plain?
    ensures Effect(fs, root, stack, seg, rest, links) == Taken(Visited(fs, root, stack, seg), Pop(Step(stack, seg)), rest, links)
  {
    assert Pop(stack + [seg]) == stack;
  }

  /** `do_get_symlinks`: the target of the link, followed by the rest of the text, is the new text. */
  method FollowLink(node: Node, prefix: string, text0: string, end: nat, rpath0: string, ghost limit: nat, links0: nat,
                    ghost root: seq<string>, ghost stack0: seq<string>)
    returns (ok: bool, text: string, rpath: string, links: nat, ghost stack: seq<string>)
    requires !node.Plain? && end <= |text0| && prefix == Below(root) && |prefix| < PATH_MAX - 1
    requires |rpath0| < PATH_MAX && Walking(root, stack0, rpath0, limit, text0, end, links0)
    ensures ok <==> node.Link? && links0 < MAXSYMLINKS && |text0[end..]| < PATH_MAX - |Truncated(node.target)|
    ensures ok ==> text == Truncated(node.target) + text0[end..] && links == links0 + 1
    ensures Taken(node, Pop(stack0), text0[end..], links0) == if ok then Some(Progress(stack, text, links)) else None
    ensures ok ==> Walking(root, stack, rpath, limit, text, 0, links)
  {
    text, rpath, stack := text0, rpath0, stack0;
    links := links0 + 1;
    if links > MAXSYMLINKS {
      ok := false;
      return;
    }
    if node.BrokenLink? {
      ok := false;
      return;
    }
    var t := Truncated(node.target);
    if |text| - end >= PATH_MAX - |t| {
      ok := false;
      return;
    }
    text := t + text0[end..];
    rpath, stack := Redirect(t, rpath, prefix, root, stack);
    StartsOver(root, stack, rpath, limit, text, links);
    ok := true;
  }

  /** A walk in progress: the stack, the text still to be walked and the links followed. */
  datatype Progress = Progress(stack: seq<string>, text: string, links: nat)

  /** What one segment does. */
  function Effect(fs: FileSystem, root: seq<string>, stack: seq<string>, seg: string, rest: string, links: nat): (r: Option<Progress>)
    requires links <= MAXSYMLINKS
    ensures r.Some? ==> r.value.links <= MAXSYMLINKS
  {
    match Visited(fs, root, stack, seg)
    case Plain => Some(Progress(Step(stack, seg), rest, links))
    case BrokenLink => None
    case Link(target) =>
      var t := Truncated(target);
      if links >= MAXSYMLINKS || |rest| >= PATH_MAX - |t| then None
      else Some(Progress(if IsAbsolute(t) then [] else stack, t + rest, links + 1))
  }

  /** What is still to be walked over after a segment with the given effect. */
  function ConsumedAfter(fs: FileSystem, root: seq<string>, effect: Option<Progress>): nat
    requires effect.Some? ==> effect.value.links <= MAXSYMLINKS
  {
    if effect.None? then 0 else Consumed(fs, root, effect.value.stack, Split(effect.value.text), effect.value.links)
  }

  /** The walk from a stack and a text leads where the walk after a segment leads. */
  ghost predicate LeadsOn(fs: FileSystem, root: seq<string>, stack: seq<string>, ps: seq<string>, links: nat, effect: Option<Progress>)
    requires links <= MAXSYMLINKS && (effect.Some? ==> effect.value.links <= MAXSYMLINKS)
  {
    var r := Resolve(fs, root, stack, ps, links);
    if effect.None? then !r.Resolved?
    else r == Resolve(fs, root, effect.value.stack, Split(effect.value.text), effect.value.links)
  }

  /** Carrying out the first segment of a text is one step of the resolver. */
  lemma ResolveSegment(fs: FileSystem, root: seq<string>, stack: seq<string>, seg: string, rest: string, links: nat)
    requires '/' !in seg && (rest != "" ==> rest[0] == '/') && links <= MAXSYMLINKS
    ensures var e := Effect(fs, root, stack, seg, rest, links);
            && LeadsOn(fs, root, stack, Split(seg + rest), links, e)
            && Consumed(fs, root, stack, Split(seg + rest), links) == |seg| + ConsumedAfter(fs, root, e)
  {
    var text := seg + rest;
    assert text[..|seg|] == seg && text[|seg|..] == rest;
    AfterSegment(text, |seg|);
    ResolvePiece(fs, root, stack, Split(text), rest, links);
  }

  lemma SegmentOf(text: string, start: nat, end: nat)
    requires start <= end <= |text|
    ensures text[start..] == text[start..end] + text[end..]
    ensures end < |text| ==> text[end..] != "" && text[end..][0] == text[end]
  {
  }

  lemma ResolvePiece(fs: FileSystem, root: seq<string>, stack: seq<string>, ps: seq<string>, rest: string, links: nat)
    requires links <= MAXSYMLINKS && ps != [] && Slashless(ps)
    requires rest == Remaining(ps[1..]) && Split(rest) == [""] + ps[1..]
    ensures var e := Effect(fs, root, stack, ps[0], rest, links);
            LeadsOn(fs, root, stack, ps, links, e) && Consumed(fs, root, stack, ps, links) == |ps[0]| + ConsumedAfter(fs, root, e)
  {
    PieceMove(fs, root, stack, ps, rest, links);
    var m := FirstMove(fs, root, stack, ps, links);
    if m.Go? && m.links == links { ResolveEmptyPiece(fs, root, m.stack, m.ps, links); }
  }

  lemma PieceMove(fs: FileSystem, root: seq<string>, stack: seq<string>, ps: seq<string>, rest: string, links: nat)
    requires links <= MAXSYMLINKS && ps != [] && Slashless(ps)
    requires rest == Remaining(ps[1..]) && Split(rest) == [""] + ps[1..]
    ensures var e, m := Effect(fs, root, stack, ps[0], rest, links), FirstMove(fs, root, stack, ps, links);
            && (e.Some? <==> m.Go?)
            && (e.Some? ==> e.value.stack == m.stack && e.value.links == m.links)
            && (e.Some? ==> Split(e.value.text) == if m.links == links then [""] + m.ps else m.ps)
  {
    var node := Visited(fs, root, stack, ps[0]);
    if node.Link? { SpliceSplits(Truncated(node.target), ps[1..]); }
  }

  predicate SpecifiesCurrent(text: string, start: nat, end: nat): (b: bool)
    requires start < end <= |text|
    ensures b <==> text[start..end] == "."
  {
    end - start == 1 && text[start] == '.'
  }

  predicate SpecifiesParent(text: string, start: nat, end: nat): (b: bool)
    requires start < end <= |text|
    ensures b <==> text[start..end] == ".."
  {
    end - start == 2 && text[start] == '.' && text[start + 1] == '.'
  }

  /** The loop body up to the `lstat`: dots are carried out, a name is appended and looked up. A path
      that turns out to be a link fits in PATH_MAX. */
  method VisitSegment(fs: FileSystem, prefix: string, text: string, start: nat, end: nat, rpath0: string, limit0: nat,
                      ghost root: seq<string>, ghost stack0: seq<string>)
    returns (node: Node, rpath: string, limit: nat, ghost stack: seq<string>)
    requires start < end <= |text| < PATH_MAX && '/' !in text[start..end] && (end < |text| ==> text[end] == '/')
    requires Names(stack0) && prefix == Below(root) && Spelled(rpath0, root, stack0) && Roomy(rpath0, limit0, text, start)
    ensures stack == Step(stack0, text[start..end]) && Names(stack) && Spelled(rpath, root, stack)
    ensures node == Visited(fs, root, stack0, text[start..end])
    ensures Roomy(rpath, limit, text, end) && (!node.Plain? ==> |rpath| < PATH_MAX)
  {
    node, rpath, limit, stack := Plain, rpath0, limit0, stack0;
    ghost var seg := text[start..end];
    if SpecifiesCurrent(text, start, end) {
      return;
    } else if SpecifiesParent(text, start, end) {
      rpath, stack := PopLast(rpath0, prefix, root, stack0);
      return;
    }
    stack := stack0 + [seg];
    rpath, limit := AppendName(rpath0, limit0, text, start, end, root, stack0);
    VisitedName(fs, root, stack0, seg);
    node := Lookup(fs, rpath);
  }

  lemma VisitedName(fs: FileSystem, root: seq<string>, stack: seq<string>, seg: string)
    requires Names(stack) && !IsDots(seg) && '/' !in seg
    ensures Visited(fs, root, stack, seg) == Lookup(fs, Below(root + (stack + [seg]))) && Names(stack + [seg])
  {
    Assoc(root, stack, [seg]);
  }

  /** Appends a segment, in a larger buffer if need be. */
  method AppendName(rpath0: string, limit0: nat, text: string, start: nat, end: nat, ghost root: seq<string>, ghost stack: seq<string>)
    returns (rpath: string, limit: nat)
    requires start < end <= |text| < PATH_MAX && text[start] != '/' && (end < |text| ==> text[end] == '/')
    requires Names(stack) && Spelled(rpath0, root, stack) && Roomy(rpath0, limit0, text, start)
    ensures rpath == Below(root + (stack + [text[start..end]])) && Spelled(rpath, root, stack + [text[start..end]])
    ensures Roomy(rpath, limit, text, end)
  {
    rpath := rpath0;
    SpelledEnd(rpath0, root, stack);
    if rpath[|rpath| - 1] != '/' {
      rpath := rpath + "/";
    }
    var ok;
    ok, rpath, limit := PathRealloc(rpath, end - start, limit0);
    assert ok;
    rpath := rpath + text[start..end];
    SpelledName(rpath, root, stack, text[start..end]);
  }

  /** What survives a copy of PATH_MAX bytes into a cleared buffer. */
  function Kept(s: string): string {
    if |s| <= PATH_MAX then s else s[..PATH_MAX] + seq(|s| - PATH_MAX, _ => '\0')
  }

  /** `do_path_realloc`: room for n more characters and a terminator. An enlarged buffer gets a copy of
      the first PATH_MAX bytes of the old one. */
  method PathRealloc(rpath0: string, n: nat, limit0: nat) returns (ok: bool, rpath: string, limit: nat)
    requires |rpath0| <= limit0
    ensures ok <==> |rpath0| + n < limit0 || limit0 <= SIZE_MAX - (n + 1)
    ensures ok ==> |rpath0| + n < limit && limit0 <= limit && (limit == limit0 || limit == limit0 + Max(n + 1, PATH_MAX))
    ensures |rpath0| + n < limit0 ==> rpath == rpath0 && limit == limit0
    ensures ok && limit != limit0 ==> rpath == Kept(rpath0)
  {
    ok, rpath, limit := true, rpath0, limit0;
    if |rpath0| + n < limit0 {
      return;
    }
    var gap := n + 1;
    if limit0 > SIZE_MAX - gap {
      ok := false;
      return;
    }
    if gap > PATH_MAX {
      limit := limit + gap;
    } else {
      limit := limit + PATH_MAX;
    }
    rpath := Kept(rpath0);
  }

  lemma SpelledEnd(rpath: string, root: seq<string>, stack: seq<string>)
    requires Names(stack) && Spelled(rpath, root, stack)
    ensures rpath != ""
    ensures Below(root) + (Below(stack) + "/") == if rpath[|rpath| - 1] == '/' then rpath else rpath + "/"
  {
    var tail := rpath[|Below(root)|..];
    SplitPrefix(rpath, Below(root));
    SpellingEnd(tail, stack);
    JoinTail(Below(root), tail, Below(stack) + "/");
  }

  lemma SplitPrefix(s: string, a: string)
    requires a <= s
    ensures s == a + s[|a|..]
  {
  }

  lemma SpellingEnd(tail: string, stack: seq<string>)
    requires Names(stack) && Spells(tail, stack)
    ensures tail != ""
    ensures Below(stack) + "/" == if tail[|tail| - 1] == '/' then tail else tail + "/"
  {
    if stack != [] { LastName(tail, stack); }
  }

  lemma JoinTail(base: string, tail: string, t: string)
    requires tail != "" && t == if tail[|tail| - 1] == '/' then tail else tail + "/"
    ensures base + t == if (base + tail)[|base + tail| - 1] == '/' then base + tail else base + tail + "/"
  {
    Assoc(base, tail, "/");
  }

  lemma SpelledName(rpath: string, root: seq<string>, stack: seq<string>, name: string)
    requires rpath == Below(root) + (Below(stack) + "/") + name
    ensures rpath == Below(root + (stack + [name])) && Spelled(rpath, root, stack + [name])
  {
    assert (stack + [name])[..|stack|] == stack;
    BelowAppend(root, stack + [name]);
    assert rpath == Below(root) + (Below(stack) + "/" + name);
    assert rpath[|Below(root)|..] == Below(stack + [name]);
  }

  /** `do_get_symlinks_copy_buf`: back to the root for an absolute target, back to the directory
      of the link otherwise. */
  method Redirect(t: string, rpath0: string, prefix: string, ghost root: seq<string>, ghost stack0: seq<string>)
    returns (rpath: string, ghost stack: seq<string>)
    requires Names(stack0) && prefix == Below(root) && Spelled(rpath0, root, stack0)
    ensures stack == (if IsAbsolute(t) then [] else Pop(stack0)) && Names(stack)
    ensures Spelled(rpath, root, if IsAbsolute(t) then [] else Pop(stack0))
    ensures EndsInSlash(rpath) && |rpath| <= Max(|rpath0|, |prefix| + 1)
  {
    if IsAbsolute(t) {
      rpath, stack := prefix + "/", [];
      assert rpath[|prefix|..] == "/" == Below([]) + "/";
    } else {
      rpath, stack := PopLast(rpath0, prefix, root, stack0);
    }
  }

  lemma ResolveSlash(fs: FileSystem, root: seq<string>, stack: seq<string>, text: string, i: nat, links: nat)
    requires i < |text| && text[i] == '/' && links <= MAXSYMLINKS
    ensures Resolve(fs, root, stack, Split(text[i..]), links) == Resolve(fs, root, stack, Split(text[i + 1..]), links)
    ensures Consumed(fs, root, stack, Split(text[i..]), links) == 1 + Consumed(fs, root, stack, Split(text[i + 1..]), links)
  {
    assert text[i..][1..] == text[i + 1..];
    ResolveEmptyPiece(fs, root, stack, Split(text[i + 1..]), links);
  }

  /** Separators do not matter to the resolver. */
  lemma {:induction false} ResolveSlashes(fs: FileSystem, root: seq<string>, stack: seq<string>, text: string, from: nat, to: nat, links: nat)
    requires from <= to <= |text| && links <= MAXSYMLINKS && forall i :: from <= i < to ==> text[i] == '/'
    ensures Resolve(fs, root, stack, Split(text[from..]), links) == Resolve(fs, root, stack, Split(text[to..]), links)
    ensures Consumed(fs, root, stack, Split(text[from..]), links) == to - from + Consumed(fs, root, stack, Split(text[to..]), links)
    decreases |text| - from
  {
    if from < to {
      ResolveSlash(fs, root, stack, text, from, links);
      ResolveSlashes(fs, root, stack, text, from + 1, to, links);
    }
  }

  /** Drops the last name from the output, never going above the root. */
  method PopLast(rpath0: string, prefix: string, ghost root: seq<string>, ghost stack0: seq<string>)
    returns (rpath: string, ghost stack: seq<string>)
    requires Names(stack0) && prefix == Below(root) && Spelled(rpath0, root, stack0)
    ensures stack == Pop(stack0) && Names(stack)
    ensures Spelled(rpath, root, Pop(stack0)) && EndsInSlash(rpath) && |rpath| <= |rpath0|
  {
    assert rpath0[|prefix|..|rpath0|] == rpath0[|prefix|..];
    var dest := ScanBack(rpath0, |rpath0|, |prefix|, stack0);
    rpath, stack := rpath0[..dest], Pop(stack0);
    CutTail(rpath0, |prefix|, dest);
  }

  lemma CutTail(s: string, a: nat, b: nat)
    requires a <= b <= |s|
    ensures s[..b][a..] == s[a..b] && s[..b][..a] == s[..a]
  {
  }

  // ----- the entry points

  /** `strstr(s, t) != NULL`. */
  predicate Contains(s: string, t: string) {
    exists k :: 0 <= k <= |s| - |t| && OccursAt(s, t, k)
  }

  predicate OccursAt(s: string, t: string, k: nat)
    requires k + |t| <= |s|
  {
    s[k..k + |t|] == t
  }

  /** The root's text without the slash that "/" ends in. */
  function Prefix(root: string): string { if root == "/" then "" else root }

  /** The text of a resolved stack; the root itself keeps a trailing slash. */
  function ScopedText(root: string, stack: seq<string>): string {
    Prefix(root) + if stack == [] then "/" else Below(stack)
  }

  /** The result for a cleaned path and a cleaned root. */
  function Followed(fs: FileSystem, full: string, root: string): Option<string> {
    if full == root then Some(full)
    else if !Contains(full, root) || |Prefix(root)| >= PATH_MAX - 1 then None
    else Spell(root, Resolve(fs, NamesOf(root), [], Split(full[|Prefix(root)|..]), 0))
  }

  function Spell(root: string, o: Outcome): Option<string> {
    if o.Resolved? then Some(ScopedText(root, o.stack)) else None
  }

  lemma PrefixIsBelow(root: string)
    requires Canonical(root)
    ensures Prefix(root) == Below(NamesOf(root)) && Names(NamesOf(root))
  {
    CanonicalRoundTrip(root);
    if root == "/" { RenderRoundTrip([]); }
  }

  /** `eval_symlinks_in_scope`. */
  method EvalSymlinksInScope(fs: FileSystem, full: string, rootpath: string, cwd: Option<string>) returns (r: Option<string>)
    requires GoodCwd(cwd) && |full| < PATH_MAX
    ensures r == match Cleaned(rootpath, cwd) case None => None case Some(root) => Followed(fs, full, root)
    ensures r.Some? ==> |r.value| < 2 * PATH_MAX
  {
    var resroot := new char[PATH_MAX];
    var root := UtilCleanPath(Some(rootpath), resroot, cwd);
    if root.None? {
      return None;
    }
    CleanedIsCanonical(rootpath, cwd);
    if full == root.value {
      return Some(full);
    }
    if !Contains(full, root.value) {
      return None;
    }
    var prefix := Prefix(root.value);
    if |prefix| >= PATH_MAX - 1 {
      return None;
    }
    ghost var names := NamesOf(root.value);
    PrefixIsBelow(root.value);
    var ok, rpath, limit;
    ghost var scanned;
    ok, rpath, limit, scanned := Walk(fs, prefix, full[|prefix|..], names);
    if !ok {
      return None;
    }
    ghost var stack := Resolve(fs, names, [], Split(full[|prefix|..]), 0).stack;
    var trimmed := TrimSlash(rpath, prefix, names, stack);
    r := Some(trimmed);
  }

  /** The last trimming: a trailing slash goes, unless it is the one right behind the prefix. */
  method TrimSlash(rpath: string, prefix: string, ghost root: seq<string>, ghost stack: seq<string>) returns (r: string)
    requires prefix == Below(root) && Names(stack) && Spelled(rpath, root, stack)
    ensures r == (prefix + if stack == [] then "/" else Below(stack)) && |r| <= |rpath|
  {
    r := rpath;
    OutputForms(rpath, prefix, root, stack);
    if |rpath| > |prefix| + 1 && rpath[|rpath| - 1] == '/' {
      r := rpath[..|rpath| - 1];
    }
  }

  /** The output is the prefix, the names below it, and perhaps one slash. */
  lemma OutputForms(rpath: string, prefix: string, root: seq<string>, stack: seq<string>)
    requires prefix == Below(root) && Names(stack) && Spelled(rpath, root, stack)
    ensures stack == [] ==> rpath == prefix + "/"
    ensures stack != [] ==> |rpath| > |prefix| + 1
    ensures stack != [] ==> if EndsInSlash(rpath) then rpath == prefix + Below(stack) + "/" else rpath == prefix + Below(stack)
  {
    var tail := rpath[|prefix|..];
    SplitPrefix(rpath, prefix);
    if stack != [] {
      NonemptyBelow(stack);
      LastName(tail, stack);
      Assoc(prefix, Below(stack), "/");
    }
  }

  /** The result for any path and root: both are cleaned first. */
  function Follow(fs: FileSystem, fullpath: string, rootpath: string, cwd: Option<string>): Option<string> {
    match (Cleaned(fullpath, cwd), Cleaned(rootpath, cwd))
    case (Some(full), Some(root)) => Followed(fs, full, root)
    case _ => None
  }

  /** `util_follow_symlink_in_scope`. */
  method FollowSymlinkInScope(fs: FileSystem, fullpath: Option<string>, rootpath: Option<string>, cwd: Option<string>)
    returns (r: Option<string>)
    requires GoodCwd(cwd)
    ensures r == if fullpath.None? || rootpath.None? then None else Follow(fs, fullpath.value, rootpath.value, cwd)
    ensures r.Some? ==> |r.value| < 2 * PATH_MAX
  {
    var resfull, resroot := new char[PATH_MAX], new char[PATH_MAX];
    var full := UtilCleanPath(fullpath, resfull, cwd);
    if full.None? {
      return None;
    }
    var root := UtilCleanPath(rootpath, resroot, cwd);
    if root.None? {
      return None;
    }
    CleanedIsCanonical(fullpath.value, cwd);
    CleanedIsCanonical(rootpath.value, cwd);
    CleanedFixesCanonical(root.value, cwd);
    r := EvalSymlinksInScope(fs, full.value, root.value, cwd);
  }

  // ----- what callers get

  /** The root, the root with a trailing slash, or a canonical path strictly below the root. */
  predicate InScope(p: string, root: string) {
    p == root || (Prefix(root) + "/" <= p && (p == Prefix(root) + "/" || Canonical(p)))
  }

  /** Whatever the links say, and whatever path was asked for, the result lies in the scope. */
  lemma FollowedStaysInScope(fs: FileSystem, full: string, root: string)
    requires Canonical(root)
    ensures var r := Followed(fs, full, root); r.Some? ==> InScope(r.value, root)
  {
    if Followed(fs, full, root).Some? && full != root {
      var ps := Split(full[|Prefix(root)|..]);
      ResolvedNames(fs, NamesOf(root), [], ps, 0);
      ScopedInScope(root, Resolve(fs, NamesOf(root), [], ps, 0).stack);
    }
  }

  lemma ScopedInScope(root: string, stack: seq<string>)
    requires Canonical(root) && Names(stack)
    ensures InScope(ScopedText(root, stack), root)
  {
    if stack != [] {
      var names := NamesOf(root);
      PrefixIsBelow(root);
      BelowAppend(names, stack);
      assert Names(names + stack);
      RenderIsCanonical(names + stack);
      StartsBelow(stack);
      assert Prefix(root) + "/" <= Prefix(root) + Below(stack);
    }
  }

  /** For a path that lies below the root, name by name, the result is the resolution of its names. */
  lemma FollowedResolvesNames(fs: FileSystem, root: seq<string>, rel: seq<string>)
    requires Names(root) && Names(rel) && rel != [] && |Below(root)| < PATH_MAX - 1
    ensures Followed(fs, Render(root + rel), Render(root)) ==
            Spell(Render(root), Resolve(fs, root, [], rel, 0))
  {
    RenderRoundTrip(root);
    TextBelow(root, rel);
    SplitBelow(rel);
    ResolveEmptyPiece(fs, root, [], rel, 0);
  }

  /** The text of a path below the root starts with the root's text. */
  lemma TextBelow(root: seq<string>, rel: seq<string>)
    requires Names(root) && Names(rel) && rel != []
    ensures var full, r := Render(root + rel), Render(root);
            && full != r && Contains(full, r) && Prefix(r) == Below(root)
            && |Prefix(r)| <= |full| && full[|Prefix(r)|..] == Below(rel)
  {
    var full, r := Render(root + rel), Render(root);
    RenderRoundTrip(root);
    BelowAppend(root, rel);
    NonemptyBelow(rel);
    RenderIsCanonical(root);
    PrefixIsBelow(r);
    assert full[|Prefix(r)|..] == Below(rel);
    assert full != r by { assert root == [] ==> |full| > 1; }
    assert OccursAt(full, r, 0) by { if root == [] { StartsBelow(rel); } }
  }

  lemma {:induction false} StartsBelow(stack: seq<string>)
    requires stack != []
    ensures "/" <= Below(stack)
  {
    if |stack| > 1 { StartsBelow(stack[..|stack| - 1]); }
  }

  /** A resolved stack, spelled out, is followed to itself. */
  lemma ScopedComesBack(fs: FileSystem, root: seq<string>, ps: seq<string>)
    requires Names(root) && Slashless(ps) && |Below(root)| < PATH_MAX - 1
    ensures var r := Resolve(fs, root, [], ps, 0);
            r.Resolved? && r.stack != [] ==>
              Followed(fs, Render(root + r.stack), Render(root)) == Some(Render(root + r.stack))
  {
    var r := Resolve(fs, root, [], ps, 0);
    if r.Resolved? && r.stack != [] {
      ResolvedNames(fs, root, [], ps, 0);
      ResolveIdempotent(fs, root, ps);
      FollowedResolvesNames(fs, root, r.stack);
      ScopedIsRender(root, r.stack);
    }
  }

  lemma ScopedIsRender(root: seq<string>, stack: seq<string>)
    requires Names(root) && Names(stack) && stack != []
    ensures ScopedText(Render(root), stack) == Render(root + stack)
  {
    RenderIsCanonical(root);
    RenderRoundTrip(root);
    PrefixIsBelow(Render(root));
    BelowAppend(root, stack);
  }

  /** A result that is canonical is followed to itself. */
  lemma CanonicalComesBack(fs: FileSystem, full: string, root: string)
    requires Canonical(root)
    ensures var r := Followed(fs, full, root); r.Some? && Canonical(r.value) ==> Followed(fs, r.value, root) == r
  {
    var r := Followed(fs, full, root);
    if r.Some? && Canonical(r.value) && full != root {
      var names, ps := NamesOf(root), Split(full[|Prefix(root)|..]);
      var stack := Resolve(fs, names, [], ps, 0).stack;
      CanonicalRoundTrip(root);
      PrefixIsBelow(root);
      ResolvedNames(fs, names, [], ps, 0);
      if stack == [] {
        CanonicalRoundTrip(r.value);
        RootIsNoPath(NamesOf(r.value), names);
      } else {
        ScopedComesBack(fs, names, ps);
        ScopedIsRender(names, stack);
      }
    }
  }

  /** Following what was followed changes nothing exactly when the result is a canonical path that
      fits in PATH_MAX: the root with a trailing slash loses the slash, and a longer result is refused. */
  lemma FollowedAgain(fs: FileSystem, fullpath: string, rootpath: string, cwd: Option<string>)
    requires GoodCwd(cwd)
    ensures var r := Follow(fs, fullpath, rootpath, cwd);
            r.Some? ==> (Follow(fs, r.value, rootpath, cwd) == r <==> Canonical(r.value) && |r.value| < PATH_MAX)
  {
    var r := Follow(fs, fullpath, rootpath, cwd);
    if r.Some? {
      var full, root := Cleaned(fullpath, cwd).value, Cleaned(rootpath, cwd).value;
      CleanedIsCanonical(fullpath, cwd);
      CleanedIsCanonical(rootpath, cwd);
      CleanedFixesCanonical(r.value, cwd);
      if Canonical(r.value) && |r.value| < PATH_MAX {
        CanonicalComesBack(fs, full, root);
      } else {
        FollowedStaysInScope(fs, full, root);
        ComesBackOtherwise(fs, r.value, root, cwd);
      }
    }
  }

  lemma ComesBackOtherwise(fs: FileSystem, p: string, root: string, cwd: Option<string>)
    requires GoodCwd(cwd) && Canonical(root) && |root| < PATH_MAX && InScope(p, root)
    requires !(Canonical(p) && |p| < PATH_MAX)
    ensures Cleaned(p, cwd).None? || Cleaned(p, cwd) == Some(root) != Some(p)
  {
    CleanedIsCanonical(p, cwd);
    assert p != "" && p[0] == '/' by { CanonicalRoundTrip(root); StartsWithRoot(p, root); }
    BoundedIsFold([], Split(p));
    CanonicalRoundTrip(root);
    if Canonical(p) {
      CanonicalRoundTrip(p);
    } else {
      PrefixIsBelow(root);
      SlashCleansToRoot(NamesOf(root));
    }
  }

  lemma StartsWithRoot(p: string, root: string)
    requires Canonical(root) && InScope(p, root)
    ensures p != "" && p[0] == '/'
  {
    PrefixIsBelow(root);
    CanonicalRoundTrip(root);
    if NamesOf(root) != [] { StartsBelow(NamesOf(root)); }
  }

  lemma SlashCleansToRoot(root: seq<string>)
    requires Names(root)
    ensures Fold([], Split(Below(root) + "/")) == root
  {
    SplitConcat(Below(root), "");
    assert Below(root) + "/" + "" == Below(root) + "/";
    SplitBelow(root);
    FoldOfPadded(root);
  }

  lemma FoldOfPadded(root: seq<string>)
    requires Names(root)
    ensures Fold([], [""] + root + [""]) == root
  {
    assert ([""] + root + [""])[1..] == root + [""];
    FoldThenNothing([], root);
    FoldOfNames([], root);
  }

  lemma {:induction false} FoldThenNothing(stack: seq<string>, ps: seq<string>)
    ensures Fold(stack, ps + [""]) == Fold(stack, ps)
    decreases |ps|
  {
    if ps == [] {
      assert ps + [""] == [""] && [""][1..] == [];
    } else {
      assert (ps + [""])[1..] == ps[1..] + [""];
      FoldThenNothing(Step(stack, ps[0]), ps[1..]);
    }
  }

  /** A link to "/" gives the root with a trailing slash, which is followed to the root without it. */
  lemma TrailingSlashIsLost(fs: FileSystem, root: seq<string>, name: string, cwd: Option<string>)
    requires Names(root) && root != [] && IsName(name) && GoodCwd(cwd)
    requires |Below(root + [name])| < PATH_MAX && fs(Below(root + [name])) == Link("/")
    ensures Follow(fs, Render(root + [name]), Render(root), cwd) == Some(Render(root) + "/")
    ensures Follow(fs, Render(root) + "/", Render(root), cwd) == Some(Render(root))
  {
    LinkIsFollowed(fs, root, name);
    SlashedRoot(root, cwd);
    RenderIsCanonical(root);
    RenderIsCanonical(root + [name]);
    CleanedFixesCanonical(Render(root), cwd);
    CleanedFixesCanonical(Render(root + [name]), cwd);
  }

  lemma LinkIsFollowed(fs: FileSystem, root: seq<string>, name: string)
    requires Names(root) && root != [] && IsName(name)
    requires |Below(root + [name])| < PATH_MAX && fs(Below(root + [name])) == Link("/")
    ensures Followed(fs, Render(root + [name]), Render(root)) == Some(Render(root) + "/")
    ensures |Below(root)| < PATH_MAX - 1 && Names(root + [name])
  {
    assert (root + [name])[..|root|] == root;
    assert Below(root + [name]) == Below(root) + "/" + name && |name| > 0;
    assert Names([name]);
    FollowedResolvesNames(fs, root, [name]);
    LinkToRoot(fs, root, name);
    NonemptyBelow(root);
  }

  lemma SlashedRoot(root: seq<string>, cwd: Option<string>)
    requires Names(root) && root != [] && |Below(root)| < PATH_MAX - 1
    ensures Cleaned(Render(root) + "/", cwd) == Some(Render(root)) && Prefix(Render(root)) == Render(root)
  {
    NonemptyBelow(root);
    StartsBelow(root);
    SlashCleansToRoot(root);
    ShortAbsoluteIsAccepted(Below(root) + "/", cwd);
  }

  lemma LinkToRoot(fs: FileSystem, root: seq<string>, name: string)
    requires IsName(name) && |Below(root + [name])| < PATH_MAX && fs(Below(root + [name])) == Link("/")
    ensures Resolve(fs, root, [], [name], 0) == Resolved([])
  {
    assert root + [] + [name] == root + [name];
    assert [name][1..] == [] && Remaining([]) == "";
    assert Split("/") == [""] + Split("/"[1..]) == ["", ""];
    assert ["", ""] + [] == ["", ""] && [""] + [""] == ["", ""];
    ResolveEmptyPiece(fs, root, [], [""], 1);
    ResolveEmptyPiece(fs, root, [], [], 1);
  }

  /** The scope test is a substring test. On a file system without links a path that passes it comes
      back unchanged exactly when it lies below the root name by name. */
  lemma ScopeTestExact(fs: FileSystem, full: seq<string>, root: seq<string>)
    requires Names(full) && Names(root) && full != root && |Below(root)| < PATH_MAX - 1
    requires Contains(Render(full), Render(root)) && forall p :: fs(p).Plain?
    ensures Followed(fs, Render(full), Render(root)) == Some(Render(full)) <==> root <= full
  {
    if root <= full {
      BelowComesBack(fs, root, full[|root|..]);
      assert full == root + full[|root|..];
    }
    if Followed(fs, Render(full), Render(root)) == Some(Render(full)) { CameFromBelow(fs, full, root); }
  }

  lemma PlainResolves(fs: FileSystem, root: seq<string>, names: seq<string>)
    requires Names(names) && forall p :: fs(p).Plain?
    ensures Resolve(fs, root, [], names, 0) == Resolved(names)
  {
    assert [] + names == names;
    LinkFreeResolves(fs, root, [], names);
  }

  lemma BelowComesBack(fs: FileSystem, root: seq<string>, rel: seq<string>)
    requires Names(root) && Names(rel) && rel != [] && |Below(root)| < PATH_MAX - 1
    requires forall p :: fs(p).Plain?
    ensures Followed(fs, Render(root + rel), Render(root)) == Some(Render(root + rel))
  {
    FollowedResolvesNames(fs, root, rel);
    PlainResolves(fs, root, rel);
    BelowAppend(root, rel);
    RenderIsCanonical(root);
    RenderRoundTrip(root);
    PrefixIsBelow(Render(root));
  }

  lemma CameFromBelow(fs: FileSystem, full: seq<string>, root: seq<string>)
    requires Names(full) && Names(root) && full != root
    requires Followed(fs, Render(full), Render(root)) == Some(Render(full))
    ensures root <= full
  {
    RenderRoundTrip(root);
    RenderRoundTrip(full);
    RenderIsCanonical(root);
    PrefixIsBelow(Render(root));
    var ps := Split(Render(full)[|Prefix(Render(root))|..]);
    ResolvedNames(fs, root, [], ps, 0);
    var stack := Resolve(fs, root, [], ps, 0).stack;
    if stack == [] {
      RootIsNoPath(full, root);
    } else {
      BelowAppend(root, stack);
      assert Names(root + stack);
      RenderRoundTrip(root + stack);
    }
  }

  /** A canonical path other than "/" does not end in a slash. */
  lemma RootIsNoPath(full: seq<string>, root: seq<string>)
    requires Names(full) && Names(root) && Render(full) == Below(root) + "/"
    ensures root == [] && full == []
  {
    if full != [] {
      LastName(Below(full), full);
      assert false;
    }
    if root != [] { NonemptyBelow(root); assert false; }
  }

  /** On a file system without links exactly the paths are accepted that are the root or have the root's
      text in them, at any place. */
  lemma AcceptedExactly(fs: FileSystem, full: string, root: string)
    requires Canonical(root) && forall p :: fs(p).Plain?
    ensures Followed(fs, full, root).Some? <==> full == root || (|Prefix(root)| < 4095 && exists k :: 0 <= k <= |full| && root <= full[k..])
  {
    if full == root { assert root <= full[0..]; }
    if Contains(full, root) {
      var k :| 0 <= k <= |full| - |root| && OccursAt(full, root, k);
      assert full[k..][..|root|] == full[k..k + |root|];
      assert root <= full[k..];
    }
    if k :| 0 <= k <= |full| && root <= full[k..] {
      assert full[k..k + |root|] == full[k..][..|root|] && OccursAt(full, root, k);
    }
    PlainAlwaysResolves(fs, NamesOf(root), [], if |Prefix(root)| <= |full| then Split(full[|Prefix(root)|..]) else []);
  }

  lemma {:induction false} PlainAlwaysResolves(fs: FileSystem, root: seq<string>, stack: seq<string>, ps: seq<string>)
    requires forall p :: fs(p).Plain?
    ensures Resolve(fs, root, stack, ps, 0) == Resolved(Fold(stack, ps))
    decreases |ps|
  {
    if ps != [] { PlainAlwaysResolves(fs, root, Step(stack, ps[0]), ps[1..]); }
  }

  /** A relative link in a directory below the root leads on from its directory. */
  lemma RelativeLinkBelowRoot(fs: FileSystem, root: seq<string>, dir: string, name: string, x: string)
    requires Names(root) && IsName(dir) && IsName(name) && IsName(x) && |x| < PATH_MAX - 1
    requires |Below(root)| < PATH_MAX - 1 && |Below(root + [dir, name])| < PATH_MAX
    requires Lookup(fs, Below(root + [dir])).Plain? && Lookup(fs, Below(root + [dir, x])).Plain?
    requires fs(Below(root + [dir, name])) == Link(x)
    ensures Followed(fs, Render(root + [dir, name]), Render(root)) == Some(Render(root + [dir, x]))
  {
    assert Names([dir, name]) && Names([dir, x]);
    FollowedResolvesNames(fs, root, [dir, name]);
    EnterDirectory(fs, root, dir, name);
    RelativeLink(fs, root, dir, name, x);
    ScopedIsRender(root, [dir, x]);
  }

  /** An absolute one leads on from the root. */
  lemma AbsoluteLinkBelowRoot(fs: FileSystem, root: seq<string>, dir: string, name: string, x: string)
    requires Names(root) && IsName(dir) && IsName(name) && IsName(x) && |x| < PATH_MAX - 1
    requires |Below(root)| < PATH_MAX - 1 && |Below(root + [dir, name])| < PATH_MAX
    requires Lookup(fs, Below(root + [dir])).Plain? && Lookup(fs, Below(root + [x])).Plain?
    requires fs(Below(root + [dir, name])) == Link("/" + x)
    ensures Followed(fs, Render(root + [dir, name]), Render(root)) == Some(Render(root + [x]))
  {
    assert Names([dir, name]) && Names([x]);
    FollowedResolvesNames(fs, root, [dir, name]);
    EnterDirectory(fs, root, dir, name);
    AbsoluteLink(fs, root, dir, name, x);
    ScopedIsRender(root, [x]);
  }

  lemma EnterDirectory(fs: FileSystem, root: seq<string>, dir: string, name: string)
    requires IsName(dir) && Lookup(fs, Below(root + [dir])).Plain?
    ensures Resolve(fs, root, [], [dir, name], 0) == Resolve(fs, root, [dir], [name], 0)
  {
    assert root + [] + [dir] == root + [dir] && [dir, name][1..] == [name] && [] + [dir] == [dir];
  }

  lemma RelativeLink(fs: FileSystem, root: seq<string>, dir: string, name: string, x: string)
    requires IsName(name) && IsName(x) && |x| < PATH_MAX - 1 && |Below(root + [dir, name])| < PATH_MAX
    requires fs(Below(root + [dir, name])) == Link(x) && Lookup(fs, Below(root + [dir, x])).Plain?
    ensures Resolve(fs, root, [dir], [name], 0) == Resolved([dir, x])
  {
    assert root + [dir] + [name] == root + [dir, name] && [name] + [] == [name] && [dir] + [x] == [dir, x];
    NameIsOnePiece(x);
    LinkIsSpliced(fs, root, [dir], name, [], 0, x);
    PlainName(fs, root, [dir], x, 1);
  }

  lemma AbsoluteLink(fs: FileSystem, root: seq<string>, dir: string, name: string, x: string)
    requires IsName(name) && IsName(x) && |x| < PATH_MAX - 1 && |Below(root + [dir, name])| < PATH_MAX
    requires fs(Below(root + [dir, name])) == Link("/" + x) && Lookup(fs, Below(root + [x])).Plain?
    ensures Resolve(fs, root, [dir], [name], 0) == Resolved([x])
  {
    assert root + [dir] + [name] == root + [dir, name] && [name] + [] == [name] && [] + [x] == [x];
    NameIsOnePiece(x);
    LeadingSlash(x);
    assert Split("/" + x) + [] == [""] + [x];
    LinkIsSpliced(fs, root, [dir], name, [], 0, "/" + x);
    ResolveEmptyPiece(fs, root, [], [x], 1);
    PlainName(fs, root, [], x, 1);
  }

  /** The substring test lets in every sibling whose name merely starts with the root's text, as
      "/homeless" for "/home", and the walk then resolves a path that was never asked for. */
  lemma SiblingIsAccepted(fs: FileSystem, root: seq<string>, ext: string)
    requires Names(root) && root != [] && IsName(ext) && |Below(root)| < PATH_MAX - 1
    requires forall p :: fs(p).Plain?
    ensures Followed(fs, Render(root) + ext, Render(root)) == Some(Render(root) + "/" + ext)
  {
    NonemptyBelow(root);
    RenderRoundTrip(root);
    SiblingText(Render(root), ext);
    PlainResolves(fs, root, [ext]);
    SiblingSpelled(Render(root), ext);
  }

  lemma SiblingSpelled(r: string, ext: string)
    requires r != "/"
    ensures Spell(r, Resolved([ext])) == Some(r + "/" + ext)
  {
    assert [ext][..0] == [] && Below([ext]) == "/" + ext;
    Assoc(r, "/", ext);
  }

  lemma SiblingText(r: string, ext: string)
    requires '/' !in ext && ext != ""
    ensures Contains(r + ext, r) && (r + ext)[|r|..] == ext && Split(ext) == [ext] && r + ext != r
  {
    assert OccursAt(r + ext, r, 0);
    SplitSegment(ext, |ext|);
    assert ext[..|ext|] == ext;
  }
}
