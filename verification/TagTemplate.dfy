/**
 A growable character buffer (src/utils/buffer/buffer.c) and the expansion of log tags into it
 (`parse_container_log_opt_syslog_tag` of src/cmd/options/opt_log.c): every "{{item}}" of a tag is
 replaced by what an item parser makes of the item.
 */
module GrowableBuffer {
  import opened Common

  const NUL: char := '\0'

  /** The part of a string before its first terminator. */
  function UpToNul(s: string): (r: string)
    ensures r <= s && NUL !in r
    ensures |r| < |s| ==> s[|r|] == NUL
  {
    if s == "" || s[0] == NUL then "" else [s[0]] + UpToNul(s[1..])
  }

  lemma {:induction false} NoNul(s: string)
    requires NUL !in s
    ensures UpToNul(s) == s
  {
    if s != "" { NoNul(s[1..]); }
  }

  /** A buffer as a value: its capacity and the text it holds. */
  datatype Space = Space(cap: nat, text: string)

  /** Which requests for memory, by size, the allocator grants. */
  type Allocator = nat -> bool

  /** Room for a string of n characters and its terminator: the capacity needed, if it can be had. A
      buffer that is too small is replaced by one at least twice as large. */
  function Room(s: Space, n: nat, allocates: Allocator): Option<nat>
    requires |s.text| <= s.cap
  {
    if n < s.cap - |s.text| then Some(s.cap)
    else
      var factor := Max(s.cap, n + 1);
      if factor <= SIZE_MAX / 2 && allocates(2 * factor) then Some(2 * factor) else None
  }

  /** The buffer after a string has been appended. */
  function Appended(s: Space, piece: string, allocates: Allocator): (r: Option<Space>)
    requires |s.text| <= s.cap
    ensures r.Some? ==> |r.value.text| < r.value.cap && r.value.text == s.text + piece
  {
    match Room(s, |piece|, allocates)
    case None => None
    case Some(cap) => Some(Space(cap, s.text + piece))
  }

  /** The buffer after several strings have been appended in order. */
  function AppendedAll(s: Space, pieces: seq<string>, allocates: Allocator): Option<Space>
    requires |s.text| <= s.cap
    decreases |pieces|
  {
    if pieces == [] then Some(s)
    else match Appended(s, pieces[0], allocates)
      case None => None
      case Some(s') => AppendedAll(s', pieces[1..], allocates)
  }

  function Joined(pieces: seq<string>): string {
    if pieces == [] then "" else pieces[0] + Joined(pieces[1..])
  }

  /** Whatever the pieces, the text is their concatenation. */
  lemma {:induction false} AppendedText(s: Space, pieces: seq<string>, allocates: Allocator)
    requires |s.text| <= s.cap
    ensures var r := AppendedAll(s, pieces, allocates); r.Some? ==> r.value.text == s.text + Joined(pieces)
    decreases |pieces|
  {
    if pieces == [] {
      AppendNothing(s.text);
    } else if Appended(s, pieces[0], allocates).Some? {
      AppendedText(Appended(s, pieces[0], allocates).value, pieces[1..], allocates);
      Assoc(s.text, pieces[0], Joined(pieces[1..]));
    }
  }

  /** Appending fails only for want of memory, or for a text of half the address space: no more is asked
      for than twice the size of the text with its terminator. */
  lemma {:induction false} AppendedWhenSmall(s: Space, pieces: seq<string>, allocates: Allocator)
    requires |s.text| <= s.cap && |s.text| + |Joined(pieces)| + 1 <= SIZE_MAX / 2
    requires forall n: nat :: n <= 2 * (|s.text| + |Joined(pieces)| + 1) ==> allocates(n)
    ensures AppendedAll(s, pieces, allocates).Some?
    decreases |pieces|
  {
    if pieces != [] {
      var r := Appended(s, pieces[0], allocates);
      assert r.Some?;
      AppendedWhenSmall(r.value, pieces[1..], allocates);
    }
  }

  class Buffer {
    const allocates: Allocator
    var contents: array<char>
    var bytesUsed: nat
    /** How many bytes all calls of Grow have copied so far. */
    ghost var copied: nat

    /** There is always room for the terminator, which is in place, and growing has never cost more
        than the space now held. */
    ghost predicate Valid()
      reads this, contents
    {
      && bytesUsed < contents.Length && contents[bytesUsed] == NUL && NUL !in contents[..bytesUsed]
      && copied < contents.Length
    }

    /** Everything appended so far. */
    ghost function Text(): string
      requires Valid()
      reads this, contents
    {
      contents[..bytesUsed]
    }

    ghost function Abs(): (s: Space)
      requires Valid()
      reads this, contents
      ensures |s.text| < s.cap
    {
      Space(contents.Length, Text())
    }

    /** `buffer_alloc`, once the request for memory has been granted; a size of zero is refused. */
    constructor (initialSize: nat, allocates: Allocator)
      requires initialSize > 0
      ensures Valid() && Abs() == Space(initialSize, "") && copied == 0 && fresh(contents) && this.allocates == allocates
    {
      this.allocates := allocates;
      contents := new char[initialSize](_ => NUL);
      bytesUsed, copied := 0, 0;
    }

    /** `buffer_grow`: at least doubles, and copies the whole old space. */
    method Grow(minSize: nat) returns (ok: bool)
      requires Valid()
      modifies this`contents, this`copied
      ensures Valid() && Text() == old(Text()) && bytesUsed == old(bytesUsed)
      ensures var factor := Max(old(contents.Length), minSize); ok <==> factor <= SIZE_MAX / 2 && allocates(2 * factor)
      ensures ok ==> contents.Length == 2 * Max(old(contents.Length), minSize) && fresh(contents)
      ensures ok ==> copied == old(copied) + old(contents.Length)
      ensures !ok ==> contents == old(contents) && copied == old(copied)
    {
      var factor := contents.Length;
      if factor < minSize {
        factor := minSize;
      }
      if factor > SIZE_MAX / 2 {
        return false;
      }
      if !allocates(2 * factor) {
        return false;
      }
      var tmp := new char[2 * factor](_ => NUL);
      forall i | 0 <= i < contents.Length { tmp[i] := contents[i]; }
      assert tmp[..bytesUsed] == contents[..bytesUsed];
      copied := copied + contents.Length;
      contents := tmp;
      return true;
    }

    /** `buffer_append`: copies at most `len` characters, stopping at a terminator. */
    method Append(append: string, len: nat) returns (ok: bool)
      requires Valid() && len <= |append|
      modifies this, contents
      ensures Valid() && (contents == old(contents) || fresh(contents))
      ensures ok <==> Room(old(Abs()), len, allocates).Some?
      ensures !ok ==> Abs() == old(Abs())
      ensures ok ==> Abs() == Space(Room(old(Abs()), len, allocates).value, old(Text()) + UpToNul(append[..len]))
    {
      if contents.Length - bytesUsed < len + 1 {
        ok := Grow(len + 1);
        if !ok {
          return;
        }
      }
      var n := CopyCharacters(append, len);
      bytesUsed := bytesUsed + n;
      label placed:
      contents[bytesUsed] := NUL;
      assert contents[..bytesUsed] == old@placed(contents[..bytesUsed]);
      return true;
    }

    /** The contents read as a C string: everything appended so far. */
    method AsString() returns (s: string)
      requires Valid()
      ensures s == UpToNul(contents[..]) == Text()
    {
      UpToNulIs(contents[..], bytesUsed);
      assert contents[..][..bytesUsed] == contents[..bytesUsed];
      s := contents[..bytesUsed];
    }

    /** The copy loop. */
    method CopyCharacters(append: string, len: nat) returns (n: nat)
      requires len <= |append| && bytesUsed + len < contents.Length
      modifies contents
      ensures n <= len && contents[..bytesUsed + n] == old(contents[..bytesUsed]) + UpToNul(append[..len])
    {
      n := 0;
      AppendNothing(contents[..bytesUsed]);
      while n < len && append[n] != NUL
        invariant 0 <= n <= len && NUL !in append[..n]
        invariant contents[..bytesUsed + n] == old(contents[..bytesUsed]) + append[..n]
      {
        PutOne(append[n], bytesUsed + n);
        assert append[..n + 1] == append[..n] + [append[n]];
        Assoc(old(contents[..bytesUsed]), append[..n], [append[n]]);
        n := n + 1;
      }
      UpToNulIs(append[..len], n);
      assert append[..len][..n] == append[..n];
    }

    method PutOne(c: char, at: nat)
      requires at < contents.Length
      modifies contents
      ensures contents[..at + 1] == old(contents[..at]) + [c]
    {
      contents[at] := c;
    }
  }

  lemma UpToNulIs(s: string, n: nat)
    requires n <= |s| && (forall i :: 0 <= i < n ==> s[i] != NUL) && (n < |s| ==> s[n] == NUL)
    ensures UpToNul(s) == s[..n]
  {
    var r := UpToNul(s);
    assert r == s[..|r|];
    assert forall i :: 0 <= i < |r| ==> r[i] != NUL && r[i] == s[i];
  }
}

module TagTemplate {
  import opened Common
  import opened GrowableBuffer

  // ----- the specification

  predicate PairAt(s: string, c: char, j: int) { 0 <= j < |s| - 1 && s[j] == c && s[j + 1] == c }

  /** The first position where c stands twice in a row. */
  function FindPair(s: string, c: char): (r: Option<nat>)
    ensures r.Some? ==> PairAt(s, c, r.value) && forall j :: j < r.value ==> !PairAt(s, c, j)
    ensures r.None? ==> forall j :: !PairAt(s, c, j)
  {
    if |s| < 2 then None
    else if s[0] == c && s[1] == c then Some(0)
    else
      assert forall j :: PairAt(s, c, j) ==> PairAt(s[1..], c, j - 1);
      match FindPair(s[1..], c)
      case None => None
      case Some(k) =>
        assert forall j :: j < k + 1 && PairAt(s, c, j) ==> PairAt(s[1..], c, j - 1);
        Some(k + 1)
  }

  type ItemParser = string -> Option<string>

  function Prepend(s: string, t: Option<string>): Option<string> { if t.None? then None else Some(s + t.value) }

  /** The expansion of a tag: items are replaced from the left; None when one is not closed or not known. */
  function Expand(tag: string, op: ItemParser): Option<string>
    decreases |tag|
  {
    match FindPair(tag, '{')
    case None => Some(tag)
    case Some(k) =>
      var rest := tag[k + 2..];
      match Item(rest, op)
      case None => None
      case Some((value, n)) => Prepend(tag[..k] + value, Expand(rest[n..], op))
  }

  /** The value of the item that s starts with, and the length of the item with its closing braces. */
  function Item(s: string, op: ItemParser): (r: Option<(string, nat)>)
    ensures r.Some? ==> 2 <= r.value.1 <= |s|
  {
    match FindPair(s, '}')
    case None => None
    case Some(m) => match op(s[..m]) case None => None case Some(value) => Some((value, m + 2))
  }

  /** The strings the expansion appends, in order: literal parts and values, up to the end of the tag or
      to the first item that is not closed or not known. */
  function Pieces(tag: string, op: ItemParser): seq<string>
    decreases |tag|
  {
    if tag == "" then []
    else
      match FindPair(tag, '{')
      case None => [tag]
      case Some(k) =>
        var rest := tag[k + 2..];
        match Item(rest, op)
        case None => [tag[..k]]
        case Some((value, n)) => [tag[..k], value] + Pieces(rest[n..], op)
  }

  /** The pieces of a tag that expands spell its expansion. */
  lemma {:induction false} PiecesSpell(tag: string, op: ItemParser)
    ensures Expand(tag, op).Some? ==> Joined(Pieces(tag, op)) == Expand(tag, op).value
    decreases |tag|
  {
    if FindPair(tag, '{').None? {
      PlainSpells(tag, op);
    } else if Expand(tag, op).Some? {
      var literal, value, tail := FirstItem(tag, op);
      PiecesSpell(tail, op);
      SpellItem(literal, value, Pieces(tail, op), Expand(tail, op));
    }
  }

  lemma PlainSpells(tag: string, op: ItemParser)
    requires FindPair(tag, '{').None?
    ensures Joined(Pieces(tag, op)) == tag && Expand(tag, op) == Some(tag)
  {
    JoinedOne(tag);
  }

  lemma FirstItem(tag: string, op: ItemParser) returns (literal: string, value: string, tail: string)
    requires FindPair(tag, '{').Some? && Expand(tag, op).Some?
    ensures |tail| < |tag| && Pieces(tag, op) == [literal, value] + Pieces(tail, op)
    ensures Expand(tag, op) == Prepend(literal + value, Expand(tail, op))
  {
    var open := FindPair(tag, '{').value;
    var item := Item(tag[open + 2..], op).value;
    literal, value, tail := tag[..open], item.0, tag[open + 2..][item.1..];
  }

  lemma SpellItem(literal: string, value: string, ps: seq<string>, rest: Option<string>)
    requires rest.Some? ==> Joined(ps) == rest.value
    ensures rest.Some? ==> Some(Joined([literal, value] + ps)) == Prepend(literal + value, rest)
  {
    JoinedTwo(literal, value, ps);
  }

  lemma JoinedOne(a: string)
    ensures Joined([a]) == a
  {
    assert [a][1..] == [] && Joined([]) == "";
    AppendNothing(a);
  }

  lemma JoinedTwo(a: string, b: string, ps: seq<string>)
    ensures Joined([a, b] + ps) == a + b + Joined(ps)
  {
    assert ([a, b] + ps)[1..] == [b] + ps && ([b] + ps)[1..] == ps;
    Assoc(a, b, Joined(ps));
  }

  /** Item parsers deal in C strings. */
  ghost predicate GivesCStrings(op: ItemParser) { forall s :: op(s).Some? ==> NUL !in op(s).value }

  /** No pair of c in s, nor one across its end when c follows. */
  predicate NoPair(s: string, c: char) { FindPair(s + [c], c).None? }

  /** A literal part and an item at the front of a tag expand to the literal part and the item's value,
      followed by the expansion of the rest. */
  lemma ExpandTemplate(literal: string, item: string, rest: string, op: ItemParser)
    requires NoPair(literal, '{') && NoPair(item, '}')
    ensures Expand(literal + "{{" + (item + "}}" + rest), op) ==
            if op(item).None? then None else Prepend(literal + op(item).value, Expand(rest, op))
  {
    var tail := item + "}}" + rest;
    var tag := literal + "{{" + tail;
    PairAfter(literal, '{', tail);
    assert tag[..|literal|] == literal && tag[|literal| + 2..] == tail;
    PairAfter(item, '}', rest);
    assert tail[..|item|] == item && tail[|item| + 2..] == rest;
  }

  /** An item that is not closed makes the whole expansion fail. */
  lemma UnclosedFails(literal: string, rest: string, op: ItemParser)
    requires NoPair(literal, '{') && forall j :: !PairAt(rest, '}', j)
    ensures Expand(literal + "{{" + rest, op).None?
  {
    var tag := literal + "{{" + rest;
    PairAfter(literal, '{', rest);
    assert tag[|literal| + 2..] == rest;
  }

  /** A tag without items is its own expansion. */
  lemma PlainTag(tag: string, op: ItemParser)
    requires forall j :: !PairAt(tag, '{', j)
    ensures Expand(tag, op) == Some(tag)
  {
    assert FindPair(tag, '{').None?;
  }

  lemma PairAfter(s: string, c: char, rest: string)
    requires NoPair(s, c)
    ensures FindPair(s + [c, c] + rest, c) == Some(|s|)
  {
    var t := s + [c, c] + rest;
    assert PairAt(t, c, |s|);
    forall j | j < |s| ensures !PairAt(t, c, j) {
      assert PairAt(t, c, j) ==> PairAt(s + [c], c, j);
    }
  }

  // ----- the expansion in place

  /** The C string that starts at position p of an array. */
  ghost function CString(a: seq<char>, p: nat): string
    requires p <= |a|
  {
    UpToNul(a[p..])
  }

  /** `strstr(a + p, "cc")`. */
  method StrStr(a: array<char>, p: nat, c: char) returns (r: Option<nat>)
    requires p < a.Length && a[a.Length - 1] == NUL && c != NUL
    ensures match FindPair(CString(a[..], p), c) case None => r.None? case Some(k) => r == Some(p + k)
  {
    var i := p;
    ghost var s := CString(a[..], p);
    assert forall j :: 0 <= j < |s| ==> s[j] == a[p + j];
    while a[i] != NUL
      invariant p <= i < a.Length && i - p <= |s|
      invariant forall j :: j < i - p ==> !PairAt(s, c, j)
      decreases a.Length - i
    {
      assert a[..][p..][i - p] == a[i];
      if a[i] == c && a[i + 1] == c {
        assert PairAt(s, c, i - p);
        return Some(i);
      }
      i := i + 1;
    }
    return None;
  }

  /** The string a C function reads from position p. */
  method ReadCString(a: array<char>, p: nat) returns (s: string)
    requires p < a.Length && a[a.Length - 1] == NUL
    ensures s == CString(a[..], p)
  {
    var i := p;
    while a[i] != NUL
      invariant p <= i < a.Length && forall j :: p <= j < i ==> a[j] != NUL
      decreases a.Length - i
    {
      i := i + 1;
    }
    UpToNulIs(a[..][p..], i - p);
    assert a[..][p..][..i - p] == a[p..i];
    return a[p..i];
  }

  /** The tag in its working copy: the characters and the terminator. */
  ghost predicate Restored(work: array<char>, tag: string)
    reads work
  {
    work[..] == tag + [NUL]
  }

  /** The working copy with the character at position `end` overwritten by a terminator reads as the
      part of the tag from p to `end`. */
  lemma CutString(work: seq<char>, tag: string, p: nat, end: nat)
    requires NUL !in tag && p <= end <= |tag| && work == (tag + [NUL])[end := NUL]
    ensures CString(work, p) == tag[p..end]
  {
    assert forall j :: 0 <= j < end - p ==> work[p..][j] == tag[p + j];
    UpToNulIs(work[p..], end - p);
    assert work[p..][..end - p] == tag[p..end];
  }

  datatype Step = Finished | Next(prefix: nat) | Failed

  /** What the step from `prefix`, which took the buffer from s0 to s1 and added some text, means for the
      expansion of the rest of the tag. */
  ghost predicate StepIsRight(step: Step, tag: string, prefix: nat, op: ItemParser, s0: Space, s1: Space, added: string, al: Allocator)
    requires prefix <= |tag| && |s0.text| <= s0.cap && |s1.text| <= s1.cap
  {
    var tail := tag[prefix..];
    var all := AppendedAll(s0, Pieces(tail, op), al);
    match step
    case Failed => all.None? || Expand(tail, op).None?
    case Finished => all == Some(s1) && Expand(tail, op) == Some(added) && s1.text == s0.text + added
    case Next(p) =>
      && prefix < p <= |tag|
      && all == AppendedAll(s1, Pieces(tag[p..], op), al)
      && Expand(tail, op) == Prepend(added, Expand(tag[p..], op)) && s1.text == s0.text + added
  }

  /** Appending a string succeeds exactly when the buffer has or gets room for it. */
  ghost predicate AppendIsRight(ok: bool, s0: Space, s1: Space, piece: string, al: Allocator)
    requires |s0.text| <= s0.cap
  {
    Appended(s0, piece, al) == if ok then Some(s1) else None
  }

  /** Appends the string that starts at position p of the working copy, up to `end`, where a terminator
      stands. */
  method AppendString(bf: Buffer, work: array<char>, p: nat, ghost tag: string, ghost end: nat) returns (ok: bool)
    requires bf.Valid() && NUL !in tag && p <= end <= |tag| && work[..] == (tag + [NUL])[end := NUL] && bf.contents != work
    modifies bf, bf.contents
    ensures bf.Valid() && (bf.contents == old(bf.contents) || fresh(bf.contents))
    ensures AppendIsRight(ok, old(bf.Abs()), bf.Abs(), tag[p..end], bf.allocates)
  {
    CutString(work[..], tag, p, end);
    var s := ReadCString(work, p);
    ok := AppendItem(bf, s);
  }

  /** The item between the pairs of braces, handed to the parser with its end cut off in place. */
  method ParseItem(work: array<char>, curr: nat, end: nat, op: ItemParser, ghost tag: string) returns (item: Option<string>)
    requires NUL !in tag && curr <= end < |tag| && tag[end] == '}' && Restored(work, tag)
    modifies work
    ensures item == op(tag[curr..end])
    ensures item.Some? ==> Restored(work, tag)
  {
    work[end] := NUL;
    CutString(work[..], tag, curr, end);
    var s := ReadCString(work, curr);
    item := op(s);
    if item.Some? {
      work[end] := '}';
    }
  }

  /** `strstr` on the restored working copy. */
  method FindInTag(work: array<char>, p: nat, c: char, ghost tag: string) returns (r: Option<nat>)
    requires NUL !in tag && p <= |tag| && Restored(work, tag) && c != NUL
    ensures match FindPair(tag[p..], c) case None => r.None? case Some(k) => r == Some(p + k)
    ensures r.Some? ==> p <= r.value && r.value + 2 <= |tag| && tag[r.value] == c
  {
    WholeString(work[..], tag, p);
    r := StrStr(work, p, c);
  }

  /** Appends a whole C string. */
  method AppendItem(bf: Buffer, item: string) returns (ok: bool)
    requires bf.Valid() && NUL !in item
    modifies bf, bf.contents
    ensures bf.Valid() && (bf.contents == old(bf.contents) || fresh(bf.contents))
    ensures AppendIsRight(ok, old(bf.Abs()), bf.Abs(), item, bf.allocates)
  {
    NoNul(item);
    assert item[..|item|] == item;
    ok := bf.Append(item, |item|);
  }

  /** The second half of the loop body: the item that starts at `curr`. */
  method ExpandItem(bf: Buffer, work: array<char>, curr: nat, op: ItemParser, ghost tag: string)
    returns (next: Option<nat>, ghost value: string)
    requires bf.Valid() && NUL !in tag && GivesCStrings(op) && curr <= |tag| && Restored(work, tag) && bf.contents != work
    modifies bf, bf.contents, work
    ensures bf.Valid() && (bf.contents == old(bf.contents) || fresh(bf.contents))
    ensures match Item(tag[curr..], op)
            case None => next.None?
            case Some((v, n)) => value == v && AppendIsRight(next.Some?, old(bf.Abs()), bf.Abs(), v, bf.allocates)
                                 && (next.Some? ==> next.value == curr + n)
    ensures next.Some? ==> Restored(work, tag)
  {
    value := "";
    var close := FindInTag(work, curr, '}', tag);
    if close.None? {
      return None, value;
    }
    assert tag[curr..][..close.value - curr] == tag[curr..close.value];
    var item := ParseItem(work, curr, close.value, op, tag);
    if item.None? {
      return None, value;
    }
    var ok := AppendItem(bf, item.value);
    return if ok then Some(close.value + 2) else None, item.value;
  }

  /** The body of the loop: the text up to the next item, and the item. */
  method ExpandStep(bf: Buffer, work: array<char>, prefix: nat, op: ItemParser, ghost tag: string)
    returns (step: Step, ghost added: string)
    requires bf.Valid() && NUL !in tag && GivesCStrings(op) && prefix < |tag| && Restored(work, tag) && bf.contents != work
    modifies bf, bf.contents, work
    ensures bf.Valid() && (bf.contents == old(bf.contents) || fresh(bf.contents))
    ensures StepIsRight(step, tag, prefix, op, old(bf.Abs()), bf.Abs(), added, bf.allocates)
    ensures step.Next? ==> Restored(work, tag)
  {
    ghost var s0 := bf.Abs();
    added := "";
    var open := FindInTag(work, prefix, '{', tag);
    if open.None? {
      var ok := AppendRest(bf, work, prefix, tag);
      LastStep(tag, prefix, op, s0, bf.Abs(), ok, bf.allocates);
      return if ok then Finished else Failed, tag[prefix..];
    }
    var ok := AppendUpTo(bf, work, prefix, open.value, tag);
    ghost var s1 := bf.Abs();
    if !ok {
      LiteralFails(tag, prefix, open.value, op, s0, s1, bf.allocates);
      return Failed, added;
    }
    var next;
    ghost var value;
    next, value := ExpandItem(bf, work, open.value + 2, op, tag);
    added := tag[prefix..open.value] + value;
    step := if next.None? then Failed else Next(next.value);
    ItemStep(tag, prefix, open.value, op, s0, s1, bf.Abs(), next, value, bf.allocates);
  }

  lemma LastStep(tag: string, prefix: nat, op: ItemParser, s0: Space, s1: Space, ok: bool, al: Allocator)
    requires prefix < |tag| && FindPair(tag[prefix..], '{').None? && |s0.text| <= s0.cap && |s1.text| <= s1.cap
    requires AppendIsRight(ok, s0, s1, tag[prefix..], al)
    ensures StepIsRight(if ok then Finished else Failed, tag, prefix, op, s0, s1, tag[prefix..], al)
  {
    var tail := tag[prefix..];
    assert Pieces(tail, op) == [tail] && [tail][1..] == [];
  }

  lemma LiteralFails(tag: string, prefix: nat, open: nat, op: ItemParser, s0: Space, s1: Space, al: Allocator)
    requires prefix <= open && open + 2 <= |tag| && FindPair(tag[prefix..], '{') == Some(open - prefix)
    requires |s0.text| <= s0.cap && |s1.text| <= s1.cap && AppendIsRight(false, s0, s1, tag[prefix..open], al)
    ensures StepIsRight(Failed, tag, prefix, op, s0, s1, "", al)
  {
    var t := tag[prefix..];
    assert t[..open - prefix] == tag[prefix..open];
    assert Pieces(t, op)[0] == tag[prefix..open];
  }

  /** What a literal part and an item at `prefix` contribute to pieces and expansion. */
  lemma ItemPieces(tag: string, prefix: nat, open: nat, op: ItemParser)
    requires prefix <= open && open + 2 <= |tag| && FindPair(tag[prefix..], '{') == Some(open - prefix)
    ensures var tail, literal := tag[prefix..], tag[prefix..open];
            match Item(tag[open + 2..], op)
            case None => Pieces(tail, op) == [literal] && Expand(tail, op).None?
            case Some((v, n)) =>
              && Pieces(tail, op) == [literal, v] + Pieces(tag[open + 2 + n..], op)
              && Expand(tail, op) == Prepend(literal + v, Expand(tag[open + 2 + n..], op))
  {
    var t := tag[prefix..];
    assert t[open - prefix + 2..] == tag[open + 2..] && t[..open - prefix] == tag[prefix..open];
    var item := Item(tag[open + 2..], op);
    if item.Some? { assert tag[open + 2..][item.value.1..] == tag[open + 2 + item.value.1..]; }
  }

  lemma ItemStep(tag: string, prefix: nat, open: nat, op: ItemParser, s0: Space, s1: Space, s2: Space,
                 next: Option<nat>, value: string, al: Allocator)
    requires prefix <= open && open + 2 <= |tag| && FindPair(tag[prefix..], '{') == Some(open - prefix)
    requires |s0.text| <= s0.cap && |s1.text| <= s1.cap && |s2.text| <= s2.cap
    requires AppendIsRight(true, s0, s1, tag[prefix..open], al)
    requires match Item(tag[open + 2..], op)
             case None => next.None?
             case Some((v, n)) => value == v && AppendIsRight(next.Some?, s1, s2, v, al)
                                  && (next.Some? ==> next.value == open + 2 + n)
    ensures StepIsRight(if next.None? then Failed else Next(next.value), tag, prefix, op, s0, s2, tag[prefix..open] + value, al)
  {
    ItemPieces(tag, prefix, open, op);
    var literal := tag[prefix..open];
    var item := Item(tag[open + 2..], op);
    if item.Some? {
      TwoPieces(s0, s1, literal, value, Pieces(tag[open + 2 + item.value.1..], op), al);
      Assoc(s0.text, literal, value);
    }
  }

  lemma TwoPieces(s: Space, s1: Space, a: string, b: string, ps: seq<string>, al: Allocator)
    requires |s.text| <= s.cap && Appended(s, a, al) == Some(s1)
    ensures var r := Appended(s1, b, al);
            AppendedAll(s, [a, b] + ps, al) == if r.None? then None else AppendedAll(r.value, ps, al)
  {
    assert ([a, b] + ps)[1..] == [b] + ps && ([b] + ps)[1..] == ps;
  }

  method AppendRest(bf: Buffer, work: array<char>, prefix: nat, ghost tag: string) returns (ok: bool)
    requires bf.Valid() && NUL !in tag && prefix <= |tag| && Restored(work, tag) && bf.contents != work
    modifies bf, bf.contents
    ensures bf.Valid() && (bf.contents == old(bf.contents) || fresh(bf.contents)) && Restored(work, tag)
    ensures AppendIsRight(ok, old(bf.Abs()), bf.Abs(), tag[prefix..], bf.allocates)
  {
    WholeString(work[..], tag, prefix);
    ok := AppendString(bf, work, prefix, tag, |tag|);
    assert tag[prefix..|tag|] == tag[prefix..];
  }

  /** The text before an item, cut off in place at the opening brace and restored. */
  method AppendUpTo(bf: Buffer, work: array<char>, prefix: nat, curr: nat, ghost tag: string) returns (ok: bool)
    requires bf.Valid() && NUL !in tag && prefix <= curr < |tag| && tag[curr] == '{' && Restored(work, tag) && bf.contents != work
    modifies bf, bf.contents, work
    ensures bf.Valid() && (bf.contents == old(bf.contents) || fresh(bf.contents))
    ensures AppendIsRight(ok, old(bf.Abs()), bf.Abs(), tag[prefix..curr], bf.allocates)
    ensures ok ==> Restored(work, tag)
  {
    work[curr] := NUL;
    ok := AppendString(bf, work, prefix, tag, curr);
    if ok {
      work[curr] := '{';
    }
  }

  lemma WholeString(work: seq<char>, tag: string, p: nat)
    requires NUL !in tag && work == tag + [NUL] && p <= |tag|
    ensures CString(work, p) == tag[p..] && work == (tag + [NUL])[|tag| := NUL]
  {
    CutString(work, tag, p, |tag|);
  }

  /** What the parser answers: nothing for a missing or empty tag and when memory runs out, the expansion
      otherwise. */
  function Parsed(tag: Option<string>, op: ItemParser, allocates: Allocator): Option<string> {
    if tag.None? || tag.value == "" || !allocates(|tag.value|) then None
    else if AppendedAll(Space(|tag.value|, ""), Pieces(tag.value, op), allocates).None? then None
    else Expand(tag.value, op)
  }

  /** Where the allocator grants the tag's size and every size up to twice that of the text produced, the
      answer is the expansion: parsing fails exactly on an item that is not closed or not known. */
  lemma ParsedIsExpansion(tag: string, op: ItemParser, allocates: Allocator)
    requires tag != "" && allocates(|tag|) && |Joined(Pieces(tag, op))| + 1 <= SIZE_MAX / 2
    requires forall n: nat :: n <= 2 * (|Joined(Pieces(tag, op))| + 1) ==> allocates(n)
    ensures Parsed(Some(tag), op, allocates) == Expand(tag, op)
  {
    AppendedWhenSmall(Space(|tag|, ""), Pieces(tag, op), allocates);
  }

  /** `parse_container_log_opt_syslog_tag`. */
  method ParseSyslogTag(tag: Option<string>, op: ItemParser, allocates: Allocator) returns (r: Option<string>)
    requires tag.Some? ==> NUL !in tag.value
    requires GivesCStrings(op)
    ensures r == Parsed(tag, op, allocates)
  {
    if tag.None? || |tag.value| == 0 || !allocates(|tag.value|) {
      return None;
    }
    var t := tag.value;
    var bf := new Buffer(|t|, allocates);
    var work := new char[|t| + 1](i requires 0 <= i <= |t| => if i < |t| then t[i] else NUL);
    assert work[..] == t + [NUL];
    var prefix := 0;
    PrependEmpty(Expand(t, op));
    assert t[0..] == t;
    while prefix < |t|
      invariant 0 <= prefix <= |t| && bf.Valid() && fresh(bf) && fresh(bf.contents) && bf.contents != work
      invariant Restored(work, t) && bf.allocates == allocates
      invariant Expand(t, op) == Prepend(bf.Text(), Expand(t[prefix..], op))
      invariant AppendedAll(Space(|t|, ""), Pieces(t, op), allocates) == AppendedAll(bf.Abs(), Pieces(t[prefix..], op), allocates)
      decreases |t| - prefix
    {
      var step;
      ghost var added;
      ghost var before := bf.Text();
      step, added := ExpandStep(bf, work, prefix, op, t);
      match step {
        case Failed => return None;
        case Finished =>
          var out := bf.AsString();
          return Some(out);
        case Next(p) =>
          Regroup(before, added, Expand(t[p..], op));
          prefix := p;
      }
    }
    assert t[prefix..] == "" && bf.Text() + "" == bf.Text();
    var out := bf.AsString();
    return Some(out);
  }

  lemma PrependEmpty(t: Option<string>)
    ensures Prepend("", t) == t
  {
    if t.Some? { assert "" + t.value == t.value; }
  }

  lemma Regroup(a: string, b: string, t: Option<string>)
    ensures Prepend(a, Prepend(b, t)) == Prepend(a + b, t)
  {
    if t.Some? { assert a + (b + t.value) == a + b + t.value; }
  }
}
