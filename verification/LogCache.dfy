/**
 The line cache in front of a container's log (`shim_write_container_log_file` of
 src/cmd/isulad-shim/terminal.c). Reads of arbitrary size arrive; whole lines leave as records,
 and a line longer than the cache leaves in chunks of exactly the cache's size.

 The capacity of the cache and the largest read are parameters here; the shim uses
 BUF_CACHE_SIZE and DEFAULT_IO_COPY_BUF.
 */
module LogCache {
  import opened Common

  const BUF_CACHE_SIZE: nat := 32 * 1024
  const DEFAULT_IO_COPY_BUF: nat := 16 * 1024

  const NEWLINE: char := '\n'

  // ----- records of a stream

  /** There is no newline in the first n bytes. */
  predicate Quiet(s: string, n: nat) { forall i :: 0 <= i < n && i < |s| ==> s[i] != NEWLINE }

  /** The position behind the first newline, or 0 when there is none. */
  function LineEnd(s: string): (k: nat)
    ensures k <= |s|
    ensures k == 0 ==> Quiet(s, |s|)
    ensures k > 0 ==> s[k - 1] == NEWLINE && Quiet(s, k - 1)
  {
    if s == [] then 0
    else if s[0] == NEWLINE then 1
    else
      var k := LineEnd(s[1..]);
      assert forall i :: 1 <= i < |s| ==> s[i] == s[1..][i - 1];
      if k == 0 then 0 else k + 1
  }

  /** The length of the first record of a stream, for a cache of `cap` bytes; 0 when the stream
      does not hold a whole record yet. */
  function RecordLength(s: string, cap: nat): (k: nat)
    ensures k <= |s|
  {
    var k := LineEnd(s);
    if 0 < k <= cap then k else if cap <= |s| then cap else 0
  }

  /** The records of a stream and the bytes behind the last of them. The definition knows nothing
      of reads or caches. */
  function Records(s: string, cap: nat): seq<string>
    requires cap > 0
    decreases |s|
  {
    var k := RecordLength(s, cap);
    if k == 0 then [] else [s[..k]] + Records(s[k..], cap)
  }

  function Leftover(s: string, cap: nat): string
    requires cap > 0
    decreases |s|
  {
    var k := RecordLength(s, cap);
    if k == 0 then s else Leftover(s[k..], cap)
  }

  function Flatten(rs: seq<string>): string {
    if rs == [] then [] else rs[0] + Flatten(rs[1..])
  }

  /** A record is a line, with its only newline at its end, or a full cache without any. */
  predicate IsRecord(r: string, cap: nat) {
    || (0 < |r| <= cap && r[|r| - 1] == NEWLINE && Quiet(r, |r| - 1))
    || (|r| == cap && Quiet(r, cap))
  }

  /** Records and leftover together are the stream. */
  lemma {:induction false} RecordsConserve(s: string, cap: nat)
    requires cap > 0
    ensures Flatten(Records(s, cap)) + Leftover(s, cap) == s
    decreases |s|
  {
    var k := RecordLength(s, cap);
    if k == 0 {
      assert Flatten([]) + s == s;
    } else {
      RecordsConserve(s[k..], cap);
      ConserveStep(s, k, Records(s[k..], cap), Leftover(s[k..], cap));
    }
  }

  lemma ConserveStep(s: string, k: nat, rs: seq<string>, rest: string)
    requires k <= |s| && Flatten(rs) + rest == s[k..]
    ensures Flatten([s[..k]] + rs) + rest == s
  {
    FlattenCons(s[..k], rs, rest);
    assert s[..k] + s[k..] == s;
  }

  /** The leftover holds no whole record. */
  lemma {:induction false} LeftoverIsShort(s: string, cap: nat)
    requires cap > 0
    ensures Quiet(Leftover(s, cap), cap) && |Leftover(s, cap)| < cap
    decreases |s|
  {
    var k := RecordLength(s, cap);
    if k > 0 { LeftoverIsShort(s[k..], cap); }
  }

  lemma {:induction false} RecordsAreRecords(s: string, cap: nat)
    requires cap > 0
    ensures forall r :: r in Records(s, cap) ==> IsRecord(r, cap)
    decreases |s|
  {
    var k := RecordLength(s, cap);
    if k > 0 {
      RecordsAreRecords(s[k..], cap);
      FirstRecord(s, cap);
    }
  }

  lemma FlattenCons(r: string, rs: seq<string>, rest: string)
    ensures Flatten([r] + rs) + rest == r + (Flatten(rs) + rest)
  {
    assert ([r] + rs)[1..] == rs;
    Assoc(r, Flatten(rs), rest);
  }

  lemma FirstRecord(s: string, cap: nat)
    requires cap > 0 && RecordLength(s, cap) > 0
    ensures IsRecord(s[..RecordLength(s, cap)], cap)
  {
  }

  /** A first record stays the first record whatever follows. */
  lemma {:induction false} RecordLengthStable(s: string, t: string, cap: nat)
    requires cap > 0 && RecordLength(s, cap) > 0
    ensures RecordLength(s + t, cap) == RecordLength(s, cap)
  {
    LineEndConcat(s, t);
  }

  lemma {:induction false} LineEndConcat(s: string, t: string)
    ensures LineEnd(s) > 0 ==> LineEnd(s + t) == LineEnd(s)
    ensures LineEnd(s) == 0 ==> LineEnd(s + t) == if LineEnd(t) == 0 then 0 else |s| + LineEnd(t)
  {
    if s == [] {
      assert s + t == t;
    } else {
      LineEndConcat(s[1..], t);
      assert (s + t)[1..] == s[1..] + t;
    }
  }

  /** Splitting into records can be done piecewise: the records of the beginning, then those of
      what it leaves together with the rest. This is why the way the stream is cut into reads
      does not matter. */
  lemma {:induction false} RecordsConcat(s: string, t: string, cap: nat)
    requires cap > 0
    ensures Records(s + t, cap) == Records(s, cap) + Records(Leftover(s, cap) + t, cap)
    ensures Leftover(s + t, cap) == Leftover(Leftover(s, cap) + t, cap)
    decreases |s|
  {
    var k := RecordLength(s, cap);
    if k > 0 {
      RecordLengthStable(s, t, cap);
      assert (s + t)[..k] == s[..k] && (s + t)[k..] == s[k..] + t;
      RecordsConcat(s[k..], t, cap);
      Assoc([s[..k]], Records(s[k..], cap), Records(Leftover(s, cap) + t, cap));
    }
  }

  // ----- one call

  /** The lines of a cache, each with its newline, and what follows the last newline. */
  function Lines(s: string): seq<string> {
    var k := LineEnd(s);
    if k == 0 then [] else [s[..k]] + Lines(s[k..])
  }

  function AfterLines(s: string): string {
    var k := LineEnd(s);
    if k == 0 then s else AfterLines(s[k..])
  }

  datatype State = State(cache: string, out: seq<string>)

  function Min(a: int, b: int): int { if a < b then a else b }

  /** What a call with the bytes `buf` does: fill the cache, send out its lines, or the whole of
      it when it is full and has none, and put the rest of the read behind what is left. */
  function Write(s: State, buf: string, cap: nat): State
    requires |s.cache| <= cap
  {
    var taken := Min(|buf|, cap - |s.cache|);
    var full := s.cache + buf[..taken];
    // a read that meets a full cache is not copied at all, not even behind the lines
    var left := if taken > 0 then buf[taken..] else [];
    var d := Drain(State(full, s.out), cap);
    State(d.cache + left, d.out)
  }

  /** The sending part: the lines leave, or the whole cache when it is full and has none. */
  function Drain(s: State, cap: nat): State {
    if Lines(s.cache) == [] && |s.cache| == cap then State([], s.out + [s.cache])
    else State(AfterLines(s.cache), s.out + Lines(s.cache))
  }

  /** Room is left in the cache, and every newline in it lies within the last `maxRead - 1` bytes. */
  predicate Inv(s: State, cap: nat, maxRead: nat) {
    |s.cache| < cap && (maxRead <= |s.cache| ==> Quiet(s.cache, |s.cache| - maxRead + 1))
  }

  lemma {:induction false} LinesOfCache(s: string)
    ensures Flatten(Lines(s)) + AfterLines(s) == s
    ensures Quiet(AfterLines(s), |AfterLines(s)|)
    ensures Lines(s) == [] <==> Quiet(s, |s|)
    decreases |s|
  {
    var k := LineEnd(s);
    if k == 0 {
      assert Flatten([]) + s == s;
    } else {
      LinesOfCache(s[k..]);
      ConserveStep(s, k, Lines(s[k..]), AfterLines(s[k..]));
    }
  }

  /** The lines of a cache that is not full are the records of its contents; so are those of a full
      one, unless it has none. */
  lemma {:induction false} LinesAreRecords(s: string, cap: nat)
    requires 0 < cap && |s| <= cap && (|s| == cap ==> !Quiet(s, cap))
    ensures Records(s, cap) == Lines(s) && Leftover(s, cap) == AfterLines(s)
    decreases |s|
  {
    var k := LineEnd(s);
    if k > 0 { LinesAreRecords(s[k..], cap); }
  }

  /** The position behind the last newline is where the leftover of the cache begins. */
  lemma {:induction false} AfterLinesShort(s: string, i: nat)
    requires i < |s| && s[i] == NEWLINE
    ensures |AfterLines(s)| <= |s| - i - 1
    decreases |s|
  {
    var k := LineEnd(s);
    assert 0 < k <= i + 1;
    if k - 1 < i {
      AfterLinesShort(s[k..], i - k);
    } else {
      AfterLinesOnlyShrinks(s[k..]);
    }
  }

  lemma {:induction false} AfterLinesOnlyShrinks(s: string)
    ensures |AfterLines(s)| <= |s|
  {
    if LineEnd(s) > 0 { AfterLinesOnlyShrinks(s[LineEnd(s)..]); }
  }

  /** Within the bound 2 * maxRead <= cap + 1 a call keeps the invariant: the leftover of the read
      always fits in the space freed by the lines sent out. */
  lemma WriteKeepsInv(s: State, buf: string, cap: nat, maxRead: nat)
    requires Inv(s, cap, maxRead) && |buf| <= maxRead && 2 * maxRead <= cap + 1
    ensures Inv(Write(s, buf, cap), cap, maxRead)
  {
    var taken := Min(|buf|, cap - |s.cache|);
    var full := s.cache + buf[..taken];
    var left := if taken > 0 then buf[taken..] else [];
    var after := Drain(State(full, s.out), cap).cache;
    DrainFrees(s.cache, full, s.out, cap, maxRead);
    FrontIsQuiet(after, left, maxRead);
  }

  /** Whole lines leave in the call that completes them, and a full cache leaves at once: what a call keeps
      holds no newline and is shorter than the cache, but for the bytes that did not fit. */
  lemma LinesLeaveAtOnce(s: State, buf: string, cap: nat)
    requires |s.cache| < cap
    ensures var w := Write(s, buf, cap).cache;
            var over := if |s.cache| + |buf| <= cap then 0 else |s.cache| + |buf| - cap;
            over <= |w| < cap + over && forall i :: 0 <= i < |w| - over ==> w[i] != '\n'
  {
    var taken := Min(|buf|, cap - |s.cache|);
    var full := s.cache + buf[..taken];
    if Lines(full) == [] { NoMoreLinesExactly(full); }
    AfterIsQuiet(full);
  }

  lemma NoMoreLinesExactly(s: string)
    requires Lines(s) == []
    ensures AfterLines(s) == s
  {
  }

  lemma {:induction false} AfterIsQuiet(s: string)
    ensures Quiet(AfterLines(s), |AfterLines(s)|) && |AfterLines(s)| <= |s|
    ensures Lines(s) != [] ==> |AfterLines(s)| < |s|
  {
    var k := LineEnd(s);
    if k > 0 { AfterIsQuiet(s[k..]); }
  }

  /** What sending leaves is free of newlines, and short enough for the rest of the read. */
  lemma DrainFrees(cache: string, full: string, out: seq<string>, cap: nat, maxRead: nat)
    requires cache <= full && |full| - |cache| <= maxRead && |full| <= cap && 0 < cap
    requires maxRead <= |cache| ==> Quiet(cache, |cache| - maxRead + 1)
    ensures var after := Drain(State(full, out), cap).cache;
            && Quiet(after, |after|)
            && (|full| < cap ==> |after| < cap)
            && (|full| == cap ==> after == [] || |after| <= |full| - |cache| + maxRead - 2)
  {
    LinesOfCache(full);
    if Lines(full) == [] {
      NoMoreLines(full);
    } else {
      LeftoverFits(cache, full, |full| - |cache|, cap, maxRead);
    }
  }

  lemma FrontIsQuiet(after: string, left: string, maxRead: nat)
    requires Quiet(after, |after|) && (left == [] || |left| < maxRead)
    ensures maxRead <= |after + left| ==> Quiet(after + left, |after + left| - maxRead + 1)
  {
    assert Quiet(after + left, |after|);
    if maxRead == 0 { assert after + left == after; }
  }

  /** A newline in the old part of the cache sits within its last maxRead - 1 bytes, so what follows
      the last newline is short enough. */
  lemma LeftoverFits(old': string, full: string, taken: nat, cap: nat, maxRead: nat)
    requires old' <= full && |full| == |old'| + taken && |full| <= cap && taken <= maxRead && !Quiet(full, |full|)
    requires maxRead <= |old'| ==> Quiet(old', |old'| - maxRead + 1)
    ensures |AfterLines(full)| <= |full| - 1 && |AfterLines(full)| <= taken + maxRead - 2
  {
    var i :| 0 <= i < |full| && full[i] == NEWLINE;
    AfterLinesShort(full, i);
    if i < |old'| { assert old'[i] == NEWLINE; }
  }

  lemma NoMoreLines(s: string)
    requires Quiet(s, |s|)
    ensures Lines(s) == [] && AfterLines(s) == s
  {
    assert LineEnd(s) == 0;
  }

  /** A call moves the stream on by its read: nothing lost, nothing reordered, and the records sent
      out are the first records of the stream. */
  lemma WriteAdvances(s: State, buf: string, cap: nat, stream: string)
    requires |s.cache| < cap
    requires s.out + Records(s.cache, cap) == Records(stream, cap) && Leftover(s.cache, cap) == Leftover(stream, cap)
    ensures var s' := Write(s, buf, cap);
            && s'.out + Records(s'.cache, cap) == Records(stream + buf, cap)
            && Leftover(s'.cache, cap) == Leftover(stream + buf, cap)
  {
    var s' := Write(s, buf, cap);
    WriteEmits(s, buf, cap);
    RecordsConcat(s.cache, buf, cap);
    RecordsConcat(stream, buf, cap);
    var sent := s'.out[|s.out|..];
    assert s'.out == s.out + sent;
    Assoc(s.out, sent, Records(s'.cache, cap));
    Assoc(s.out, Records(s.cache, cap), Records(Leftover(stream, cap) + buf, cap));
  }

  lemma WriteEmits(s: State, buf: string, cap: nat)
    requires |s.cache| < cap
    ensures var s' := Write(s, buf, cap);
            && s.out <= s'.out
            && s'.out[|s.out|..] + Records(s'.cache, cap) == Records(s.cache + buf, cap)
            && Leftover(s'.cache, cap) == Leftover(s.cache + buf, cap)
  {
    var taken := Min(|buf|, cap - |s.cache|);
    var full := s.cache + buf[..taken];
    var left := buf[taken..];
    assert full + left == s.cache + buf;
    LinesOfCache(full);
    RecordsConcat(full, left, cap);
    var s' := Write(s, buf, cap);
    if Lines(full) == [] && |full| == cap {
      ChunkIsRecord(full, cap);
      assert s'.out[|s.out|..] == [full];
      assert [] + left == left;
    } else {
      LinesAreRecords(full, cap);
      assert s'.out[|s.out|..] == Lines(full);
    }
  }

  lemma ChunkIsRecord(s: string, cap: nat)
    requires 0 < cap == |s| && Quiet(s, cap)
    ensures Records(s, cap) == [s] && Leftover(s, cap) == []
  {
    assert LineEnd(s) == 0;
    assert s[..cap] == s && s[cap..] == [];
  }

  // ----- whole runs

  const EMPTY := State([], [])

  /** The calls with the given reads, one after the other, until one overflows the cache. */
  function Run(s: State, inputs: seq<string>, cap: nat): State
    decreases |inputs|
  {
    if inputs == [] || |s.cache| > cap then s else Run(Write(s, inputs[0], cap), inputs[1..], cap)
  }

  predicate Bounded(inputs: seq<string>, maxRead: nat) { forall i :: 0 <= i < |inputs| ==> |inputs[i]| <= maxRead }

  lemma {:induction false} RunFrom(s: State, inputs: seq<string>, cap: nat, maxRead: nat, stream: string)
    requires 2 * maxRead <= cap + 1 && Inv(s, cap, maxRead) && Bounded(inputs, maxRead)
    requires s.out + Records(s.cache, cap) == Records(stream, cap) && Leftover(s.cache, cap) == Leftover(stream, cap)
    ensures var s' := Run(s, inputs, cap);
            && Inv(s', cap, maxRead)
            && s'.out + Records(s'.cache, cap) == Records(stream + Flatten(inputs), cap)
            && Leftover(s'.cache, cap) == Leftover(stream + Flatten(inputs), cap)
    decreases |inputs|
  {
    if inputs == [] {
      assert stream + Flatten(inputs) == stream;
    } else {
      WriteKeepsInv(s, inputs[0], cap, maxRead);
      WriteAdvances(s, inputs[0], cap, stream);
      RunFrom(Write(s, inputs[0], cap), inputs[1..], cap, maxRead, stream + inputs[0]);
      Assoc(stream, inputs[0], Flatten(inputs[1..]));
    }
  }

  /** Every run of bounded reads: the cache never fills up, and the records sent out together with
      those still in the cache are the records of the whole stream. */
  lemma RunIsFaithful(inputs: seq<string>, cap: nat, maxRead: nat)
    requires cap > 0 && 2 * maxRead <= cap + 1 && Bounded(inputs, maxRead)
    ensures var s := Run(EMPTY, inputs, cap);
            && Inv(s, cap, maxRead)
            && s.out + Records(s.cache, cap) == Records(Flatten(inputs), cap)
            && Leftover(s.cache, cap) == Leftover(Flatten(inputs), cap)
  {
    RunFrom(EMPTY, inputs, cap, maxRead, []);
    assert [] + Flatten(inputs) == Flatten(inputs);
  }

  /** Conservation: what was sent out, followed by the cache, is what was read. */
  lemma RunConserves(inputs: seq<string>, cap: nat, maxRead: nat)
    requires cap > 0 && 2 * maxRead <= cap + 1 && Bounded(inputs, maxRead)
    ensures var s := Run(EMPTY, inputs, cap);
            && Flatten(s.out) + s.cache == Flatten(inputs)
            && forall r :: r in s.out ==> IsRecord(r, cap)
  {
    var s, stream := Run(EMPTY, inputs, cap), Flatten(inputs);
    RunIsFaithful(inputs, cap, maxRead);
    RecordsConserve(stream, cap);
    RecordsAreRecords(stream, cap);
    RecordsConserve(s.cache, cap);
    FlattenConcat(s.out, Records(s.cache, cap));
    assert forall r :: r in s.out ==> r in s.out + Records(s.cache, cap);
    Assoc(Flatten(s.out), Flatten(Records(s.cache, cap)), Leftover(s.cache, cap));
  }

  lemma {:induction false} FlattenConcat(a: seq<string>, b: seq<string>)
    ensures Flatten(a + b) == Flatten(a) + Flatten(b)
  {
    if a == [] {
      assert a + b == b;
    } else {
      FlattenConcat(a[1..], b);
      assert (a + b)[1..] == a[1..] + b;
      Assoc(a[0], Flatten(a[1..]), Flatten(b));
    }
  }

  /** How the stream is cut into reads makes no difference to the records. */
  lemma ChunkingIsIrrelevant(inputs: seq<string>, inputs': seq<string>, cap: nat, maxRead: nat)
    requires cap > 0 && 2 * maxRead <= cap + 1 && Bounded(inputs, maxRead) && Bounded(inputs', maxRead)
    requires Flatten(inputs) == Flatten(inputs')
    ensures var s, s' := Run(EMPTY, inputs, cap), Run(EMPTY, inputs', cap);
            s.out + Records(s.cache, cap) == s'.out + Records(s'.cache, cap)
  {
    RunIsFaithful(inputs, cap, maxRead);
    RunIsFaithful(inputs', cap, maxRead);
  }

  /** The shim's own constants are within the bound. */
  lemma ShimNeverOverflows(inputs: seq<string>)
    requires Bounded(inputs, DEFAULT_IO_COPY_BUF)
    ensures var s := Run(EMPTY, inputs, BUF_CACHE_SIZE);
            && |s.cache| < BUF_CACHE_SIZE
            && Flatten(s.out) + s.cache == Flatten(inputs)
            && forall r :: r in s.out ==> IsRecord(r, BUF_CACHE_SIZE)
  {
    RunIsFaithful(inputs, BUF_CACHE_SIZE, DEFAULT_IO_COPY_BUF);
    RunConserves(inputs, BUF_CACHE_SIZE, DEFAULT_IO_COPY_BUF);
  }

  // ----- the bound is exact

  function Fill(n: nat): (s: string)
    ensures |s| == n && Quiet(s, n)
  {
    seq(n, _ => 'x')
  }

  /** A read that meets a full cache is lost: what has left and what stays is what was there before. */
  lemma FullCacheLosesRead(s: State, buf: string, cap: nat)
    requires 0 < cap == |s.cache|
    ensures var s' := Write(s, buf, cap); Flatten(s'.out) + s'.cache == Flatten(s.out) + s.cache
  {
    assert s.cache + buf[..0] == s.cache;
    var d := Drain(s, cap);
    assert d.cache + [] == d.cache;
    DrainConserves(s, cap);
  }

  lemma DrainConserves(s: State, cap: nat)
    ensures var d := Drain(s, cap); Flatten(d.out) + d.cache == Flatten(s.out) + s.cache
  {
    if Lines(s.cache) == [] && |s.cache| == cap {
      FlattenConcat(s.out, [s.cache]);
      FlattenCons(s.cache, [], []);
      assert [s.cache] + [] == [s.cache];
    } else {
      LinesOfCache(s.cache);
      FlattenConcat(s.out, Lines(s.cache));
      Assoc(Flatten(s.out), Flatten(Lines(s.cache)), AfterLines(s.cache));
    }
  }

  lemma {:induction false} RunAppend(s: State, a: seq<string>, b: seq<string>, cap: nat)
    requires |Run(s, a, cap).cache| <= cap
    ensures Run(s, a + b, cap) == Run(Run(s, a, cap), b, cap)
    decreases |a|
  {
    if a == [] || |s.cache| > cap {
      assert a == [] ==> a + b == b;
    } else {
      RunAppend(Write(s, a[0], cap), a[1..], b, cap);
      assert (a + b)[1..] == a[1..] + b;
    }
  }

  /** Single bytes without newline pile up. */
  lemma {:induction false} Drip(n: nat, cap: nat) returns (inputs: seq<string>)
    requires n < cap
    ensures Bounded(inputs, 1) && Run(EMPTY, inputs, cap) == State(Fill(n), [])
  {
    if n == 0 {
      inputs := [];
      assert Fill(0) == [];
    } else {
      var before := Drip(n - 1, cap);
      inputs := before + [Fill(1)];
      RunAppend(EMPTY, before, [Fill(1)], cap);
      WriteQuietly(State(Fill(n - 1), []), Fill(1), cap);
      assert Fill(n - 1) + Fill(1) == Fill(n);
      assert [Fill(1)][1..] == [];
    }
  }

  lemma WriteQuietly(s: State, buf: string, cap: nat)
    requires |s.cache| + |buf| < cap && Quiet(s.cache, |s.cache|) && Quiet(buf, |buf|)
    ensures Write(s, buf, cap) == s.(cache := s.cache + buf)
  {
    var taken := Min(|buf|, cap - |s.cache|);
    assert buf[..taken] == buf && buf[taken..] == [];
    LinesOfCache(s.cache + buf);
    assert s.cache + buf + [] == s.cache + buf;
    assert s.out + [] == s.out;
  }

  /** A full cache without newline leaves as one chunk, and the rest of the read stays behind. */
  lemma FlushThenTail(tail: string, cap: nat, maxRead: nat) returns (inputs: seq<string>)
    requires cap > 0 && maxRead > 0 && |tail| == maxRead - 1
    ensures Bounded(inputs, maxRead) && Run(EMPTY, inputs, cap) == State(tail, [Fill(cap)])
  {
    var before := Drip(cap - 1, cap);
    var read := Fill(1) + tail;
    var s := State(Fill(cap - 1), []);
    FlushStep(s, tail, cap);
    RunAppend(EMPTY, before, [read], cap);
    RunOne(s, read, cap);
    inputs := before + [read];
  }

  lemma RunOne(s: State, buf: string, cap: nat)
    requires |s.cache| <= cap
    ensures Run(s, [buf], cap) == Write(s, buf, cap)
  {
    assert [buf][1..] == [];
  }

  /** Larger reads than the bound allows can fill the cache or overflow it. */
  lemma TooLargeReadsFillTheCache(cap: nat, maxRead: nat) returns (inputs: seq<string>)
    requires cap > 0 && 2 * maxRead > cap + 1
    ensures Bounded(inputs, maxRead) && |Run(EMPTY, inputs, cap).cache| >= cap
  {
    var tail := [NEWLINE] + Fill(maxRead - 2);
    inputs := FlushThenTail(tail, cap, maxRead);
    if maxRead - 1 < cap {
      var s := State(tail, [Fill(cap)]);
      RunAppend(EMPTY, inputs, [Fill(maxRead)], cap);
      OverflowStep(s, maxRead, cap);
      RunOne(s, Fill(maxRead), cap);
      inputs := inputs + [Fill(maxRead)];
    }
  }

  lemma FlushStep(s: State, tail: string, cap: nat)
    requires cap > 0 && s.cache == Fill(cap - 1)
    ensures Write(s, Fill(1) + tail, cap) == State(tail, s.out + [Fill(cap)])
  {
    var buf := Fill(1) + tail;
    assert buf[..1] == Fill(1) && buf[1..] == tail;
    assert Fill(cap - 1) + Fill(1) == Fill(cap);
    NoMoreLines(Fill(cap));
    assert [] + tail == tail;
  }

  lemma OverflowStep(s: State, maxRead: nat, cap: nat)
    requires cap + 2 <= 2 * maxRead && 1 < maxRead <= cap
    requires s.cache == [NEWLINE] + Fill(maxRead - 2)
    ensures |Write(s, Fill(maxRead), cap).cache| == 2 * maxRead - 2
  {
    var buf := Fill(maxRead);
    var taken := cap - maxRead + 1;
    var full := s.cache + buf[..taken];
    LineThenFill(full, Fill(maxRead - 2) + buf[..taken]);
  }

  lemma LineThenFill(full: string, rest: string)
    requires full == [NEWLINE] + rest && Quiet(rest, |rest|)
    ensures AfterLines(full) == rest && Lines(full) == [[NEWLINE]]
  {
    PrependNothing([NEWLINE]);
    FirstLine([], rest);
    NoMoreLines(rest);
  }

  /** The cache never fills up on any run if and only if twice the largest read exceeds its size by
      at most one byte. A cache merely larger than a read is not enough. */
  lemma ReadBoundIsExact(cap: nat, maxRead: nat)
    requires cap > 0
    ensures (forall inputs :: Bounded(inputs, maxRead) ==> |Run(EMPTY, inputs, cap).cache| < cap)
            <==> 2 * maxRead <= cap + 1
  {
    if 2 * maxRead <= cap + 1 {
      forall inputs | Bounded(inputs, maxRead) ensures |Run(EMPTY, inputs, cap).cache| < cap {
        RunIsFaithful(inputs, cap, maxRead);
      }
    } else {
      var inputs := TooLargeReadsFillTheCache(cap, maxRead);
    }
  }

  // ----- the cache object

  /** One of the shim's two static caches. `out` lists the calls of `shim_logger_write`. */
  class LineCache {
    const cap: nat
    const maxRead: nat
    var cache: array<char>
    var size: nat
    var out: seq<string>

    function Abs(): State
      requires size <= cache.Length
      reads this, cache
    {
      State(cache[..size], out)
    }

    ghost predicate Valid()
      reads this, cache
    {
      cache.Length == cap && size < cap && 2 * maxRead <= cap + 1 && Inv(Abs(), cap, maxRead)
    }

    constructor (cap: nat, maxRead: nat)
      requires cap > 0 && 2 * maxRead <= cap + 1
      ensures Valid() && fresh(cache) && Abs() == EMPTY && this.cap == cap && this.maxRead == maxRead
    {
      this.cap, this.maxRead := cap, maxRead;
      cache := new char[cap];
      size, out := 0, [];
    }

    /** `memcpy(cache + size, src, |src|)`. */
    method Append(src: string)
      requires size + |src| <= cache.Length
      modifies this`size, cache
      ensures size == old(size) + |src| && cache[..size] == old(cache[..size]) + src
    {
      forall i | 0 <= i < |src| { cache[size + i] := src[i]; }
      size := size + |src|;
    }

    /** `shim_write_container_log_file` with a buffer. */
    method WriteLog(buf: string)
      requires Valid() && |buf| <= maxRead
      modifies this, cache
      ensures Valid() && cache == old(cache)
      ensures Abs() == Write(old(Abs()), buf, cap)
    {
      WriteKeepsInv(Abs(), buf, cap, maxRead);
      WriteFitting(buf);
    }

    /** The body of the call, for a read whose leftover fits. */
    method WriteFitting(buf: string)
      requires size <= cap == cache.Length && 0 < cap && |Write(Abs(), buf, cap).cache| <= cap
      modifies this`size, this`out, cache
      ensures size <= cap && Abs() == Write(old(Abs()), buf, cap)
    {
      var taken, left := TakeIn(buf);
      if size == 0 {
        return;
      }
      SendAndShift();
      AppendNothing(Abs().cache);
      if left > 0 {
        Append(buf[taken..]);
      }
    }

    /** The first part of the call: fill the cache as far as the read goes. */
    method TakeIn(buf: string) returns (taken: nat, left: nat)
      requires size <= cache.Length == cap
      modifies this`size, cache
      ensures taken == Min(|buf|, cap - old(size)) && left == if taken > 0 then |buf| - taken else 0
      ensures size <= cap && Abs() == State(old(Abs()).cache + buf[..taken], out)
    {
      taken, left := 0, 0;
      if |buf| > 0 {
        var upto := if |buf| > cap - size then cap else size + |buf|;
        if upto > size {
          taken := upto - size;
          left := |buf| - taken;
          Append(buf[..taken]);
        }
      }
      AppendNothing(old(Abs()).cache);
    }

    /** The middle of the call: send what can be sent and move the rest to the front. */
    method SendAndShift()
      requires size <= cache.Length == cap
      modifies this`size, this`out, cache
      ensures size <= old(size) && Abs() == Drain(old(Abs()), cap)
    {
      var begin, lines := ScanLines(cache[..size]);
      assert cache[..size][begin..] == cache[begin..size];
      out := out + lines;
      if begin == 0 && size == cap {
        out := out + [cache[..size]];
        size := 0;
      }
      if begin > 0 {
        ShiftDown(begin);
      }
    }

    /** The overlapping move of the unsent bytes to the front. */
    method ShiftDown(begin: nat)
      requires begin <= size <= cache.Length
      modifies this`size, cache
      ensures size == old(size) - begin && cache[..size] == old(cache[begin..size])
    {
      forall i | 0 <= i < size - begin { cache[i] := cache[begin + i]; }
      size := size - begin;
    }
  }

  /** The scanning loop: the lines of the cache, in order, and where the last one ends. */
  method ScanLines(cache: string) returns (begin: nat, lines: seq<string>)
    ensures begin <= |cache| && lines == Lines(cache) && cache[begin..] == AfterLines(cache)
    ensures begin == 0 <==> lines == []
  {
    begin, lines := 0, [];
    var index := 0;
    ScanStart(cache);
    while index < |cache|
      invariant begin <= index <= |cache| && (begin == 0 <==> lines == [])
      invariant lines + LinesWith(cache[begin..index], cache[index..]) == LinesWith([], cache)
      invariant AfterWith(cache[begin..index], cache[index..]) == AfterWith([], cache)
    {
      ScanStep(cache, begin, index, lines);
      if cache[index] == NEWLINE {
        lines := lines + [cache[begin..index + 1]];
        begin := index + 1;
      }
      index := index + 1;
    }
    assert cache[index..] == [] && cache[begin..index] == cache[begin..];
    AppendNothing(lines);
    PrependNothing(cache);
    LinesWithIs([], cache);
  }

  /** The lines of a text whose first bytes, without a newline, have been read already; and what follows
      its lines. */
  function LinesWith(read: string, s: string): seq<string>
    decreases |s|
  {
    if s == [] then []
    else if s[0] == NEWLINE then [read + [s[0]]] + LinesWith([], s[1..])
    else LinesWith(read + [s[0]], s[1..])
  }

  function AfterWith(read: string, s: string): string
    decreases |s|
  {
    if s == [] then read
    else if s[0] == NEWLINE then AfterWith([], s[1..])
    else AfterWith(read + [s[0]], s[1..])
  }

  lemma ScanStart(s: string)
    ensures [] + LinesWith(s[0..0], s[0..]) == LinesWith([], s) && AfterWith(s[0..0], s[0..]) == AfterWith([], s)
  {
    assert s[0..0] == [] && s[0..] == s;
  }

  lemma ScanStep(s: string, begin: nat, index: nat, lines: seq<string>)
    requires begin <= index < |s|
    ensures var next := if s[index] == NEWLINE then index + 1 else begin;
            && AfterWith(s[next..index + 1], s[index + 1..]) == AfterWith(s[begin..index], s[index..])
            && (if s[index] == NEWLINE then lines + [s[begin..index + 1]] else lines) + LinesWith(s[next..index + 1], s[index + 1..])
               == lines + LinesWith(s[begin..index], s[index..])
  {
    var rest := s[index..];
    assert rest[0] == s[index] && rest[1..] == s[index + 1..];
    assert s[begin..index + 1] == s[begin..index] + [s[index]] && s[index + 1..index + 1] == [];
    if s[index] == NEWLINE { Assoc(lines, [s[begin..index + 1]], LinesWith([], s[index + 1..])); }
  }

  lemma {:induction false} LinesWithIs(read: string, s: string)
    requires Quiet(read, |read|)
    ensures LinesWith(read, s) == Lines(read + s) && AfterWith(read, s) == AfterLines(read + s)
    decreases |s|
  {
    if s == [] {
      AppendNothing(read);
      NoMoreLines(read);
    } else if s[0] == NEWLINE {
      PrependNothing(s[1..]);
      LinesWithIs([], s[1..]);
      HeadOf(read, s);
      FirstLine(read, s[1..]);
    } else {
      HeadOf(read, s);
      LinesWithIs(read + [s[0]], s[1..]);
    }
  }

  lemma HeadOf(read: string, s: string)
    requires s != []
    ensures read + [s[0]] + s[1..] == read + s
  {
  }

  lemma FirstLine(read: string, rest: string)
    requires Quiet(read, |read|)
    ensures var s := read + [NEWLINE] + rest;
            Lines(s) == [read + [NEWLINE]] + Lines(rest) && AfterLines(s) == AfterLines(rest)
  {
    var s := read + [NEWLINE] + rest;
    assert LineEnd(read) == 0 && LineEnd([NEWLINE] + rest) == 1;
    LineEndConcat(read, [NEWLINE] + rest);
    Assoc(read, [NEWLINE], rest);
    assert s[..|read| + 1] == read + [NEWLINE] && s[|read| + 1..] == rest;
  }
}
