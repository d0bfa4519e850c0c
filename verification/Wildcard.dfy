/**
 Translation of wildcards to regular expressions (src/utils/cutils/utils_regex.c), and the exact size
 of the buffer for the result. The produced text is given its meaning by an interpreter of the
 extended regular expressions of section 9.4 of the POSIX.1-2017 Base Definitions, restricted to what
 can occur here: anchors, the dot, ordinary and escaped characters, and the asterisk. Escaped angle
 brackets, which that standard leaves undefined, are the edges of words, as the GNU C library has it.
 */
module Wildcard {
  import opened Common

  // ----- wildcards

  /** '*' stands for any string, '?' for any character, everything else for itself. */
  predicate WildcardMatches(w: string, s: string)
    decreases |w| + |s|
  {
    if w == "" then s == ""
    else if w[0] == '*' then WildcardMatches(w[1..], s) || (s != "" && WildcardMatches(w, s[1..]))
    else s != "" && (w[0] == '?' || w[0] == s[0]) && WildcardMatches(w[1..], s[1..])
  }

  // ----- extended regular expressions

  datatype Atom = Literal(c: char) | AnyChar

  datatype Token = LineStart | LineEnd | WordStart | WordEnd | One(a: Atom) | Star(a: Atom)

  /** Characters with a meaning of their own in an extended regular expression. */
  predicate IsSpecial(c: char) { c in "^.[$()|*+?{\\" }

  predicate IsAngle(c: char) { c == '<' || c == '>' }

  /** Reads one atom: an escaped character, the dot, or an ordinary character. */
  function ParseAtom(re: string): (r: Option<(Atom, nat)>)
    ensures r.Some? ==> 0 < r.value.1 <= |re|
  {
    if re == "" then None
    else if re[0] == '\\' then
      if |re| >= 2 && !IsAngle(re[1]) then Some((Literal(re[1]), 2)) else None
    else if re[0] == '.' then Some((AnyChar, 1))
    else if IsSpecial(re[0]) then None
    else Some((Literal(re[0]), 1))
  }

  /** The tokens of a regular expression; None for anything outside the fragment. */
  function Parse(re: string): Option<seq<Token>>
    decreases |re|
  {
    if re == "" then Some([])
    else if re[0] == '^' then Prepend(LineStart, Parse(re[1..]))
    else if re[0] == '$' then Prepend(LineEnd, Parse(re[1..]))
    else if |re| >= 2 && re[0] == '\\' && IsAngle(re[1]) then
      Prepend(if re[1] == '<' then WordStart else WordEnd, Parse(re[2..]))
    else
      match ParseAtom(re)
      case None => None
      case Some((a, n)) =>
        if n < |re| && re[n] == '*' then Prepend(Star(a), Parse(re[n + 1..])) else Prepend(One(a), Parse(re[n..]))
  }

  function Prepend(t: Token, ts: Option<seq<Token>>): Option<seq<Token>> {
    if ts.None? then None else Some([t] + ts.value)
  }

  predicate AtomMatches(a: Atom, c: char) { a.AnyChar? || a.c == c }

  predicate IsWord(c: char) { 'a' <= c <= 'z' || 'A' <= c <= 'Z' || '0' <= c <= '9' || c == '_' }

  /** There is a character of a word right before position i, and right behind it. */
  predicate WordBefore(s: string, i: nat)
    requires i <= |s|
  {
    i > 0 && IsWord(s[i - 1])
  }

  predicate WordBehind(s: string, i: nat)
    requires i <= |s|
  {
    i < |s| && IsWord(s[i])
  }

  /** Some match of the tokens starts at position i of the subject. */
  predicate MatchesAt(ts: seq<Token>, s: string, i: nat)
    requires i <= |s|
    decreases |ts| + |s| - i
  {
    if ts == [] then true
    else
      match ts[0]
      case LineStart => i == 0 && MatchesAt(ts[1..], s, i)
      case LineEnd => i == |s| && MatchesAt(ts[1..], s, i)
      case WordStart => !WordBefore(s, i) && WordBehind(s, i) && MatchesAt(ts[1..], s, i)
      case WordEnd => WordBefore(s, i) && !WordBehind(s, i) && MatchesAt(ts[1..], s, i)
      case One(a) => i < |s| && AtomMatches(a, s[i]) && MatchesAt(ts[1..], s, i + 1)
      case Star(a) => MatchesAt(ts[1..], s, i) || (i < |s| && AtomMatches(a, s[i]) && MatchesAt(ts, s, i + 1))
  }

  /** `regexec`: some match starts somewhere. */
  ghost predicate RegexMatches(re: string, s: string) {
    Parse(re).Some? && exists i :: 0 <= i <= |s| && MatchesAt(Parse(re).value, s, i)
  }

  // ----- the translation

  const ESCAPES: string := "$^[](){|+\\.<>}"

  function TranslateChar(c: char): string {
    if c in ESCAPES then ['\\', c] else if c == '*' then ".*" else if c == '?' then "." else [c]
  }

  function Body(w: string): string {
    if w == "" then "" else TranslateChar(w[0]) + Body(w[1..])
  }

  function Translate(w: string): string { "^" + Body(w) + "$" }

  predicate NoAngles(w: string) { '<' !in w && '>' !in w }

  /** The text of one character: a backslash before everything with a meaning of its own, and before the
      angle brackets and the closing brackets. */
  lemma TranslatedExactly(c: char)
    ensures TranslateChar(c) ==
            if c == '*' then ".*" else if c == '?' then "."
            else if c in "^.[$()|+{\\" || c in "]}" || c in "<>" then ['\\', c] else [c]
  {
  }

  // ----- the translation preserves meaning

  function TokenOf(c: char): Token {
    if c == '*' then Star(AnyChar) else if c == '?' then One(AnyChar)
    else if c == '<' then WordStart else if c == '>' then WordEnd else One(Literal(c))
  }

  function Tokens(w: string): seq<Token> {
    if w == "" then [] else [TokenOf(w[0])] + Tokens(w[1..])
  }

  /** The text of one wildcard character, followed by one that does not start with an asterisk. */
  lemma ParseChar(c: char, rest: string)
    requires rest == "" || rest[0] != '*'
    ensures Parse(TranslateChar(c) + rest) == Prepend(TokenOf(c), Parse(rest))
  {
    var re := TranslateChar(c) + rest;
    if c in ESCAPES {
      assert re[0] == '\\' && re[1] == c && re[2..] == rest;
    } else if c == '*' {
      assert re[0] == '.' && re[1] == '*' && re[2..] == rest;
    } else {
      assert re[1..] == rest;
    }
  }

  lemma BodyStart(w: string, rest: string)
    requires rest == "" || rest[0] != '*'
    ensures Body(w) + rest == "" || (Body(w) + rest)[0] != '*'
  {
    if w != "" { assert TranslateChar(w[0])[0] != '*'; }
  }

  /** The produced text has one token for each wildcard character. */
  lemma {:induction false} ParseBody(w: string)
    ensures Parse(Body(w) + "$") == Some(Tokens(w) + [LineEnd])
  {
    if w == "" {
      assert Body(w) + "$" == "$" && "$"[1..] == "";
      var none: seq<Token> := [];
      assert Parse("") == Some(none) && [LineEnd] + none == [LineEnd];
      assert Parse("$") == Prepend(LineEnd, Parse(""));
      assert Tokens(w) + [LineEnd] == [LineEnd];
    } else {
      var rest := Body(w[1..]) + "$";
      assert Body(w) + "$" == TranslateChar(w[0]) + rest;
      BodyStart(w[1..], "$");
      ParseChar(w[0], rest);
      ParseBody(w[1..]);
      assert [TokenOf(w[0])] + (Tokens(w[1..]) + [LineEnd]) == Tokens(w) + [LineEnd];
    }
  }

  lemma ParseTranslation(w: string)
    ensures Parse(Translate(w)) == Some([LineStart] + (Tokens(w) + [LineEnd]))
  {
    assert Translate(w)[1..] == Body(w) + "$";
    ParseBody(w);
  }

  /** The tokens of a wildcard match from position i to the end exactly what the wildcard matches. */
  lemma {:induction false} TokensMatch(w: string, s: string, i: nat)
    requires i <= |s| && NoAngles(w)
    ensures MatchesAt(Tokens(w) + [LineEnd], s, i) <==> WildcardMatches(w, s[i..])
    decreases |w| + |s| - i
  {
    var ts := Tokens(w) + [LineEnd];
    if w == "" {
      assert ts == [LineEnd] && ts[1..] == [];
    } else {
      assert ts[0] == TokenOf(w[0]) && ts[1..] == Tokens(w[1..]) + [LineEnd];
      TokensMatch(w[1..], s, i);
      if i < |s| {
        assert s[i..][1..] == s[i + 1..];
        TokensMatch(w[1..], s, i + 1);
        TokensMatch(w, s, i + 1);
      }
    }
  }

  /** A match of the whole expression starts at the beginning. */
  lemma MatchesFromStart(w: string, s: string)
    ensures RegexMatches(Translate(w), s) <==> MatchesAt(Tokens(w) + [LineEnd], s, 0)
  {
    ParseTranslation(w);
    var ts := Parse(Translate(w)).value;
    assert ts[0] == LineStart && ts[1..] == Tokens(w) + [LineEnd];
    assert MatchesAt(ts, s, 0) <==> MatchesAt(Tokens(w) + [LineEnd], s, 0);
  }

  lemma TranslationOfPlain(w: string, s: string)
    requires NoAngles(w)
    ensures RegexMatches(Translate(w), s) <==> WildcardMatches(w, s)
  {
    MatchesFromStart(w, s);
    TokensMatch(w, s, 0);
    assert s[0..] == s;
  }

  /** The produced expression and the wildcard agree on a subject. */
  ghost predicate Agree(w: string, s: string) { RegexMatches(Translate(w), s) <==> WildcardMatches(w, s) }

  /** The produced expression matches exactly the subjects the wildcard matches, if and only if the
      wildcard has no angle bracket: an escaped one is the edge of a word and matches no character. */
  lemma TranslationPreservesMeaning(w: string)
    ensures (forall s :: Agree(w, s)) <==> NoAngles(w)
  {
    if NoAngles(w) {
      forall s ensures Agree(w, s) { TranslationOfPlain(w, s); }
    } else {
      var s := Disagreement(w);
      assert !Agree(w, s);
    }
  }

  /** A subject on which the expression and a wildcard with an angle bracket disagree. */
  lemma Disagreement(w: string) returns (s: string)
    requires !NoAngles(w)
    ensures !Agree(w, s)
  {
    s := Instance(w);
    InstanceMatches(w);
    if Agree(w, s) {
      MatchesFromStart(w, s);
      TokensAreNoAngles(w);
      WashedMatches(Tokens(w) + [LineEnd], s, 0);
      MatchesFromStart(w, Washed(s));
      if WildcardMatches(w, Washed(s)) { AnglesAreMatched(w, Washed(s)); }
      s := Washed(s);
    }
  }

  /** What an angle bracket does instead: before a word of one character, and behind it, it matches nothing. */
  lemma AngleIsWordEdge(c: char)
    requires c in "abcdefghijklmnopqrstuvwxyz" || c in "ABCDEFGHIJKLMNOPQRSTUVWXYZ" || c in "0123456789_"
    ensures RegexMatches(Translate(['<', c]), [c]) && RegexMatches(Translate([c, '>']), [c])
    ensures !RegexMatches(Translate(['<', c]), ['<', c])
  {
    assert IsWord(c);
    FrontEdge(c);
    BackEdge(c);
  }

  lemma FrontEdge(c: char)
    requires IsWord(c)
    ensures RegexMatches(Translate(['<', c]), [c]) && !RegexMatches(Translate(['<', c]), ['<', c])
  {
    MatchesFromStart(['<', c], [c]);
    MatchesFromStart(['<', c], ['<', c]);
    EdgeTokens('<', c);
    OneThenEnd(c);
    assert [WordStart, One(Literal(c)), LineEnd][1..] == [One(Literal(c)), LineEnd];
  }

  lemma BackEdge(c: char)
    requires IsWord(c)
    ensures RegexMatches(Translate([c, '>']), [c])
  {
    MatchesFromStart([c, '>'], [c]);
    EdgeTokens(c, '>');
    OneThenEnd(c);
    assert [One(Literal(c)), WordEnd, LineEnd][1..] == [WordEnd, LineEnd];
    assert [WordEnd, LineEnd][1..] == [LineEnd];
    assert MatchesAt([WordEnd, LineEnd], [c], 1);
  }

  lemma OneThenEnd(c: char)
    ensures MatchesAt([LineEnd], [c], 1) && MatchesAt([One(Literal(c)), LineEnd], [c], 0)
  {
    assert [One(Literal(c)), LineEnd][1..] == [LineEnd] && [LineEnd][1..] == [];
  }

  lemma EdgeTokens(a: char, b: char)
    ensures Tokens([a, b]) + [LineEnd] == [TokenOf(a), TokenOf(b), LineEnd]
  {
    assert [a, b][1..] == [b] && [b][1..] == [];
    assert Tokens([b]) == [TokenOf(b)] + Tokens([]);
  }

  /** The simplest subject a wildcard matches. */
  function Instance(w: string): string {
    if w == "" then "" else if w[0] == '*' then Instance(w[1..]) else [w[0]] + Instance(w[1..])
  }

  lemma {:induction false} InstanceMatches(w: string)
    ensures WildcardMatches(w, Instance(w))
  {
    if w != "" {
      InstanceMatches(w[1..]);
      if w[0] != '*' { assert Instance(w)[1..] == Instance(w[1..]); }
    }
  }

  /** Whatever a wildcard with an angle bracket matches has one too. */
  lemma {:induction false} AnglesAreMatched(w: string, s: string)
    requires WildcardMatches(w, s) && !NoAngles(w)
    ensures !NoAngles(s)
    decreases |w| + |s|
  {
    if w[0] == '*' && !WildcardMatches(w[1..], s) {
      AnglesAreMatched(w, s[1..]);
    } else if w[0] == '*' {
      AnglesAreMatched(w[1..], s);
    } else if !IsAngle(w[0]) {
      AnglesAreMatched(w[1..], s[1..]);
    }
  }

  /** The subject with another character in place of every angle bracket. */
  function Washed(s: string): (r: string)
    ensures |r| == |s| && NoAngles(r)
    ensures forall i :: 0 <= i < |s| ==> r[i] == if IsAngle(s[i]) then '-' else s[i]
  {
    seq(|s|, i requires 0 <= i < |s| => if IsAngle(s[i]) then '-' else s[i])
  }

  predicate NoAngleIn(t: Token) {
    match t
    case One(a) => a.Literal? ==> !IsAngle(a.c)
    case Star(a) => a.Literal? ==> !IsAngle(a.c)
    case _ => true
  }

  predicate NoneWanted(ts: seq<Token>) { forall i :: 0 <= i < |ts| ==> NoAngleIn(ts[i]) }

  lemma {:induction false} TokensAreNoAngles(w: string)
    ensures NoneWanted(Tokens(w) + [LineEnd])
  {
    if w != "" {
      TokensAreNoAngles(w[1..]);
      Assoc([TokenOf(w[0])], Tokens(w[1..]), [LineEnd]);
    }
  }

  /** Tokens that do not ask for an angle bracket do not see the difference. */
  lemma {:induction false} WashedMatches(ts: seq<Token>, s: string, i: nat)
    requires i <= |s| && NoneWanted(ts) && MatchesAt(ts, s, i)
    ensures MatchesAt(ts, Washed(s), i)
    decreases |ts| + |s| - i
  {
    if ts != [] {
      assert NoAngleIn(ts[0]) && NoneWanted(ts[1..]);
      match ts[0]
      case One(_) => WashedMatches(ts[1..], s, i + 1);
      case Star(_) =>
        if MatchesAt(ts[1..], s, i) { WashedMatches(ts[1..], s, i); } else { WashedMatches(ts, s, i + 1); }
      case _ => WashedMatches(ts[1..], s, i);
    }
  }

  // ----- the size of the buffer

  function Count(w: string, c: char): nat {
    if w == "" then 0 else Count(w[1..], c) + if w[0] == c then 1 else 0
  }

  function CountAll(w: string, cs: string): nat {
    if cs == "" then 0 else Count(w, cs[0]) + CountAll(w, cs[1..])
  }

  predicate Distinct(cs: string) { forall i, j :: 0 <= i < j < |cs| ==> cs[i] != cs[j] }

  /** Counting per escaped character equals counting per position. */
  lemma {:induction false} CountAllStep(w: string, cs: string)
    requires w != "" && Distinct(cs)
    ensures CountAll(w, cs) == CountAll(w[1..], cs) + if w[0] in cs then 1 else 0
    decreases |cs|
  {
    if cs != "" {
      CountAllStep(w, cs[1..]);
      assert w[0] in cs <==> w[0] == cs[0] || w[0] in cs[1..];
    }
  }

  lemma {:induction false} CountAllEmpty(cs: string)
    ensures CountAll("", cs) == 0
  {
    if cs != "" { CountAllEmpty(cs[1..]); }
  }

  /** The size computed beforehand is the number of characters written, terminator included. */
  lemma {:induction false} SizeIsExact(w: string)
    ensures |Body(w)| == |w| + CountAll(w, ESCAPES) + Count(w, '*')
    ensures |Translate(w)| + 1 == 1 + CountAll(w, ESCAPES) + |w| + Count(w, '*') + 1 + 1
  {
    if w == "" {
      CountAllEmpty(ESCAPES);
    } else {
      SizeIsExact(w[1..]);
      CharSize(w[0]);
      EscapesDistinct();
      CountAllStep(w, ESCAPES);
    }
  }

  lemma CharSize(c: char)
    ensures |TranslateChar(c)| == 1 + (if c in ESCAPES then 1 else 0) + (if c == '*' then 1 else 0)
  {
  }

  lemma EscapesDistinct()
    ensures Distinct(ESCAPES)
  {
  }

  const INT_MAX: nat := 0x7FFF_FFFF

  /** `util_strings_count`; its result is an int. */
  method StringsCount(w: string, c: char) returns (n: nat)
    requires Count(w, c) <= INT_MAX
    ensures n == Count(w, c) && n <= |w|
  {
    n := 0;
    assert w[0..] == w;
    for i := 0 to |w|
      invariant n + Count(w[i..], c) == Count(w, c) && n <= i
    {
      assert w[i..][1..] == w[i + 1..];
      if w[i] == c {
        n := n + 1;
      }
    }
    assert w[|w|..] == "";
  }

  /** The size of the largest object of the C language, and counts that an int can hold. */
  predicate Countable(w: string) {
    |w| <= SIZE_MAX / 2 && forall c :: c in ESCAPES + "*" ==> Count(w, c) <= INT_MAX
  }

  /** `get_regex_size_from_wildcard`: the overflow tests never fire. */
  method RegexSize(w: string) returns (r: Option<nat>)
    requires Countable(w)
    ensures r == Some(|Translate(w)| + 1)
  {
    var size := CountEscapes(w, ESCAPES);
    if size.None? {
      return None;
    }
    var tmp := StringsCount(w, '*');
    if tmp > SIZE_MAX - size.value - |w| - 3 {
      return None;
    }
    SizeIsExact(w);
    return Some(1 + size.value + |w| + tmp + 1 + 1);
  }

  /** Its loop over the escaped characters. */
  method CountEscapes(w: string, cs: string) returns (r: Option<nat>)
    requires |cs| <= 20 && forall c :: c in cs ==> Count(w, c) <= INT_MAX
    ensures r == Some(CountAll(w, cs)) && r.value <= 20 * INT_MAX
  {
    var size := 0;
    assert cs[0..] == cs;
    for i := 0 to |cs|
      invariant size + CountAll(w, cs[i..]) == CountAll(w, cs) && size <= i * INT_MAX
    {
      assert cs[i..][1..] == cs[i + 1..];
      var tmp := StringsCount(w, cs[i]);
      if tmp > SIZE_MAX - size {
        return None;
      }
      size := size + tmp;
    }
    assert cs[|cs|..] == "";
    return Some(size);
  }

  /** `util_wildcard_to_regex`: fills the buffer to its last cell. */
  method WildcardToRegex(wildcard: Option<string>, allocates: nat -> bool) returns (r: Option<string>)
    requires wildcard.Some? ==> Countable(wildcard.value)
    ensures r == if wildcard.None? || !allocates(|Translate(wildcard.value)| + 1) then None else Some(Translate(wildcard.value))
  {
    if wildcard.None? {
      return None;
    }
    var w := wildcard.value;
    var size := RegexSize(w);
    if size.None? {
      return None;
    }
    if !allocates(size.value) {
      return None;
    }
    var regex := new char[size.value](_ => '\0');
    regex[0] := '^';
    var index := 1;
    assert w[0..] == w && regex[..1] == "^";
    for i := 0 to |w|
      invariant 1 <= index <= regex.Length && regex[..index] + Body(w[i..]) == "^" + Body(w)
    {
      BodyStep(regex[..index], w, i);
      index := PutChar(regex, index, w[i]);
    }
    assert w[|w|..] == "" && regex[..index] + "" == regex[..index];
    regex[index] := '$';
    index := index + 1;
    assert regex[..index] == Translate(w);
    regex[index] := '\0';
    assert index + 1 == regex.Length;
    r := Some(regex[..index]);
  }

  lemma BodyStep(done: string, w: string, i: nat)
    requires i < |w|
    ensures done + Body(w[i..]) == done + TranslateChar(w[i]) + Body(w[i + 1..])
    ensures |done + Body(w[i..])| >= |done| + |TranslateChar(w[i])|
  {
    assert w[i..][1..] == w[i + 1..];
  }

  /** Writes the translation of one character into the next cells. */
  method PutChar(regex: array<char>, index0: nat, ch: char) returns (index: nat)
    requires index0 + |TranslateChar(ch)| <= regex.Length
    modifies regex
    ensures index == index0 + |TranslateChar(ch)| && regex[..index] == old(regex[..index0]) + TranslateChar(ch)
  {
    index := index0;
    var escaped := IsEscaped(ch);
    if escaped {
      regex[index] := '\\';
      regex[index + 1] := ch;
      index := index + 2;
    } else if ch == '*' {
      regex[index] := '.';
      regex[index + 1] := '*';
      index := index + 2;
    } else if ch == '?' {
      regex[index] := '.';
      index := index + 1;
    } else {
      regex[index] := ch;
      index := index + 1;
    }
  }

  /** The inner loop over the escaped characters. */
  method IsEscaped(ch: char) returns (escaped: bool)
    ensures escaped <==> ch in ESCAPES
  {
    for j := 0 to |ESCAPES|
      invariant ch !in ESCAPES[..j]
    {
      if ch == ESCAPES[j] {
        return true;
      }
    }
    assert ESCAPES[..|ESCAPES|] == ESCAPES;
    return false;
  }
}
