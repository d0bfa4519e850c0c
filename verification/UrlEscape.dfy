/**
 Percent-encoding (src/utils/cpputils/url.cc), as in sections 2.1 and 2.3 of RFC 3986: two passes,
 one that counts and one that fills, with early returns when there is nothing to do, proved against
 one-pass definitions; and the path of a URL object, which remembers the spelling it was given.

 Where a C++ `char` is signed the test against 0x80 in host and zone names holds of every byte, where
 it is unsigned only of ASCII; the decoder has the sign as a parameter.
 */
module UrlEscape {
  import opened Common

  type Byte = c: char | c as int < 256

  type Bytes = seq<Byte>

  datatype Mode = Path | PathSegment | Host | Zone | UserPassword | QueryComponent | Fragment

  // ----- classes of characters

  predicate IsHex(c: Byte) { '0' <= c <= '9' || 'A' <= c <= 'F' || 'a' <= c <= 'f' }

  function HexDigit(c: Byte): (d: nat)
    requires IsHex(c)
    ensures d < 16
  {
    if '0' <= c <= '9' then c as int - '0' as int
    else if 'a' <= c <= 'f' then c as int - 'a' as int + 10
    else c as int - 'A' as int + 10
  }

  /** The digit the encoder writes for a value below sixteen. */
  function UpperHex(d: nat): (c: Byte)
    requires d < 16
    ensures IsHex(c) && HexDigit(c) == d
  {
    if d < 10 then ('0' as int + d) as char else ('A' as int + d - 10) as char
  }

  /** Decides some characters by themselves or by mode; None when it leaves the decision open. */
  function SpecificCharacterCheck(c: Byte, mode: Mode): Option<bool> {
    if c in "-._~" then Some(false)
    else if c in "&,;?@$+=:/" then
      match mode
      case Path => Some(c == '?')
      case PathSegment => Some(c == '/' || c == ';' || c == ',' || c == '?')
      case UserPassword => Some(c == '@' || c == '/' || c == '?' || c == ':')
      case QueryComponent => Some(true)
      case Fragment => Some(false)
      case Host => None
      case Zone => None
    else None
  }

  predicate IsAlphanumeric(c: Byte) { 'A' <= c <= 'Z' || 'a' <= c <= 'z' || '0' <= c <= '9' }

  predicate InNameMode(mode: Mode) { mode == Host || mode == Zone }

  predicate ShouldEscape(c: Byte, mode: Mode) {
    if IsAlphanumeric(c) then false
    else if InNameMode(mode) && c in "!$&()'*+,;=:[]<>\"" then false
    else
      match SpecificCharacterCheck(c, mode)
      case Some(b) => b
      case None => !(mode == Fragment && c in "!()*")
  }

  // ----- the one-pass encoder

  function EscapeByte(c: Byte, mode: Mode): Bytes {
    if c == ' ' && mode == QueryComponent then "+"
    else if ShouldEscape(c, mode) then ['%', UpperHex(c as int / 16), UpperHex(c as int % 16)]
    else [c]
  }

  function Encoded(s: Bytes, mode: Mode): Bytes {
    if s == [] then [] else EscapeByte(s[0], mode) + Encoded(s[1..], mode)
  }

  // ----- the one-pass decoder

  function HexValue(hi: Byte, lo: Byte): Byte
    requires IsHex(hi) && IsHex(lo)
  {
    (16 * HexDigit(hi) + HexDigit(lo)) as char
  }

  /** Whether the mode accepts the escape that s starts with. Host names accept only bytes outside
      ASCII and the percent sign; zone names only what a host name may spell out, and the space. */
  predicate GoodEscape(s: Bytes, mode: Mode) {
    && |s| >= 3 && IsHex(s[1]) && IsHex(s[2])
    && (mode == Host ==> HexDigit(s[1]) >= 8 || s[..3] == "%25")
    && (mode == Zone ==> s[..3] == "%25" || HexValue(s[1], s[2]) == ' ' || !ShouldEscape(HexValue(s[1], s[2]), Host))
  }

  /** `int(c) < 0x80`. */
  predicate IsBelow0x80(signedChar: bool, c: Byte) { signedChar || c as int < 128 }

  /** The first step of decoding: the byte it gives and the number of bytes it takes. */
  function DecodeFirst(signedChar: bool, s: Bytes, mode: Mode): (r: Option<(Byte, nat)>)
    requires s != []
    ensures r.Some? ==> (r.value.1 == 1 || r.value.1 == 3) && r.value.1 <= |s|
  {
    if s[0] == '%' then if GoodEscape(s, mode) then Some((HexValue(s[1], s[2]), 3)) else None
    else if s[0] == '+' then Some((if mode == QueryComponent then ' ' else '+', 1))
    else if InNameMode(mode) && IsBelow0x80(signedChar, s[0]) && ShouldEscape(s[0], mode) then None
    else Some((s[0], 1))
  }

  function Decoded(signedChar: bool, s: Bytes, mode: Mode): Option<Bytes> {
    if s == [] then Some([])
    else
      match DecodeFirst(signedChar, s, mode)
      case None => None
      case Some((c, n)) =>
        match Decoded(signedChar, s[n..], mode)
        case None => None
        case Some(t) => Some([c] + t)
  }

  /** `Unescape`: a malformed input gives the empty string. */
  function Unescaped(signedChar: bool, s: Bytes, mode: Mode): Bytes {
    match Decoded(signedChar, s, mode)
    case None => []
    case Some(t) => t
  }

  // ----- the round trip

  /** The bytes whose escapes the decoder of the same mode accepts. */
  predicate Survives(c: Byte, mode: Mode) {
    match mode
    case Host => !ShouldEscape(c, Host) || c == '%' || c as int >= 128
    case Zone => !ShouldEscape(c, Host) || c == '%' || c == ' '
    case _ => true
  }

  /** Decoding the encoding of one byte gives the byte back, whatever follows, if it survives, and
      fails if it does not. */
  lemma DecodeEscapedByte(signedChar: bool, c: Byte, rest: Bytes, mode: Mode)
    ensures var e := EscapeByte(c, mode);
            DecodeFirst(signedChar, e + rest, mode) == if Survives(c, mode) then Some((c, |e|)) else None
  {
    if ShouldEscape(c, mode) && !(c == ' ' && mode == QueryComponent) {
      HexRoundTrip(c);
      var s := EscapeByte(c, mode) + rest;
      assert s[0] == '%' && s[1] == UpperHex(c as int / 16) && s[2] == UpperHex(c as int % 16);
      PercentSpelling(c, s);
      ZoneIsHost(c);
    }
  }

  lemma HexRoundTrip(c: Byte)
    ensures HexValue(UpperHex(c as int / 16), UpperHex(c as int % 16)) == c
    ensures HexDigit(UpperHex(c as int / 16)) >= 8 <==> c as int >= 128
  {
  }

  lemma PercentSpelling(c: Byte, s: Bytes)
    requires |s| >= 3 && s[0] == '%' && s[1] == UpperHex(c as int / 16) && s[2] == UpperHex(c as int % 16)
    ensures s[..3] == "%25" <==> c == '%'
  {
    HexRoundTrip(c);
    if s[..3] == "%25" {
      assert s[1] == s[..3][1] == '2' && s[2] == s[..3][2] == '5';
    }
    if c == '%' { assert s[..3] == [s[0], s[1], s[2]]; }
  }

  lemma ZoneIsHost(c: Byte)
    ensures ShouldEscape(c, Zone) == ShouldEscape(c, Host)
  {
  }

  predicate AllSurvive(s: Bytes, mode: Mode) { forall i :: 0 <= i < |s| ==> Survives(s[i], mode) }

  /** Escaping and then unescaping is the identity exactly on the strings all of whose bytes survive;
      on any other string the decoder refuses. */
  lemma {:induction false} EscapeRoundTrip(signedChar: bool, s: Bytes, mode: Mode)
    ensures Decoded(signedChar, Encoded(s, mode), mode) == if AllSurvive(s, mode) then Some(s) else None
  {
    if s != [] {
      var e := EscapeByte(s[0], mode);
      var rest := Encoded(s[1..], mode);
      EscapeRoundTrip(signedChar, s[1..], mode);
      DecodeEscapedByte(signedChar, s[0], rest, mode);
      DecodeOn(signedChar, s[0], e, rest, mode);
      SurviveStep(s, mode);
    }
  }

  lemma DecodeOn(signedChar: bool, c: Byte, e: Bytes, rest: Bytes, mode: Mode)
    requires e != []
    ensures var first, all, tail := DecodeFirst(signedChar, e + rest, mode), Decoded(signedChar, e + rest, mode), Decoded(signedChar, rest, mode);
            && (first.None? ==> all.None?)
            && (first == Some((c, |e|)) ==> all == if tail.None? then None else Some([c] + tail.value))
  {
    assert (e + rest)[|e|..] == rest;
  }

  lemma SurviveStep(s: Bytes, mode: Mode)
    requires s != []
    ensures AllSurvive(s, mode) <==> Survives(s[0], mode) && AllSurvive(s[1..], mode)
    ensures s == [s[0]] + s[1..]
  {
    assert forall i :: 1 <= i < |s| ==> s[i] == s[1..][i - 1];
  }

  /** In the path, path-segment, user-password, query and fragment modes every byte string survives. */
  lemma EscapeRoundTripAllBytes(signedChar: bool, s: Bytes, mode: Mode)
    requires !InNameMode(mode)
    ensures Unescaped(signedChar, Encoded(s, mode), mode) == s
  {
    EscapeRoundTrip(signedChar, s, mode);
  }

  /** In the host and zone modes exactly the strings of surviving bytes come back. */
  lemma NameRoundTripExact(signedChar: bool, s: Bytes, mode: Mode)
    requires InNameMode(mode)
    ensures Unescaped(signedChar, Encoded(s, mode), mode) == s <==> AllSurvive(s, mode)
  {
    EscapeRoundTrip(signedChar, s, mode);
  }

  predicate IsAscii(s: Bytes) { forall i :: 0 <= i < |s| ==> s[i] as int < 128 }

  /** Signed characters make the decoder refuse bytes outside ASCII in host and zone names, and make no
      other difference. */
  lemma {:induction false} SignMatters(s: Bytes, mode: Mode)
    ensures Decoded(true, s, mode) == if InNameMode(mode) && !IsAscii(s) then None else Decoded(false, s, mode)
  {
    if s != [] {
      SignOfFirst(s, mode);
      var first := DecodeFirst(false, s, mode);
      if first.Some? {
        SignMatters(s[first.value.1..], mode);
        AsciiStep(s, first.value.1);
      }
    }
  }

  lemma SignOfFirst(s: Bytes, mode: Mode)
    requires s != []
    ensures DecodeFirst(true, s, mode) == if InNameMode(mode) && s[0] as int >= 128 then None else DecodeFirst(false, s, mode)
    ensures var first := DecodeFirst(false, s, mode); first.Some? ==> (IsAscii(s[..first.value.1]) <==> s[0] as int < 128)
  {
    if s[0] as int >= 128 { EscapesExactly(s[0], mode); }
    if s[0] == '%' { EscapeIsAscii(s, mode); }
    assert s[..1] == [s[0]];
  }

  lemma EscapeIsAscii(s: Bytes, mode: Mode)
    requires s != [] && s[0] == '%'
    ensures GoodEscape(s, mode) ==> IsAscii(s[..3])
  {
    if GoodEscape(s, mode) { assert s[..3] == [s[0], s[1], s[2]]; }
  }

  lemma AsciiStep(s: Bytes, n: nat)
    requires n <= |s|
    ensures IsAscii(s) <==> IsAscii(s[..n]) && IsAscii(s[n..])
  {
    assert forall i :: n <= i < |s| ==> s[i] == s[n..][i - n];
    assert forall i :: 0 <= i < n ==> s[i] == s[..n][i];
  }

  // ----- how escapes may be spelled

  /** The hexadecimal digit of a value, in either case. */
  function Digit(d: nat, lower: bool): Byte
    requires d < 16
  {
    if lower then "0123456789abcdef"[d] else "0123456789ABCDEF"[d]
  }

  lemma DigitValue(d: nat, lower: bool)
    requires d < 16
    ensures IsHex(Digit(d, lower)) && HexDigit(Digit(d, lower)) == d
  {
  }

  /** Exactly the digits are digits. */
  lemma DigitsExactly(c: Byte)
    ensures IsHex(c) <==> exists d, lower :: 0 <= d < 16 && c == Digit(d, lower)
  {
    if IsHex(c) {
      var d := HexDigit(c);
      assert c == Digit(d, true) || c == Digit(d, false);
    }
    if d, lower :| 0 <= d < 16 && c == Digit(d, lower) { DigitValue(d, lower); }
  }

  function Spelled(d: nat, e: nat, lower: bool, lower': bool): Bytes
    requires d < 16 && e < 16
  {
    ['%', Digit(d, lower), Digit(e, lower')]
  }

  /** What an escape stands for, in every mode and however its digits are spelled: the byte of its value,
      or nothing where a host or zone name may not contain it. */
  lemma EscapeStandsFor(signedChar: bool, d: nat, e: nat, lower: bool, lower': bool, rest: Bytes, mode: Mode)
    requires d < 16 && e < 16
    ensures var c: Byte := (16 * d + e) as char;
            DecodeFirst(signedChar, Spelled(d, e, lower, lower') + rest, mode) ==
            if (mode == Host && c as int < 128 && c != '%') ||
               (mode == Zone && c != '%' && c != ' ' && !IsUnreserved(c) && c !in "!$&()'*+,;=:[]<>\"")
            then None else Some((c, 3))
  {
    var s := Spelled(d, e, lower, lower') + rest;
    DigitValue(d, lower);
    DigitValue(e, lower');
    assert s[1] == Digit(d, lower) && s[2] == Digit(e, lower') && s[..3] == [s[0], s[1], s[2]];
    assert HexValue(s[1], s[2]) == (16 * d + e) as char;
    IsPercent(d, e, lower, lower', s);
    if mode == Zone { EscapesExactly(HexValue(s[1], s[2]), Host); }
  }

  lemma IsPercent(d: nat, e: nat, lower: bool, lower': bool, s: Bytes)
    requires d < 16 && e < 16 && |s| >= 3 && s[0] == '%' && s[1] == Digit(d, lower) && s[2] == Digit(e, lower')
    ensures s[..3] == "%25" <==> (16 * d + e) as char == '%'
  {
    DigitValue(d, lower);
    DigitValue(e, lower');
    assert s[..3] == [s[0], s[1], s[2]];
    assert Digit(2, lower) == '2' && Digit(5, lower') == '5';
    if s[..3] == "%25" { assert s[1] == '2' && s[2] == '5'; }
  }

  /** What the encoder writes for a byte: a plus sign for the space of a query, the byte itself if it is
      unreserved or listed by the mode, and an escape with upper-case digits otherwise. */
  lemma EscapeByteExactly(c: Byte, mode: Mode)
    ensures EscapeByte(c, mode) ==
            if c == ' ' && mode == QueryComponent then "+"
            else if IsUnreserved(c) || c in Plain(mode) then [c]
            else Spelled(c as int / 16, c as int % 16, false, false)
  {
    EscapesExactly(c, mode);
    UpperDigit(c as int / 16);
    UpperDigit(c as int % 16);
  }

  lemma UpperDigit(d: nat)
    requires d < 16
    ensures UpperHex(d) == Digit(d, false)
  {
  }

  /** Decoding does not depend on the case of the digits of an escape, wherever it stands. */
  lemma CaseIsIrrelevant(signedChar: bool, before: Bytes, d: nat, e: nat, lower: bool, lower': bool, after: Bytes, mode: Mode)
    requires d < 16 && e < 16
    ensures Decoded(signedChar, before + (Spelled(d, e, lower, lower') + after), mode) ==
            Decoded(signedChar, before + (Spelled(d, e, false, false) + after), mode)
  {
    var x, y := Spelled(d, e, lower, lower') + after, Spelled(d, e, false, false) + after;
    EscapeStandsFor(signedChar, d, e, lower, lower', after, mode);
    EscapeStandsFor(signedChar, d, e, false, false, after, mode);
    assert x[3..] == after && y[3..] == after;
    SameBehind(signedChar, before, x, y, mode);
  }

  lemma {:induction false} SameBehind(signedChar: bool, before: Bytes, x: Bytes, y: Bytes, mode: Mode)
    requires |x| == |y| > 0 && x[0] == y[0] == '%' && Decoded(signedChar, x, mode) == Decoded(signedChar, y, mode)
    ensures Decoded(signedChar, before + x, mode) == Decoded(signedChar, before + y, mode)
    decreases |before|
  {
    if before == [] {
      PrependNothing(x);
      PrependNothing(y);
    } else {
      SameFirst(signedChar, before, x, y, mode);
      var first := DecodeFirst(signedChar, before + x, mode);
      if first.Some? {
        DropBefore(before, x, first.value.1);
        DropBefore(before, y, first.value.1);
        SameBehind(signedChar, before[first.value.1..], x, y, mode);
      }
    }
  }

  lemma DropBefore(a: Bytes, b: Bytes, n: nat)
    requires n <= |a|
    ensures (a + b)[n..] == a[n..] + b
  {
  }

  /** The first step does not look past a percent sign that follows. */
  lemma SameFirst(signedChar: bool, before: Bytes, x: Bytes, y: Bytes, mode: Mode)
    requires before != [] && |x| == |y| > 0 && x[0] == y[0] == '%'
    ensures DecodeFirst(signedChar, before + x, mode) == DecodeFirst(signedChar, before + y, mode)
    ensures var first := DecodeFirst(signedChar, before + x, mode); first.Some? ==> first.value.1 <= |before|
  {
    var s, t := before + x, before + y;
    assert s[0] == t[0] == before[0];
    if before[0] == '%' {
      if |before| == 1 {
        assert |s| > 1 ==> s[1] == '%';
        assert |t| > 1 ==> t[1] == '%';
      } else if |before| == 2 {
        assert |s| > 2 ==> s[2] == '%';
        assert |t| > 2 ==> t[2] == '%';
      } else {
        assert s[..3] == before[..3] == t[..3] && s[1] == t[1] == before[1] && s[2] == t[2] == before[2];
      }
    }
  }

  /** A percent sign without two digits behind it makes the decoder refuse, wherever it stands. */
  lemma {:induction false} MalformedIsRefused(signedChar: bool, before: Bytes, s: Bytes, mode: Mode)
    requires '%' !in before && s != [] && s[0] == '%'
    requires |s| < 3 || (forall d, lower :: 0 <= d < 16 ==> s[1] != Digit(d, lower))
                     || (forall d, lower :: 0 <= d < 16 ==> s[2] != Digit(d, lower))
    ensures Decoded(signedChar, before + s, mode).None? && Unescaped(signedChar, before + s, mode) == ""
    decreases |before|
  {
    if before == [] {
      PrependNothing(s);
      if |s| >= 3 {
        DigitsExactly(s[1]);
        DigitsExactly(s[2]);
      }
    } else {
      assert (before + s)[0] == before[0] != '%' && (before + s)[1..] == before[1..] + s;
      MalformedIsRefused(signedChar, before[1..], s, mode);
    }
  }

  /** What any other byte stands for: a plus sign of a query for the space, everything else for itself;
      but in host and zone names only if it need not be escaped or, where characters are unsigned, is
      outside ASCII. */
  lemma RawByte(signedChar: bool, c: Byte, rest: Bytes, mode: Mode)
    requires c != '%'
    ensures DecodeFirst(signedChar, [c] + rest, mode) ==
            if mode == QueryComponent && c == '+' then Some((' ', 1))
            else if (mode == Host || mode == Zone) && !IsUnreserved(c) && c !in "!$&()'*+,;=:[]<>\"" && (signedChar || c as int < 128) then None
            else Some((c, 1))
  {
    EscapesExactly(c, mode);
    assert ([c] + rest)[0] == c;
  }

  // ----- what is escaped

  /** The unreserved characters of section 2.3 of RFC 3986. */
  predicate IsUnreserved(c: Byte) { IsAlphanumeric(c) || c in "-._~" }

  /** They are the letters, the digits and four marks. */
  lemma UnreservedExactly(c: Byte)
    ensures IsUnreserved(c) <==>
            || c in "ABCDEFGHIJKLMNOPQRSTUVWXYZ" || c in "abcdefghijklmnopqrstuvwxyz"
            || c in "0123456789" || c in "-._~"
  {
    LetterOf(c, 'A', "ABCDEFGHIJKLMNOPQRSTUVWXYZ");
    LetterOf(c, 'a', "abcdefghijklmnopqrstuvwxyz");
    LetterOf(c, '0', "0123456789");
  }

  /** A run of consecutive characters holds exactly those from its first to its last. */
  lemma LetterOf(c: Byte, first: Byte, run: string)
    requires run != "" && forall i :: 0 <= i < |run| ==> run[i] as int == first as int + i
    ensures c in run <==> first <= c <= run[|run| - 1]
  {
    if first <= c <= run[|run| - 1] { assert c == run[c as int - first as int]; }
  }

  /** What each mode leaves as it is besides the unreserved characters. */
  function Plain(mode: Mode): string {
    match mode
    case Path => "&,;@$+=:/"
    case PathSegment => "&@$+=:"
    case UserPassword => "&,;$+="
    case QueryComponent => ""
    case Fragment => "&,;?@$+=:/!()*"
    case Host => "!$&()'*+,;=:[]<>\""
    case Zone => "!$&()'*+,;=:[]<>\""
  }

  /** The nested tests amount to one table: unreserved characters are never escaped, others exactly
      when the mode does not list them. */
  lemma EscapesExactly(c: Byte, mode: Mode)
    ensures ShouldEscape(c, mode) <==> !IsUnreserved(c) && c !in Plain(mode)
  {
    match mode
    case Path =>
    case PathSegment =>
    case UserPassword =>
    case QueryComponent =>
    case Fragment =>
    case Host =>
    case Zone =>
  }

  predicate InAlphabet(c: Byte, mode: Mode) {
    IsUnreserved(c) || c == '%' || c in Plain(mode) || (c == '+' && mode == QueryComponent)
  }

  /** An encoded string is written in the mode's own alphabet: no delimiter of the component it is put
      into can occur in it. */
  lemma {:induction false} EncodedAlphabet(s: Bytes, mode: Mode)
    ensures forall i :: 0 <= i < |Encoded(s, mode)| ==> InAlphabet(Encoded(s, mode)[i], mode)
  {
    if s != [] {
      EncodedAlphabet(s[1..], mode);
      EscapedByteAlphabet(s[0], mode);
    }
  }

  lemma EscapedByteAlphabet(c: Byte, mode: Mode)
    ensures forall i :: 0 <= i < |EscapeByte(c, mode)| ==> InAlphabet(EscapeByte(c, mode)[i], mode)
  {
    EscapesExactly(c, mode);
    var e := EscapeByte(c, mode);
    forall i | 0 <= i < |e| ensures InAlphabet(e[i], mode) {
      assert IsHex(e[i]) ==> IsAlphanumeric(e[i]);
    }
  }

  // ----- lengths and early returns

  function HexCount(s: Bytes, mode: Mode): nat {
    if s == [] then 0
    else HexCount(s[1..], mode) + if ShouldEscape(s[0], mode) && !(s[0] == ' ' && mode == QueryComponent) then 1 else 0
  }

  /** The counting pass of the encoder predicts the exact length. */
  lemma {:induction false} EncodedLength(s: Bytes, mode: Mode)
    ensures |Encoded(s, mode)| == |s| + 2 * HexCount(s, mode)
  {
    if s != [] { EncodedLength(s[1..], mode); }
  }

  /** The early return of the encoder agrees with its loop. */
  lemma {:induction false} NothingToEscape(s: Bytes, mode: Mode)
    requires forall i :: 0 <= i < |s| ==> !ShouldEscape(s[i], mode)
    ensures Encoded(s, mode) == s
  {
    if s != [] {
      NothingToEscape(s[1..], mode);
      assert s == [s[0]] + s[1..];
    }
  }

  /** `Escape`. */
  method Escape(s: Bytes, mode: Mode) returns (r: Bytes)
    ensures r == Encoded(s, mode)
  {
    var spaceCount, hexCount := 0, 0;
    assert s[0..] == s;
    for i := 0 to |s|
      invariant hexCount + HexCount(s[i..], mode) == HexCount(s, mode) && hexCount >= 0 && spaceCount >= 0
      invariant spaceCount == 0 && hexCount == 0 ==> forall k :: 0 <= k < i ==> !ShouldEscape(s[k], mode)
    {
      assert s[i..][1..] == s[i + 1..];
      if ShouldEscape(s[i], mode) {
        if s[i] == ' ' && mode == QueryComponent {
          spaceCount := spaceCount + 1;
        } else {
          hexCount := hexCount + 1;
        }
      }
    }
    assert s[|s|..] == [];
    if spaceCount == 0 && hexCount == 0 {
      NothingToEscape(s, mode);
      return s;
    }
    EncodedLength(s, mode);
    r := FillEscaped(s, mode, |s| + 2 * hexCount);
  }

  /** The filling pass of the encoder, into a string of the predicted length. */
  method FillEscaped(s: Bytes, mode: Mode, length: nat) returns (r: Bytes)
    requires length == |Encoded(s, mode)|
    ensures r == Encoded(s, mode)
  {
    var t := new Byte[length](_ => '0');
    var j := 0;
    assert s[0..] == s;
    for i := 0 to |s|
      invariant 0 <= j <= t.Length && t[..j] + Encoded(s[i..], mode) == Encoded(s, mode)
    {
      EscapeStep(t[..j], s, i, mode);
      j := PutEscaped(t, j, s[i], mode);
    }
    assert s[|s|..] == [] && t[..j] + [] == t[..j];
    r := t[..];
  }

  lemma EscapeStep(done: Bytes, s: Bytes, i: nat, mode: Mode)
    requires i < |s|
    ensures done + Encoded(s[i..], mode) == done + EscapeByte(s[i], mode) + Encoded(s[i + 1..], mode)
    ensures |done + Encoded(s[i..], mode)| >= |done| + |EscapeByte(s[i], mode)|
  {
    assert s[i..][1..] == s[i + 1..];
  }

  /** Writes one byte's encoding into the next cells. */
  method PutEscaped(t: array<Byte>, j0: nat, c: Byte, mode: Mode) returns (j: nat)
    requires j0 + |EscapeByte(c, mode)| <= t.Length
    modifies t
    ensures j == j0 + |EscapeByte(c, mode)| && t[..j] == old(t[..j0]) + EscapeByte(c, mode)
  {
    j := j0;
    if c == ' ' && mode == QueryComponent {
      t[j] := '+';
      j := j + 1;
    } else if ShouldEscape(c, mode) {
      t[j] := '%';
      t[j + 1] := UpperHex(c as int / 16);
      t[j + 2] := UpperHex(c as int % 16);
      j := j + 3;
    } else {
      t[j] := c;
      j := j + 1;
    }
  }

  // ----- the two passes of the decoder

  /** `UnescapeDealWithPercentSign`: checks the escape at position i. */
  method CheckEscape(s: Bytes, i: nat, mode: Mode) returns (ok: bool)
    requires i < |s|
    ensures ok == GoodEscape(s[i..], mode)
  {
    if i + 2 >= |s| || !IsHex(s[i + 1]) || !IsHex(s[i + 2]) {
      return false;
    }
    assert s[i..][..3] == s[i..i + 3];
    if mode == Host && HexDigit(s[i + 1]) < 8 && s[i..i + 3] != "%25" {
      return false;
    }
    if mode == Zone {
      var v := HexValue(s[i + 1], s[i + 2]);
      if s[i..i + 3] != "%25" && v != ' ' && ShouldEscape(v, Host) {
        return false;
      }
    }
    return true;
  }

  /** `CalculatePercentNum`: the number of escapes, or None for a malformed input, and whether a plus
      sign has to be decoded. */
  method CalculatePercentNum(signedChar: bool, s: Bytes, mode: Mode) returns (r: Option<nat>, hasPlus: bool)
    ensures r.Some? <==> Decoded(signedChar, s, mode).Some?
    ensures r.Some? ==> |Decoded(signedChar, s, mode).value| == |s| - 2 * r.value
    ensures r == Some(0) && !hasPlus ==> Decoded(signedChar, s, mode) == Some(s)
  {
    var n, i := 0, 0;
    hasPlus := false;
    assert s[0..] == s && s[..0] + s[0..] == s;
    while i < |s|
      invariant 0 <= i <= |s| && 0 <= n && Counted(signedChar, s, i, n, hasPlus, mode)
    {
      var ok;
      ok, i, n, hasPlus := CountOne(signedChar, s, i, n, hasPlus, mode);
      if !ok {
        return None, hasPlus;
      }
    }
    assert s[i..] == [] && s[..i] + [] == s;
    r := Some(n);
  }

  /** The body of the counting loop. */
  method CountOne(signedChar: bool, s: Bytes, i0: nat, n0: nat, hasPlus0: bool, mode: Mode)
    returns (ok: bool, i: nat, n: nat, hasPlus: bool)
    requires i0 < |s| && Counted(signedChar, s, i0, n0, hasPlus0, mode)
    ensures !ok ==> Decoded(signedChar, s, mode).None?
    ensures ok ==> i0 < i <= |s| && Counted(signedChar, s, i, n, hasPlus, mode)
  {
    CountStep(signedChar, s, i0, n0, hasPlus0, mode);
    i, n, hasPlus := i0, n0, hasPlus0;
    var k := StepLength(signedChar, s, i, mode);
    if k == 0 {
      return false, i, n, hasPlus;
    }
    if s[i] == '%' {
      n := n + 1;
    } else if s[i] == '+' {
      hasPlus := mode == QueryComponent;
    }
    return true, i + k, n, hasPlus;
  }

  /** How far the counting pass moves at position i; 0 when it gives up. */
  method StepLength(signedChar: bool, s: Bytes, i: nat, mode: Mode) returns (k: nat)
    requires i < |s|
    ensures match DecodeFirst(signedChar, s[i..], mode) case None => k == 0 case Some((_, n)) => k == n
    ensures k == 3 <==> k != 0 && s[i] == '%'
  {
    if s[i] == '%' {
      var ok := CheckEscape(s, i, mode);
      return if ok then 3 else 0;
    } else if s[i] == '+' {
      return 1;
    } else if InNameMode(mode) && IsBelow0x80(signedChar, s[i]) && ShouldEscape(s[i], mode) {
      return 0;
    }
    return 1;
  }

  /** What the counting pass knows at position i. */
  ghost predicate Counted(signedChar: bool, s: Bytes, i: nat, n: nat, hasPlus: bool, mode: Mode)
    requires i <= |s|
  {
    (hasPlus ==> mode == QueryComponent) && CountedAs(Decoded(signedChar, s, mode), Decoded(signedChar, s[i..], mode), s, i, n, hasPlus)
  }

  ghost predicate CountedAs(all: Option<Bytes>, rest: Option<Bytes>, s: Bytes, i: nat, n: nat, hasPlus: bool)
    requires i <= |s|
  {
    && (all.Some? <==> rest.Some?)
    && (all.Some? ==> |all.value| == i - 2 * n + |rest.value|)
    && (all.Some? && n == 0 && !hasPlus ==> all.value == s[..i] + rest.value)
  }

  lemma CountStep(signedChar: bool, s: Bytes, i: nat, n: nat, hasPlus: bool, mode: Mode)
    requires i < |s| && Counted(signedChar, s, i, n, hasPlus, mode)
    ensures var first := DecodeFirst(signedChar, s[i..], mode);
            if first.None? then Decoded(signedChar, s, mode).None?
            else Counted(signedChar, s, i + first.value.1, if first.value.1 == 3 then n + 1 else n,
                         if s[i] == '+' then mode == QueryComponent else hasPlus, mode)
  {
    var first := DecodeFirst(signedChar, s[i..], mode);
    if first.None? {
      DecodeStep(signedChar, s, i, mode);
    } else {
      CountGoesOn(signedChar, s, i, n, hasPlus, mode, first.value.0, first.value.1, if s[i] == '+' then mode == QueryComponent else hasPlus);
    }
  }

  lemma CountGoesOn(signedChar: bool, s: Bytes, i: nat, n: nat, hasPlus: bool, mode: Mode, c: Byte, k: nat, hasPlus': bool)
    requires i < |s| && Counted(signedChar, s, i, n, hasPlus, mode) && DecodeFirst(signedChar, s[i..], mode) == Some((c, k))
    requires hasPlus' == if s[i] == '+' then mode == QueryComponent else hasPlus
    ensures Counted(signedChar, s, i + k, if k == 3 then n + 1 else n, hasPlus', mode)
  {
    DecodeStep(signedChar, s, i, mode);
    FirstLiteral(signedChar, s, i, mode);
    StepCounts(Decoded(signedChar, s, mode), Decoded(signedChar, s[i..], mode), Decoded(signedChar, s[i + k..], mode), c, k, s, i, n, hasPlus, hasPlus');
  }

  lemma StepCounts(all: Option<Bytes>, rest: Option<Bytes>, rest': Option<Bytes>, c: Byte, k: nat,
                   s: Bytes, i: nat, n: nat, hasPlus: bool, hasPlus': bool)
    requires i + k <= |s| && CountedAs(all, rest, s, i, n, hasPlus) && (k == 1 || k == 3)
    requires rest == if rest'.None? then None else Some([c] + rest'.value)
    requires !hasPlus' ==> !hasPlus && (k == 1 ==> c == s[i])
    ensures CountedAs(all, rest', s, i + k, if k == 3 then n + 1 else n, hasPlus')
  {
    if all.Some? && k == 1 { TakeOne(all.value, s, i, c, rest'.value); }
  }

  /** A step that is no escape and no decoded plus gives the byte itself. */
  lemma FirstLiteral(signedChar: bool, s: Bytes, i: nat, mode: Mode)
    requires i < |s|
    ensures var first := DecodeFirst(signedChar, s[i..], mode);
            first.Some? && first.value.1 == 1 && !(s[i] == '+' && mode == QueryComponent) ==> first.value.0 == s[i]
    ensures var first := DecodeFirst(signedChar, s[i..], mode); first.Some? ==> (first.value.1 == 3 <==> s[i] == '%')
  {
  }

  lemma TakeOne(all: Bytes, s: Bytes, i: nat, c: Byte, rest: Bytes)
    requires i < |s|
    ensures c == s[i] && all == s[..i] + ([c] + rest) ==> all == s[..i + 1] + rest
  {
    assert s[..i + 1] == s[..i] + [s[i]];
    Assoc(s[..i], [s[i]], rest);
  }

  /** Decoding may proceed from the left, one step at a time. */
  lemma DecodeStep(signedChar: bool, s: Bytes, i: nat, mode: Mode)
    requires i < |s|
    ensures var first := DecodeFirst(signedChar, s[i..], mode);
            Decoded(signedChar, s[i..], mode) ==
            if first.None? || Decoded(signedChar, s[i + first.value.1..], mode).None? then None
            else Some([first.value.0] + Decoded(signedChar, s[i + first.value.1..], mode).value)
    ensures s[..i + 1] == s[..i] + [s[i]]
  {
    var r := DecodeFirst(signedChar, s[i..], mode);
    if r.Some? { assert s[i..][r.value.1..] == s[i + r.value.1..]; }
  }

  /** `DoUnescape`: the filling pass, into a string of the predicted length. */
  method DoUnescape(signedChar: bool, t: array<Byte>, s: Bytes, mode: Mode)
    requires Decoded(signedChar, s, mode).Some? && t.Length == |Decoded(signedChar, s, mode).value|
    modifies t
    ensures t[..] == Decoded(signedChar, s, mode).value
  {
    var i, j := 0, 0;
    assert s[0..] == s;
    while i < |s|
      invariant 0 <= i <= |s| && 0 <= j <= t.Length && Decoded(signedChar, s[i..], mode).Some?
      invariant t[..j] + Decoded(signedChar, s[i..], mode).value == Decoded(signedChar, s, mode).value
    {
      DecodedNonempty(signedChar, s, i, mode);
      i := PutDecoded(signedChar, t, j, s, i, mode);
      j := j + 1;
    }
    assert s[i..] == [] && t[..j] + [] == t[..j];
  }

  lemma DecodedNonempty(signedChar: bool, s: Bytes, i: nat, mode: Mode)
    requires i < |s| && Decoded(signedChar, s[i..], mode).Some?
    ensures |Decoded(signedChar, s[i..], mode).value| > 0
  {
  }

  /** The body of the filling loop: one cell is written, one step of the input is taken. */
  method PutDecoded(signedChar: bool, t: array<Byte>, j: nat, s: Bytes, i0: nat, mode: Mode) returns (i: nat)
    requires i0 < |s| && j < t.Length && Decoded(signedChar, s[i0..], mode).Some?
    modifies t
    ensures i0 < i <= |s| && Decoded(signedChar, s[i..], mode).Some?
    ensures t[..j + 1] + Decoded(signedChar, s[i..], mode).value == old(t[..j]) + Decoded(signedChar, s[i0..], mode).value
  {
    DecodeStep(signedChar, s, i0, mode);
    var c, n := DecodeOne(signedChar, s, i0, mode);
    t[j] := c;
    i := i0 + n;
    Assoc(t[..j], [c], Decoded(signedChar, s[i..], mode).value);
    assert t[..j + 1] == t[..j] + [c];
  }

  /** The switch of the filling loop: the byte to write and the bytes taken. */
  method DecodeOne(signedChar: bool, s: Bytes, i: nat, mode: Mode) returns (c: Byte, n: nat)
    requires i < |s| && DecodeFirst(signedChar, s[i..], mode).Some?
    ensures DecodeFirst(signedChar, s[i..], mode) == Some((c, n))
  {
    if s[i] == '%' {
      return HexValue(s[i + 1], s[i + 2]), 3;
    } else if s[i] == '+' {
      return if mode == QueryComponent then ' ' else '+', 1;
    }
    return s[i], 1;
  }

  /** `Unescape`. */
  method Unescape(signedChar: bool, s: Bytes, mode: Mode) returns (r: Bytes)
    ensures r == Unescaped(signedChar, s, mode)
  {
    var n, hasPlus := CalculatePercentNum(signedChar, s, mode);
    if n.None? {
      return "";
    }
    if n.value == 0 && !hasPlus {
      return s;
    }
    var t := new Byte[|s| - 2 * n.value](_ => '0');
    DoUnescape(signedChar, t, s, mode);
    r := t[..];
  }

  // ----- the path of a URL

  predicate IsSubDelimiter(c: Byte) { c in "!$&'()*+,;=:@[]%" }

  predicate IsValidEncodedPath(s: Bytes) {
    forall i :: 0 <= i < |s| ==> IsSubDelimiter(s[i]) || !ShouldEscape(s[i], Path)
  }

  /** The bytes of a valid path: unreserved characters, sub-delimiters, and a few more. */
  lemma ValidPathBytes(s: Bytes)
    ensures IsValidEncodedPath(s) <==> forall i :: 0 <= i < |s| ==> IsUnreserved(s[i]) || s[i] in "!$&'()*+,;=" || s[i] in ":@/[]%"
  {
    forall i | 0 <= i < |s|
      ensures IsSubDelimiter(s[i]) || !ShouldEscape(s[i], Path) <==>
              IsUnreserved(s[i]) || s[i] in "!$&'()*+,;=" || s[i] in ":@/[]%"
    {
      EscapesExactly(s[i], Path);
    }
  }

  /** `ValidEncodedPath`. */
  method ValidEncodedPath(s: Bytes) returns (b: bool)
    ensures b == IsValidEncodedPath(s)
  {
    for i := 0 to |s|
      invariant forall k :: 0 <= k < i ==> IsSubDelimiter(s[k]) || !ShouldEscape(s[k], Path)
    {
      if IsSubDelimiter(s[i]) {
        continue;
      }
      if ShouldEscape(s[i], Path) {
        return false;
      }
    }
    return true;
  }

  /** The spelling a path object answers with. */
  function Spelling(signedChar: bool, path: Bytes, rawPath: Bytes): Bytes {
    if rawPath != [] && IsValidEncodedPath(rawPath) && Unescaped(signedChar, rawPath, Path) != [] && Unescaped(signedChar, rawPath, Path) == path
    then rawPath
    else if path == "*" then "*"
    else Encoded(path, Path)
  }

  /** The fields after `SetPath(p)`, if it succeeds. */
  function Stored(signedChar: bool, p: Bytes): Option<(Bytes, Bytes)> {
    var path := Unescaped(signedChar, p, Path);
    if path == [] then None else Some((path, if p == Encoded(path, Path) then [] else p))
  }

  /** A path is stored exactly if it is not empty and can be decoded. */
  lemma StoredExactly(signedChar: bool, p: Bytes)
    ensures Stored(signedChar, p).Some? <==> p != [] && Decoded(signedChar, p, Path).Some?
  {
  }

  lemma StarDecodes(signedChar: bool)
    ensures Unescaped(signedChar, "*", Path) == "*" && Encoded("*", Path) == "%2A" && Unescaped(signedChar, "%2A", Path) == "*"
  {
    assert "*"[1..] == [] && Encoded([], Path) == [];
    assert EscapeByte('*', Path) == "%2A";
    EscapeRoundTripAllBytes(signedChar, "*", Path);
    assert DecodeFirst(signedChar, "*", Path) == Some(('*', 1));
  }

  /** Whatever the two fields hold, unescaping the answer gives back the stored path. */
  lemma SpellingDecodes(signedChar: bool, path: Bytes, rawPath: Bytes)
    ensures Unescaped(signedChar, Spelling(signedChar, path, rawPath), Path) == path
  {
    StarDecodes(signedChar);
    EscapeRoundTripAllBytes(signedChar, path, Path);
  }

  /** What the encoder writes is a valid encoded path. */
  lemma {:induction false} EncodedIsValid(s: Bytes)
    ensures IsValidEncodedPath(Encoded(s, Path))
  {
    if s != [] {
      EncodedIsValid(s[1..]);
      var e := EscapeByte(s[0], Path);
      forall i | 0 <= i < |e| ensures IsSubDelimiter(e[i]) || !ShouldEscape(e[i], Path) {
        assert IsHex(e[i]) ==> IsAlphanumeric(e[i]);
      }
    }
  }

  /** After a successful SetPath(p) the object answers with p itself exactly when p is a valid encoded
      path other than the one spelling of the asterisk that the encoder would choose. */
  lemma SpellingRemembered(signedChar: bool, p: Bytes)
    requires Stored(signedChar, p).Some?
    ensures Spelling(signedChar, Stored(signedChar, p).value.0, Stored(signedChar, p).value.1) == p <==> IsValidEncodedPath(p) && p != "%2A"
  {
    var path := Unescaped(signedChar, p, Path);
    StarDecodes(signedChar);
    EncodedIsValid(path);
    if p == "*" { assert IsSubDelimiter('*'); }
  }

  class URLDatum {
    const signedChar: bool
    var path: Bytes
    var rawPath: Bytes

    constructor (signedChar: bool)
      ensures path == [] && rawPath == [] && this.signedChar == signedChar
    {
      this.signedChar := signedChar;
      path, rawPath := [], [];
    }

    method SetPath(p: Bytes) returns (ok: bool)
      modifies this
      ensures ok == Stored(signedChar, p).Some?
      ensures if ok then (path, rawPath) == Stored(signedChar, p).value else path == old(path) && rawPath == old(rawPath)
    {
      var decoded := Unescape(signedChar, p, Path);
      if decoded == [] {
        return false;
      }
      path := decoded;
      var escp := Escape(decoded, Path);
      rawPath := if p == escp then [] else p;
      return true;
    }

    method EscapedPath() returns (r: Bytes)
      ensures r == Spelling(signedChar, path, rawPath) && Unescaped(signedChar, r, Path) == path
    {
      SpellingDecodes(signedChar, path, rawPath);
      if rawPath != [] {
        var valid := ValidEncodedPath(rawPath);
        if valid {
          var p := Unescape(signedChar, rawPath, Path);
          if p != [] && p == path {
            return rawPath;
          }
        }
      }
      if path == "*" {
        return "*";
      }
      r := Escape(path, Path);
    }
  }
}
