/** Decoding the HTML entities of a captured attribute value in one left-to-right pass. */
module Entities {
  import opened Common

  const NBSP: char := '\U{00A0}'

  // ---- Numeric references ----

  predicate IsDigit(c: char, hex: bool) {
    '0' <= c <= '9' || (hex && ('a' <= c <= 'f' || 'A' <= c <= 'F'))
  }

  function DigitValue(c: char): (v: nat)
    requires IsDigit(c, true)
    ensures v < 16 && (c <= '9' ==> v < 10)
  {
    if c <= '9' then c as int - '0' as int
    else if c <= 'F' then c as int - 'A' as int + 10
    else c as int - 'a' as int + 10
  }

  function Base(hex: bool): nat {
    if hex then 16 else 10
  }

  /** Length of the longest run of digits at the front. */
  function DigitRun(s: string, hex: bool): (n: nat)
    ensures n <= |s| && forall i :: 0 <= i < n ==> IsDigit(s[i], hex)
  {
    if s == "" || !IsDigit(s[0], hex) then 0 else 1 + DigitRun(s[1..], hex)
  }

  function NumberOf(digits: string, hex: bool): nat
    requires forall i :: 0 <= i < |digits| ==> IsDigit(digits[i], hex)
  {
    if digits == "" then 0
    else
      assert IsDigit(digits[|digits| - 1], hex);
      NumberOf(digits[..|digits| - 1], hex) * Base(hex) + DigitValue(digits[|digits| - 1])
  }

  /** `char::from_u32`: a Unicode scalar value; anything that overflows `u32` is none either. */
  predicate IsScalar(v: nat) {
    v < 0xD800 || 0xE000 <= v < 0x11_0000
  }

  /** `match_entity` after `&#`: optional `x`, digits, optional `;`. */
  function MatchNumeric(s: string): (r: Option<(char, nat)>)
    requires |s| >= 2
    ensures r.Some? ==> 2 < r.value.1 <= |s|
  {
    var hex := |s| > 2 && (s[2] == 'x' || s[2] == 'X');
    var start := if hex then 3 else 2;
    var n := DigitRun(s[start..], hex);
    if n == 0 then None
    else
      assert forall i :: 0 <= i < n ==> s[start..start + n][i] == s[start..][i];
      var v := NumberOf(s[start..start + n], hex);
      var end := start + n;
      if !IsScalar(v) then None
      else Some((v as char, if end < |s| && s[end] == ';' then end + 1 else end))
  }

  /** `match_entity`: the character an entity at the front of `s` stands for, and its length. */
  function MatchEntity(s: string): (r: Option<(char, nat)>)
    requires s != "" && s[0] == '&'
    ensures r.Some? ==> 1 < r.value.1 <= |s|
  {
    if "&amp;" <= s then Some(('&', 5))
    else if "&lt;" <= s then Some(('<', 4))
    else if "&gt;" <= s then Some(('>', 4))
    else if "&quot;" <= s then Some(('"', 6))
    else if "&apos;" <= s then Some(('\'', 6))
    else if "&#" <= s then MatchNumeric(s)
    else None
  }

  /** The decoded text: what an entity stands for is emitted and never read again. */
  function Decode(s: string): string
    decreases |s|
  {
    if s == "" then ""
    else if s[0] != '&' then [s[0]] + Decode(s[1..])
    else match MatchEntity(s)
         case Some((c, n)) => [c] + Decode(s[n..])
         case None => "&" + Decode(s[1..])
  }

  /** Text without `&` at its front is copied. */
  lemma {:induction false} DecodeCopies(plain: string, rest: string)
    requires '&' !in plain
    ensures Decode(plain + rest) == plain + Decode(rest)
  {
    if plain == "" {
      assert plain + rest == rest;
    } else {
      assert (plain + rest)[1..] == plain[1..] + rest;
      DecodeCopies(plain[1..], rest);
      assert plain == [plain[0]] + plain[1..];
    }
  }

  method FindAmpersand(s: string) returns (at: Option<nat>)
    ensures at.Some? ==> at.value < |s| && s[at.value] == '&' && '&' !in s[..at.value]
    ensures at.None? ==> '&' !in s
  {
    for i := 0 to |s|
      invariant '&' !in s[..i]
    {
      if s[i] == '&' {
        return Some(i);
      }
    }
    assert s[..|s|] == s;
    return None;
  }

  /** Read the entity, or the bare `&`, at the front: what it emits and what is left. */
  function Consume(tail: string): (r: (string, string))
    requires tail != "" && tail[0] == '&'
    ensures |r.1| < |tail| && Decode(tail) == r.0 + Decode(r.1)
  {
    match MatchEntity(tail)
    case Some((c, n)) => ([c], tail[n..])
    case None => ("&", tail[1..])
  }

  lemma Glue(front: string, tail: string, piece: string, rest: string)
    requires tail == piece + rest
    ensures front + tail == front + piece + rest
  {
  }

  /** One turn of the decoder's loop: copy up to the `&`, then consume it. */
  lemma DecodeAt(s: string, at: nat, piece: string, left: string)
    requires at < |s| && '&' !in s[..at] && Decode(s[at..]) == piece + Decode(left)
    ensures Decode(s) == s[..at] + piece + Decode(left)
  {
    var front, tail := s[..at], s[at..];
    assert s == front + tail;
    DecodeCopies(front, tail);
    Glue(front, Decode(tail), piece, Decode(left));
  }

  /** `decode_html_entities`: jump from one `&` to the next. */
  method DecodeHtmlEntities(input: string) returns (out: string)
    ensures out == Decode(input)
  {
    out := "";
    var rest := input;
    var at: Option<nat> := FindAmpersand(rest);
    while at.Some?
      invariant at.Some? ==> at.value < |rest| && rest[at.value] == '&' && '&' !in rest[..at.value]
      invariant at.None? ==> '&' !in rest
      invariant out + Decode(rest) == Decode(input)
      decreases |rest|
    {
      var (piece, left) := Consume(rest[at.value..]);
      DecodeAt(rest, at.value, piece, left);
      out := out + (rest[..at.value] + piece);
      rest := left;
      at := FindAmpersand(rest);
    }
    DecodeCopies(rest, "");
    assert rest + "" == rest;
    out := out + rest;
  }

  // ---- Escaping, and the round trip ----

  /**
   * Serializing an attribute value (section 13.3 of the WHATWG HTML Standard). `angles` covers the later
   * revision of that section, which also escapes `<` and `>` in attributes.
   */
  function EscapeChar(c: char, angles: bool): string {
    if c == '&' then "&amp;"
    else if c == NBSP then "&nbsp;"
    else if c == '"' then "&quot;"
    else if angles && c == '<' then "&lt;"
    else if angles && c == '>' then "&gt;"
    else [c]
  }

  function Escape(s: string, angles: bool): string {
    if s == "" then "" else EscapeChar(s[0], angles) + Escape(s[1..], angles)
  }

  /** `s` with every no-break space spelt `&nbsp;`, the one entity the decoder does not know. */
  function SpellNbsp(s: string): string {
    if s == "" then "" else (if s[0] == NBSP then "&nbsp;" else [s[0]]) + SpellNbsp(s[1..])
  }

  lemma DecodeNbsp(rest: string)
    ensures Decode("&nbsp;" + rest) == "&nbsp;" + Decode(rest)
  {
    var s := "&nbsp;" + rest;
    assert s[0] == '&' && s[1] == 'n';
    assert MatchEntity(s).None?;
    assert s[1..] == "nbsp;" + rest;
    DecodeCopies("nbsp;", rest);
    assert "&" + ("nbsp;" + Decode(rest)) == "&nbsp;" + Decode(rest);
  }

  lemma DecodeEscapedChar(c: char, angles: bool, rest: string)
    requires c != NBSP
    ensures Decode(EscapeChar(c, angles) + rest) == [c] + Decode(rest)
  {
    var e := EscapeChar(c, angles);
    var s := e + rest;
    assert s[|e|..] == rest;
    if |e| > 1 {
      assert s[0] == '&' && s[1] == e[1];
      assert e <= s;
      assert MatchEntity(s) == Some((c, |e|));
    }
  }

  /** Decoding undoes escaping, apart from no-break spaces, whatever the text contains. */
  lemma {:induction false} DecodeEscape(s: string, angles: bool)
    ensures Decode(Escape(s, angles)) == SpellNbsp(s)
  {
    if s != "" {
      var rest := Escape(s[1..], angles);
      DecodeEscape(s[1..], angles);
      if s[0] == NBSP {
        DecodeNbsp(rest);
      } else {
        DecodeEscapedChar(s[0], angles, rest);
      }
    }
  }

  lemma {:induction false} SpellNbspChanges(s: string)
    ensures |SpellNbsp(s)| >= |s|
    ensures NBSP !in s ==> SpellNbsp(s) == s
    ensures NBSP in s ==> |SpellNbsp(s)| > |s|
  {
    if s != "" {
      SpellNbspChanges(s[1..]);
      assert s == [s[0]] + s[1..];
    }
  }

  /** The round trip holds for a string if and only if it has no no-break space. */
  lemma RoundTrip(s: string, angles: bool)
    ensures Decode(Escape(s, angles)) == s <==> NBSP !in s
  {
    DecodeEscape(s, angles);
    SpellNbspChanges(s);
  }

  lemma {:induction false} EscapeHasNoNbsp(s: string, angles: bool)
    ensures NBSP !in Escape(s, angles)
  {
    if s != "" {
      EscapeHasNoNbsp(s[1..], angles);
    }
  }

  lemma EscapedCharIsSafe(c: char, angles: bool)
    ensures '"' !in EscapeChar(c, angles)
    ensures angles ==> '<' !in EscapeChar(c, angles) && '>' !in EscapeChar(c, angles)
    ensures !angles && (c == '<' || c == '>') ==> EscapeChar(c, angles) == [c]
  {
  }

  /** An escaped text can stand between double quotes, and with `angles` holds no angle bracket either. */
  lemma {:induction false} EscapedIsSafe(s: string, angles: bool)
    ensures '"' !in Escape(s, angles)
    ensures angles ==> '<' !in Escape(s, angles) && '>' !in Escape(s, angles)
  {
    if s != "" {
      EscapedCharIsSafe(s[0], angles);
      EscapedIsSafe(s[1..], angles);
      assert Escape(s, angles) == EscapeChar(s[0], angles) + Escape(s[1..], angles);
    }
  }

  /** Output is never rescanned: decoding a twice-escaped text removes one layer only (`&amp;lt;` gives `&lt;`). */
  lemma OneLayerAtATime(s: string, angles: bool)
    ensures Decode(Escape(Escape(s, angles), angles)) == Escape(s, angles)
  {
    EscapeHasNoNbsp(s, angles);
    RoundTrip(Escape(s, angles), angles);
  }

  // ---- Numeric references decode to the code point they spell ----

  function DigitChar(d: nat): (c: char)
    requires d < 16
    ensures IsDigit(c, true) && DigitValue(c) == d && (d < 10 ==> IsDigit(c, false))
  {
    if d < 10 then ('0' as int + d) as char else ('a' as int + d - 10) as char
  }

  /** `v` written out in the base. */
  function Numeral(v: nat, hex: bool): (s: string)
    ensures s != "" && forall i :: 0 <= i < |s| ==> IsDigit(s[i], hex)
    decreases v
  {
    if hex then
      if v < 16 then [DigitChar(v)] else Numeral(v / 16, hex) + [DigitChar(v % 16)]
    else
      if v < 10 then [DigitChar(v)] else Numeral(v / 10, hex) + [DigitChar(v % 10)]
  }

  lemma {:induction false} NumeralValue(v: nat, hex: bool)
    ensures NumberOf(Numeral(v, hex), hex) == v
    decreases v
  {
    var s := Numeral(v, hex);
    if v < Base(hex) {
      assert s[..0] == "";
    } else {
      NumeralValue(v / Base(hex), hex);
      assert s[..|s| - 1] == Numeral(v / Base(hex), hex);
    }
  }

  lemma {:induction false} DigitRunOf(digits: string, rest: string, hex: bool)
    requires forall i :: 0 <= i < |digits| ==> IsDigit(digits[i], hex)
    requires rest == "" || !IsDigit(rest[0], hex)
    ensures DigitRun(digits + rest, hex) == |digits|
  {
    if digits == "" {
      assert digits + rest == rest;
    } else {
      assert (digits + rest)[1..] == digits[1..] + rest;
      DigitRunOf(digits[1..], rest, hex);
    }
  }

  /** The text after a reference's optional `;`. */
  function AfterSemicolon(tail: string): string {
    if tail != "" && tail[0] == ';' then tail[1..] else tail
  }

  lemma ReferenceParts(prefix: string, digits: string, tail: string, s: string)
    requires digits != "" && s == prefix + digits + tail
    ensures prefix <= s && s[|prefix|..] == digits + tail && s[|prefix|] == digits[0]
  {
  }

  lemma AfterDigits(s: string, start: nat, digits: string, tail: string)
    requires start <= |s| && s[start..] == digits + tail
    ensures start + |digits| + |tail| == |s|
    ensures s[start..start + |digits|] == digits
    ensures tail != "" ==> s[start + |digits|] == tail[0]
  {
    assert s[start..][..|digits|] == s[start..start + |digits|];
    assert tail != "" ==> s[start..][|digits|] == s[start + |digits|];
  }

  lemma MatchDigits(s: string, start: nat, hex: bool, digits: string, tail: string)
    requires |s| > 2 && hex == (s[2] == 'x' || s[2] == 'X') && start == (if hex then 3 else 2)
    requires start <= |s| && s[start..] == digits + tail && digits != "" && DigitRun(digits + tail, hex) == |digits|
    requires forall i :: 0 <= i < |digits| ==> IsDigit(digits[i], hex)
    ensures var v := NumberOf(digits, hex);
            var end := start + |digits| + |tail| - |AfterSemicolon(tail)|;
            MatchNumeric(s) == if IsScalar(v) then Some((v as char, end)) else None
  {
    AfterDigits(s, start, digits, tail);
  }

  /** `&#`, or `&#x` in either case. */
  predicate IsPrefix(prefix: string, hex: bool) {
    if hex then prefix == "&#x" || prefix == "&#X" else prefix == "&#"
  }

  lemma HexMark(prefix: string, hex: bool, digits: string, s: string)
    requires if hex then |prefix| == 3 && (prefix[2] == 'x' || prefix[2] == 'X') else |prefix| == 2
    requires digits != "" && IsDigit(digits[0], hex) && prefix <= s && |prefix| < |s| && s[|prefix|] == digits[0]
    ensures |s| > 2 && hex == (s[2] == 'x' || s[2] == 'X')
  {
    assert hex ==> s[2] == prefix[2];
  }

  lemma MatchAfter(prefix: string, hex: bool, digits: string, tail: string, s: string)
    requires if hex then |prefix| == 3 && (prefix[2] == 'x' || prefix[2] == 'X') else |prefix| == 2
    requires digits != "" && (forall i :: 0 <= i < |digits| ==> IsDigit(digits[i], hex))
    requires (tail == "" || !IsDigit(tail[0], hex)) && s == prefix + digits + tail
    ensures var v := NumberOf(digits, hex);
            var end := |prefix| + |digits| + |tail| - |AfterSemicolon(tail)|;
            |s| >= 2 && MatchNumeric(s) == if IsScalar(v) then Some((v as char, end)) else None
  {
    ReferenceParts(prefix, digits, tail, s);
    DigitRunOf(digits, tail, hex);
    HexMark(prefix, hex, digits, s);
    MatchDigits(s, |prefix|, hex, digits, tail);
  }

  lemma MatchNumericEntity(prefix: string, hex: bool, rest: string)
    requires IsPrefix(prefix, hex)
    ensures prefix + rest != "" && (prefix + rest)[0] == '&' && |prefix + rest| >= 2
    ensures MatchEntity(prefix + rest) == MatchNumeric(prefix + rest)
  {
    var s := prefix + rest;
    assert s[0] == '&' && s[1] == '#';
    assert "&#" <= s;
  }

  lemma DecodeMatch(s: string, r: Option<(char, nat)>)
    requires s != "" && s[0] == '&' && MatchEntity(s) == r
    ensures r.Some? ==> r.value.1 <= |s| && Decode(s) == [r.value.0] + Decode(s[r.value.1..])
    ensures r.None? ==> Decode(s) == "&" + Decode(s[1..])
  {
  }

  lemma TailOf(front: string, tail: string)
    ensures (front + tail)[|front| + |tail| - |AfterSemicolon(tail)|..] == AfterSemicolon(tail)
  {
  }

  lemma DecodeNumeric(front: string, tail: string, s: string, v: nat)
    requires s == front + tail && s != "" && s[0] == '&'
    requires var end := |front| + |tail| - |AfterSemicolon(tail)|;
             MatchEntity(s) == if IsScalar(v) then Some((v as char, end)) else None
    ensures Decode(s) == if IsScalar(v) then [v as char] + Decode(AfterSemicolon(tail)) else "&" + Decode(s[1..])
  {
    DecodeMatch(s, MatchEntity(s));
    TailOf(front, tail);
  }

  lemma DecodeAfter(prefix: string, hex: bool, digits: string, tail: string, s: string)
    requires if hex then |prefix| == 3 && (prefix[2] == 'x' || prefix[2] == 'X') else |prefix| == 2
    requires digits != "" && (forall i :: 0 <= i < |digits| ==> IsDigit(digits[i], hex))
    requires (tail == "" || !IsDigit(tail[0], hex)) && s == prefix + digits + tail
    requires s[0] == '&' && MatchEntity(s) == MatchNumeric(s)
    ensures var v := NumberOf(digits, hex);
            Decode(s) == if IsScalar(v) then [v as char] + Decode(AfterSemicolon(tail)) else "&" + Decode(s[1..])
  {
    MatchAfter(prefix, hex, digits, tail, s);
    DecodeNumeric(prefix + digits, tail, s, NumberOf(digits, hex));
  }

  /**
   * Any numeric reference: `&#` or `&#x` in either case, a non-empty run of digits in that base with any
   * leading zeros, and a `;` or not. It decodes to the one character its value names, if it names one.
   */
  lemma NumericReference(prefix: string, hex: bool, digits: string, tail: string, s: string)
    requires IsPrefix(prefix, hex) && digits != "" && (forall i :: 0 <= i < |digits| ==> IsDigit(digits[i], hex))
    requires (tail == "" || !IsDigit(tail[0], hex)) && s == prefix + digits + tail
    ensures var v := NumberOf(digits, hex);
            Decode(s) == if IsScalar(v) then [v as char] + Decode(AfterSemicolon(tail)) else "&" + Decode(s[1..])
  {
    assert s == prefix + (digits + tail);
    MatchNumericEntity(prefix, hex, digits + tail);
    DecodeAfter(prefix, hex, digits, tail, s);
  }

  /** Every scalar value can be written as a reference, in either base. */
  lemma EveryScalarHasAReference(v: nat, hex: bool, rest: string)
    requires IsScalar(v)
    ensures Decode((if hex then "&#x" else "&#") + Numeral(v, hex) + (";" + rest)) == [v as char] + Decode(rest)
  {
    NumeralValue(v, hex);
    var prefix := if hex then "&#x" else "&#";
    NumericReference(prefix, hex, Numeral(v, hex), ";" + rest, prefix + Numeral(v, hex) + (";" + rest));
    assert (";" + rest)[1..] == rest;
  }

  // ---- The names, the digits and the characters ----

  lemma DecodeApos(rest: string)
    ensures Decode("&apos;" + rest) == "'" + Decode(rest)
  {
    var s := "&apos;" + rest;
    assert s[0] == '&' && s[1] == 'a' && s[2] == 'p' && s[6..] == rest;
    assert "&apos;" <= s;
    assert MatchEntity(s) == Some(('\'', 6));
  }

  lemma DecodeAngles(rest: string)
    ensures Decode("&lt;" + rest) == "<" + Decode(rest)
    ensures Decode("&gt;" + rest) == ">" + Decode(rest)
  {
    DecodeEscapedChar('<', true, rest);
    DecodeEscapedChar('>', true, rest);
    assert EscapeChar('<', true) == "&lt;" && EscapeChar('>', true) == "&gt;";
  }

  lemma DecodeAmpAndQuot(rest: string)
    ensures Decode("&amp;" + rest) == "&" + Decode(rest)
    ensures Decode("&quot;" + rest) == "\"" + Decode(rest)
  {
    DecodeEscapedChar('&', true, rest);
    DecodeEscapedChar('"', true, rest);
    assert EscapeChar('&', true) == "&amp;" && EscapeChar('"', true) == "&quot;";
  }

  /** The five names. */
  lemma NamedEntities(rest: string)
    ensures Decode("&amp;" + rest) == "&" + Decode(rest)
    ensures Decode("&lt;" + rest) == "<" + Decode(rest)
    ensures Decode("&gt;" + rest) == ">" + Decode(rest)
    ensures Decode("&quot;" + rest) == "\"" + Decode(rest)
    ensures Decode("&apos;" + rest) == "'" + Decode(rest)
  {
    DecodeAngles(rest);
    DecodeAmpAndQuot(rest);
    DecodeApos(rest);
  }

  /** Any other `&`, one before no digits or before a number that is no character among them, stays as it is. */
  lemma OtherAmpersandsStay(s: string)
    requires s != "" && s[0] == '&' && !("&amp;" <= s) && !("&lt;" <= s) && !("&gt;" <= s)
    requires !("&quot;" <= s) && !("&apos;" <= s)
    requires "&#" <= s ==> |s| == 2 || !(IsDigit(s[2], false) || s[2] == 'x' || s[2] == 'X')
    ensures Decode(s) == "&" + Decode(s[1..])
  {
    DecodeMatch(s, MatchEntity(s));
  }

  /** Digits stand for their places in the usual order, letters in either case. */
  lemma DigitsMean(d: nat)
    requires d < 16
    ensures var lower, upper := "0123456789abcdef"[d], "0123456789ABCDEF"[d];
            && IsDigit(lower, true) && IsDigit(upper, true) && DigitValue(lower) == d && DigitValue(upper) == d
            && (IsDigit(lower, false) <==> d < 10)
  {
  }

  lemma OnlyThoseAreDigits(c: char)
    ensures IsDigit(c, true) <==> c in "0123456789abcdefABCDEF"
    ensures IsDigit(c, false) <==> c in "0123456789"
  {
    CharIn(c);
  }

  lemma CharIn(c: char)
    ensures c in "0123456789" <==> '0' <= c <= '9'
    ensures c in "0123456789abcdefABCDEF" <==> '0' <= c <= '9' || 'a' <= c <= 'f' || 'A' <= c <= 'F'
  {
    var s := "0123456789abcdefABCDEF";
    if '0' <= c <= '9' {
      assert s[c as int - 48] == c && "0123456789"[c as int - 48] == c;
    }
    if 'a' <= c <= 'f' {
      assert s[c as int - 87] == c;
    }
    if 'A' <= c <= 'F' {
      assert s[c as int - 49] == c;
    }
  }

  /** The numbers that name a character are those of the characters there are. */
  lemma ScalarsAreTheChars(v: nat)
    ensures IsScalar(v) <==> exists c: char :: Code(c) == v
  {
    if IsScalar(v) {
      assert Code(v as char) == v;
    }
  }

  function Code(c: char): nat {
    c as int
  }

  /** The value of a numeral: each digit adds itself to the base times what stands before it. */
  lemma NumeralsMean(digits: string, d: char, hex: bool)
    requires (forall i :: 0 <= i < |digits| ==> IsDigit(digits[i], hex)) && IsDigit(d, hex)
    ensures NumberOf("", hex) == 0
    ensures NumberOf(digits + [d], hex) == NumberOf(digits, hex) * (if hex then 16 else 10) + DigitValue(d)
  {
    assert (digits + [d])[..|digits|] == digits;
  }
}
