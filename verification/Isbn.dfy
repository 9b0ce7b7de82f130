/** ISBN normalisation: ten- or thirteen-symbol input, with spaces and hyphens, to thirteen digits. */
module Isbn {
  import opened Common

  const SPACE: byte := 32
  const HYPHEN: byte := 45
  const ZERO: byte := 48
  const NINE: byte := 57
  const UPPER_X: byte := 88
  const LOWER_X: byte := 120

  datatype Reason = WrongLength | InvalidCharacter | InvalidCheckDigit10 | InvalidPrefix | InvalidCheckDigit13

  predicate IsSeparator(b: byte) {
    b == SPACE || b == HYPHEN
  }

  predicate IsDigit(b: byte) {
    ZERO <= b <= NINE
  }

  predicate IsX(b: byte) {
    b == UPPER_X || b == LOWER_X
  }

  function Compact(input: seq<byte>): (r: seq<byte>) {
    if input == [] then []
    else
      var last := input[|input| - 1];
      Compact(input[..|input| - 1]) + if IsSeparator(last) then [] else [last]
  }

  // ---- The check digits of ISO 2108, over all ten or thirteen symbols ----

  const WEIGHTS_10: seq<int> := [10, 9, 8, 7, 6, 5, 4, 3, 2, 1]
  const WEIGHTS_13: seq<int> := [1, 3, 1, 3, 1, 3, 1, 3, 1, 3, 1, 3, 1]

  function Symbol(b: byte): int {
    if IsX(b) then 10 else b as int - ZERO as int
  }

  function Sum(ts: seq<int>): int {
    if ts == [] then 0 else Sum(ts[..|ts| - 1]) + ts[|ts| - 1]
  }

  function Terms(ws: seq<int>, s: seq<byte>): seq<int>
    requires |s| <= |ws|
  {
    seq(|s|, i requires 0 <= i < |s| => ws[i] * Symbol(s[i]))
  }

  /** The weighted sum of the symbols of `s`. */
  function Weighted(ws: seq<int>, s: seq<byte>): int
    requires |s| <= |ws|
  {
    Sum(Terms(ws, s))
  }

  lemma WeightedSnoc(ws: seq<int>, s: seq<byte>)
    requires 0 < |s| <= |ws|
    ensures Weighted(ws, s) == Weighted(ws, s[..|s| - 1]) + ws[|s| - 1] * Symbol(s[|s| - 1])
  {
    assert Terms(ws, s)[..|s| - 1] == Terms(ws, s[..|s| - 1]);
  }

  predicate AllDigits(s: seq<byte>) {
    forall i :: 0 <= i < |s| ==> IsDigit(s[i])
  }

  /** Digits, except that the tenth symbol may be X. */
  predicate Spelled10(s: seq<byte>) {
    |s| == 10 && AllDigits(s[..9]) && (IsDigit(s[9]) || IsX(s[9]))
  }

  predicate BookPrefix(s: seq<byte>) {
    |s| >= 3 && (s[..3] == [57, 55, 56] || s[..3] == [57, 55, 57])
  }

  predicate IsIsbn10(s: seq<byte>) {
    Spelled10(s) && Weighted(WEIGHTS_10, s) % 11 == 0
  }

  predicate IsIsbn13(s: seq<byte>) {
    |s| == 13 && AllDigits(s) && BookPrefix(s) && Weighted(WEIGHTS_13, s) % 10 == 0
  }

  // ---- The code ----

  /** `isbn_13_check_digit`: the fold over the stem. */
  function StemSum(stem: seq<byte>): int {
    if stem == [] then 0
    else
      var index := |stem| - 1;
      StemSum(stem[..index]) + (stem[index] as int - ZERO as int) * (if index % 2 == 0 then 1 else 3)
  }

  function CheckDigit(stem: seq<byte>): (d: int)
    ensures 0 <= d <= 9
  {
    (10 - StemSum(stem) % 10) % 10
  }

  function AsDigit(d: int): (b: byte)
    requires 0 <= d <= 9
    ensures IsDigit(b) && Symbol(b) == d
  {
    (ZERO as int + d) as byte
  }

  /** An ISBN-10 as an ISBN-13: the 978 prefix, the first nine digits, and a new check digit. */
  function Converted(s: seq<byte>): seq<byte>
    requires |s| == 10
  {
    var stem := [57, 55, 56] + s[..9];
    stem + [AsDigit(CheckDigit(stem))]
  }

  lemma WeightedStep10(s: seq<byte>, i: nat)
    requires i < |s| == 10
    ensures Weighted(WEIGHTS_10, s[..i + 1]) == Weighted(WEIGHTS_10, s[..i]) + Symbol(s[i]) * (10 - i)
  {
    assert s[..i + 1][..i] == s[..i];
    assert WEIGHTS_10[i] == 10 - i;
    WeightedSnoc(WEIGHTS_10, s[..i + 1]);
  }

  method NormalizeIsbn10(compact: seq<byte>) returns (r: Result<seq<byte>, Reason>)
    requires |compact| == 10
    ensures !Spelled10(compact) ==> r == Err(InvalidCharacter)
    ensures Spelled10(compact) && !IsIsbn10(compact) ==> r == Err(InvalidCheckDigit10)
    ensures IsIsbn10(compact) ==> r == Ok(Converted(compact))
  {
    var checksum := 0;
    for index := 0 to 10
      invariant forall j :: 0 <= j < index && j < 9 ==> IsDigit(compact[j])
      invariant index == 10 ==> IsDigit(compact[9]) || IsX(compact[9])
      invariant checksum == Weighted(WEIGHTS_10, compact[..index])
    {
      var b := compact[index];
      WeightedStep10(compact, index);
      if index == 9 && IsX(b) {
        checksum := checksum + 10;
      } else if IsDigit(b) {
        checksum := checksum + (b as int - ZERO as int) * (10 - index);
      } else {
        assert index < 9 ==> compact[..9][index] == b;
        return Err(InvalidCharacter);
      }
    }
    assert compact[..10] == compact && AllDigits(compact[..9]);
    if checksum % 11 != 0 {
      return Err(InvalidCheckDigit10);
    }
    return Ok(Converted(compact));
  }

  /** The computed digit is the one that makes the weighted sum a multiple of ten. */
  lemma CheckDigitAgrees(s: seq<byte>)
    requires |s| == 13 && AllDigits(s)
    ensures CheckDigit(s[..12]) == s[12] as int - ZERO as int <==> Weighted(WEIGHTS_13, s) % 10 == 0
  {
    StemSumIsWeighted(s[..12]);
    WeightedSnoc(WEIGHTS_13, s);
    assert IsDigit(s[12]);
  }

  function NormalizeIsbn13(compact: seq<byte>): (r: Result<seq<byte>, Reason>)
    requires |compact| == 13
    ensures r.Ok? <==> IsIsbn13(compact)
    ensures r.Ok? ==> r.value == compact
    ensures !AllDigits(compact) <==> r == Err(InvalidCharacter)
    ensures AllDigits(compact) && !BookPrefix(compact) <==> r == Err(InvalidPrefix)
  {
    if !AllDigits(compact) then Err(InvalidCharacter)
    else if !BookPrefix(compact) then Err(InvalidPrefix)
    else
      var expected := CheckDigit(compact[..12]);
      CheckDigitAgrees(compact);
      if expected != compact[12] as int - ZERO as int then Err(InvalidCheckDigit13) else Ok(compact)
  }

  method Normalize(input: seq<byte>) returns (r: Result<seq<byte>, Reason>)
    ensures r == Normalized(input)
  {
    var compact := Compact(input);
    if |compact| == 10 {
      r := NormalizeIsbn10(compact);
    } else if |compact| == 13 {
      r := NormalizeIsbn13(compact);
    } else {
      r := Err(WrongLength);
    }
  }

  /** What normalisation gives, in terms of the standard's own definitions. */
  function Normalized(input: seq<byte>): (r: Result<seq<byte>, Reason>) {
    var s := Compact(input);
    if |s| == 10 then
      if !Spelled10(s) then Err(InvalidCharacter)
      else if !IsIsbn10(s) then Err(InvalidCheckDigit10)
      else Ok(Converted(s))
    else if |s| == 13 then
      if !AllDigits(s) then Err(InvalidCharacter)
      else if !BookPrefix(s) then Err(InvalidPrefix)
      else if !IsIsbn13(s) then Err(InvalidCheckDigit13)
      else Ok(s)
    else Err(WrongLength)
  }

  // ---- Results are ISBN-13s, and normalising again changes nothing ----

  lemma {:induction false} StemSumIsWeighted(stem: seq<byte>)
    requires |stem| <= 12 && AllDigits(stem)
    ensures StemSum(stem) == Weighted(WEIGHTS_13, stem)
  {
    if stem != [] {
      StemSumIsWeighted(stem[..|stem| - 1]);
      WeightedSnoc(WEIGHTS_13, stem);
      assert WEIGHTS_13[|stem| - 1] == if (|stem| - 1) % 2 == 0 then 1 else 3;
    }
  }

  lemma CheckDigitCompletes(stem: seq<byte>)
    requires |stem| == 12 && AllDigits(stem)
    ensures Weighted(WEIGHTS_13, stem + [AsDigit(CheckDigit(stem))]) % 10 == 0
  {
    StemSumIsWeighted(stem);
    WeightedSnoc(WEIGHTS_13, stem + [AsDigit(CheckDigit(stem))]);
    assert (stem + [AsDigit(CheckDigit(stem))])[..12] == stem;
  }

  lemma ConvertedIsIsbn13(s: seq<byte>)
    requires Spelled10(s)
    ensures IsIsbn13(Converted(s))
  {
    CheckDigitCompletes([57, 55, 56] + s[..9]);
  }

  lemma ResultIsIsbn13(input: seq<byte>)
    ensures Normalized(input).Ok? <==> IsIsbn10(Compact(input)) || IsIsbn13(Compact(input))
    ensures Normalized(input).Ok? ==> IsIsbn13(Normalized(input).value)
  {
    if IsIsbn10(Compact(input)) {
      ConvertedIsIsbn13(Compact(input));
    }
  }

  lemma {:induction false} CompactIdentity(s: seq<byte>)
    requires forall i :: 0 <= i < |s| ==> !IsSeparator(s[i])
    ensures Compact(s) == s
  {
    if s != [] {
      CompactIdentity(s[..|s| - 1]);
    }
  }

  lemma NormalizationIsIdempotent(input: seq<byte>)
    requires Normalized(input).Ok?
    ensures Normalized(Normalized(input).value) == Normalized(input)
  {
    ResultIsIsbn13(input);
    CompactIdentity(Normalized(input).value);
  }

  // ---- Separators ----

  lemma {:induction false} CompactConcat(a: seq<byte>, b: seq<byte>)
    ensures Compact(a + b) == Compact(a) + Compact(b)
    decreases |b|
  {
    if b == [] {
      assert a + b == a;
    } else {
      assert (a + b)[..|a + b| - 1] == a + b[..|b| - 1];
      CompactConcat(a, b[..|b| - 1]);
    }
  }

  lemma {:induction false} CompactHasNoSeparator(input: seq<byte>)
    ensures |Compact(input)| <= |input| && forall i :: 0 <= i < |Compact(input)| ==> !IsSeparator(Compact(input)[i])
  {
    if input != [] {
      CompactHasNoSeparator(input[..|input| - 1]);
    }
  }

  /** A separator may be inserted or removed anywhere. */
  lemma SeparatorsAreIgnored(a: seq<byte>, separator: byte, b: seq<byte>)
    requires separator == 32 || separator == 45
    ensures Normalized(a + [separator] + b) == Normalized(a + b)
  {
    CompactConcat(a + [separator], b);
    CompactConcat(a, [separator]);
    CompactConcat(a, b);
    assert [separator][..0] == [];
    assert Compact(a) + Compact([separator]) == Compact(a);
  }

  /** Spaces and hyphens are dropped, and no other byte is. */
  lemma CompactMeans(a: seq<byte>, b: byte, c: seq<byte>)
    ensures Compact(a + [b] + c) == Compact(a) + (if b == 32 || b == 45 then [] else [b]) + Compact(c)
    ensures Compact([]) == []
  {
    CompactConcat(a + [b], c);
    CompactConcat(a, [b]);
    assert [b][..0] == [];
  }

  // ---- The definitions in numbers ----

  /** The number a symbol stands for, as the standard reads the ASCII text. */
  function Digit(b: byte): int {
    if b == 88 || b == 120 then 10 else b as int - 48
  }

  lemma PrefixSum(ws: seq<int>, s: seq<byte>, n: nat)
    requires n < |s| <= |ws|
    ensures Weighted(ws, s[..n + 1]) == Weighted(ws, s[..n]) + ws[n] * Digit(s[n])
  {
    assert s[..n + 1][..n] == s[..n];
    WeightedSnoc(ws, s[..n + 1]);
  }

  lemma Sum10(s: seq<byte>)
    requires |s| == 10
    ensures Weighted(WEIGHTS_10, s) ==
            10 * Digit(s[0]) + 9 * Digit(s[1]) + 8 * Digit(s[2]) + 7 * Digit(s[3]) + 6 * Digit(s[4])
            + 5 * Digit(s[5]) + 4 * Digit(s[6]) + 3 * Digit(s[7]) + 2 * Digit(s[8]) + Digit(s[9])
  {
    assert s[..0] == [] && s[..10] == s;
    PrefixSum(WEIGHTS_10, s, 0);
    PrefixSum(WEIGHTS_10, s, 1);
    PrefixSum(WEIGHTS_10, s, 2);
    PrefixSum(WEIGHTS_10, s, 3);
    PrefixSum(WEIGHTS_10, s, 4);
    PrefixSum(WEIGHTS_10, s, 5);
    PrefixSum(WEIGHTS_10, s, 6);
    PrefixSum(WEIGHTS_10, s, 7);
    PrefixSum(WEIGHTS_10, s, 8);
    PrefixSum(WEIGHTS_10, s, 9);
  }

  /** An ISBN-10: nine digits and a digit or X whose sum, weighted from ten down to one, eleven divides. */
  lemma Isbn10Means(s: seq<byte>)
    requires |s| == 10
    ensures IsIsbn10(s) <==>
            && (forall i :: 0 <= i < 9 ==> 48 <= s[i] <= 57)
            && (48 <= s[9] <= 57 || s[9] == 88 || s[9] == 120)
            && (10 * Digit(s[0]) + 9 * Digit(s[1]) + 8 * Digit(s[2]) + 7 * Digit(s[3]) + 6 * Digit(s[4])
                + 5 * Digit(s[5]) + 4 * Digit(s[6]) + 3 * Digit(s[7]) + 2 * Digit(s[8]) + Digit(s[9])) % 11 == 0
  {
    Sum10(s);
    assert forall i :: 0 <= i < 9 ==> s[..9][i] == s[i];
  }

  lemma HalfSum13(s: seq<byte>)
    requires |s| == 13
    ensures Weighted(WEIGHTS_13, s[..6]) ==
            Digit(s[0]) + 3 * Digit(s[1]) + Digit(s[2]) + 3 * Digit(s[3]) + Digit(s[4]) + 3 * Digit(s[5])
  {
    assert s[..0] == [];
    PrefixSum(WEIGHTS_13, s, 0);
    PrefixSum(WEIGHTS_13, s, 1);
    PrefixSum(WEIGHTS_13, s, 2);
    PrefixSum(WEIGHTS_13, s, 3);
    PrefixSum(WEIGHTS_13, s, 4);
    PrefixSum(WEIGHTS_13, s, 5);
  }

  lemma OtherHalfSum13(s: seq<byte>)
    requires |s| == 13
    ensures Weighted(WEIGHTS_13, s) == Weighted(WEIGHTS_13, s[..6]) + Digit(s[6]) + 3 * Digit(s[7]) + Digit(s[8])
                                       + 3 * Digit(s[9]) + Digit(s[10]) + 3 * Digit(s[11]) + Digit(s[12])
  {
    assert s[..13] == s;
    PrefixSum(WEIGHTS_13, s, 6);
    PrefixSum(WEIGHTS_13, s, 7);
    PrefixSum(WEIGHTS_13, s, 8);
    PrefixSum(WEIGHTS_13, s, 9);
    PrefixSum(WEIGHTS_13, s, 10);
    PrefixSum(WEIGHTS_13, s, 11);
    PrefixSum(WEIGHTS_13, s, 12);
  }

  /** An ISBN-13: thirteen digits, 978 or 979 first, whose sum, weighted one and three in turn, ten divides. */
  lemma Isbn13Means(s: seq<byte>)
    requires |s| == 13
    ensures IsIsbn13(s) <==>
            && (forall i :: 0 <= i < 13 ==> 48 <= s[i] <= 57)
            && s[0] == 57 && s[1] == 55 && (s[2] == 56 || s[2] == 57)
            && (Digit(s[0]) + 3 * Digit(s[1]) + Digit(s[2]) + 3 * Digit(s[3]) + Digit(s[4]) + 3 * Digit(s[5])
                + Digit(s[6]) + 3 * Digit(s[7]) + Digit(s[8]) + 3 * Digit(s[9]) + Digit(s[10]) + 3 * Digit(s[11])
                + Digit(s[12])) % 10 == 0
  {
    HalfSum13(s);
    OtherHalfSum13(s);
    assert s[..3] == [s[0], s[1], s[2]];
  }

  /** What is refused, and why: by the symbols left once separators are dropped. */
  lemma RefusalMeans(input: seq<byte>)
    ensures var s, r := Compact(input), Normalized(input);
            && (r == Err(WrongLength) <==> |s| != 10 && |s| != 13)
            && (r == Err(InvalidCharacter) <==>
                || (|s| == 10 && !((forall i :: 0 <= i < 9 ==> 48 <= s[i] <= 57)
                                   && (48 <= s[9] <= 57 || s[9] == 88 || s[9] == 120)))
                || (|s| == 13 && !(forall i :: 0 <= i < 13 ==> 48 <= s[i] <= 57)))
            && (r == Err(InvalidPrefix) <==>
                && |s| == 13 && (forall i :: 0 <= i < 13 ==> 48 <= s[i] <= 57)
                && !(s[0] == 57 && s[1] == 55 && (s[2] == 56 || s[2] == 57)))
  {
    var s := Compact(input);
    if |s| == 10 {
      assert forall i :: 0 <= i < 9 ==> s[..9][i] == s[i];
    }
    if |s| == 13 {
      assert s[..3] == [s[0], s[1], s[2]];
    }
  }

  /** A conversion keeps the nine digits between the prefix 978 and the new check digit. */
  lemma ConversionMeans(input: seq<byte>)
    requires IsIsbn10(Compact(input))
    ensures var s, r := Compact(input), Normalized(input);
            r.Ok? && |r.value| == 13 && r.value[..3] == [57, 55, 56] && r.value[3..12] == s[..9] && IsIsbn13(r.value)
  {
    ConvertedIsIsbn13(Compact(input));
  }

  // ---- One wrong symbol ----

  lemma {:induction false} SumUpdate(ts: seq<int>, i: nat, x: int)
    requires i < |ts|
    ensures Sum(ts[i := x]) == Sum(ts) - ts[i] + x
  {
    var front := ts[..|ts| - 1];
    if i == |ts| - 1 {
      assert ts[i := x][..i] == front;
    } else {
      SumUpdate(front, i, x);
      assert ts[i := x][..|ts| - 1] == front[i := x];
    }
  }

  lemma Distribute(w: int, x: int, y: int)
    ensures w * y - w * x == w * (y - x)
  {
  }

  lemma WeightedUpdate(ws: seq<int>, s: seq<byte>, i: nat, b: byte)
    requires i < |s| <= |ws|
    ensures Weighted(ws, s[i := b]) == Weighted(ws, s) + ws[i] * (Symbol(b) - Symbol(s[i]))
  {
    var ts := Terms(ws, s);
    SumUpdate(ts, i, ws[i] * Symbol(b));
    assert Terms(ws, s[i := b]) == ts[i := ws[i] * Symbol(b)];
    Distribute(ws[i], Symbol(s[i]), Symbol(b));
  }

  lemma NoSmallDivisors11(w: int, k: int)
    requires 1 <= w <= 5 && 1 <= k <= 10
    ensures (w * k) % 11 != 0
  {
    if w == 1 {} else if w == 2 {} else if w == 3 {} else if w == 4 {}
  }

  lemma Negated(a: int)
    ensures (-a) % 11 == 0 <==> a % 11 == 0
  {
  }

  lemma Complement(w: int, k: int)
    ensures ((11 - w) * k) % 11 == 0 <==> (w * k) % 11 == 0
  {
    assert (11 - w) * k == 11 * k - w * k;
    var a := w * k;
    assert (11 * k - a) % 11 == (-a) % 11;
    Negated(a);
  }

  lemma NoZeroDivisors11(w: int, k: int)
    requires 1 <= w <= 10 && -10 <= k <= 10 && k != 0
    ensures (w * k) % 11 != 0
    decreases if k < 0 then 1 else 0
  {
    if k < 0 {
      NoZeroDivisors11(w, -k);
      assert w * -k == -(w * k);
      Negated(w * k);
    } else if w <= 5 {
      NoSmallDivisors11(w, k);
    } else {
      NoSmallDivisors11(11 - w, k);
      Complement(w, k);
    }
  }

  lemma Residue(a: int, x: int, m: int)
    requires m == 10 || m == 11
    requires a % m == 0
    ensures (a + x) % m == 0 <==> x % m == 0
  {
  }

  lemma Caught10(a: int, w: int, k: int)
    requires a % 11 == 0 && 1 <= w <= 10 && -10 <= k <= 10
    ensures (a + w * k) % 11 == 0 <==> k == 0
  {
    Residue(a, w * k, 11);
    if k != 0 {
      NoZeroDivisors11(w, k);
    }
  }

  lemma SpelledUpdate(s: seq<byte>, i: nat, b: byte)
    requires Spelled10(s) && i < 10
    ensures Spelled10(s[i := b]) <==> IsDigit(b) || (i == 9 && IsX(b))
    ensures IsX(s[i]) ==> i == 9
  {
    var t := s[i := b];
    assert i < 9 ==> t[..9] == s[..9][i := b] && s[..9][i] == s[i] && t[..9][i] == b;
    assert i == 9 ==> t[..9] == s[..9];
  }

  lemma WrongSymbol10(s: seq<byte>, i: nat, b: byte)
    requires IsIsbn10(s) && i < 10
    ensures IsIsbn10(s[i := b]) <==> b == s[i] || (IsX(b) && IsX(s[i]))
  {
    SpelledUpdate(s, i, b);
    SpelledUpdate(s, i, s[i]);
    assert s[i := s[i]] == s;
    if Spelled10(s[i := b]) {
      assert WEIGHTS_10[i] == 10 - i;
      WeightedUpdate(WEIGHTS_10, s, i, b);
      Caught10(Weighted(WEIGHTS_10, s), 10 - i, Symbol(b) - Symbol(s[i]));
    }
  }

  lemma Caught13(a: int, w: int, k: int)
    requires a % 10 == 0 && (w == 1 || w == 3) && -9 <= k <= 9
    ensures (a + w * k) % 10 == 0 <==> k == 0
  {
    Residue(a, w * k, 10);
  }

  lemma WrongSymbol13(s: seq<byte>, i: nat, b: byte)
    requires IsIsbn13(s) && i < 13
    ensures IsIsbn13(s[i := b]) <==> b == s[i]
  {
    assert s[i := b][i] == b && s[i := s[i]] == s && IsDigit(s[i]);
    if AllDigits(s[i := b]) {
      assert IsDigit(b);
      WeightedUpdate(WEIGHTS_13, s, i, b);
      Caught13(Weighted(WEIGHTS_13, s), WEIGHTS_13[i], Symbol(b) - Symbol(s[i]));
    }
  }

  /** Where position `i` of the input lands once separators are gone. */
  function Landing(input: seq<byte>, i: nat): nat
    requires i <= |input|
  {
    |Compact(input[..i])|
  }

  lemma CompactAround(input: seq<byte>, i: nat, b: byte)
    requires i < |input|
    ensures Compact(input[i := b]) ==
            Compact(input[..i]) + (if IsSeparator(b) then [] else [b]) + Compact(input[i + 1..])
  {
    assert input[i := b] == (input[..i] + [b]) + input[i + 1..];
    CompactConcat(input[..i] + [b], input[i + 1..]);
    CompactConcat(input[..i], [b]);
    assert [b][..0] == [];
  }

  lemma UpdateInTheMiddle(a: seq<byte>, x: byte, c: seq<byte>, b: byte)
    ensures (a + [x] + c)[|a|] == x && (a + [x] + c)[|a| := b] == a + [b] + c
  {
  }

  lemma CompactUpdate(input: seq<byte>, i: nat, b: byte)
    requires i < |input| && !IsSeparator(input[i]) && !IsSeparator(b)
    ensures Landing(input, i) < |Compact(input)| && Compact(input)[Landing(input, i)] == input[i]
    ensures Compact(input[i := b]) == Compact(input)[Landing(input, i) := b]
  {
    CompactAround(input, i, b);
    CompactAround(input, i, input[i]);
    assert input[i := input[i]] == input;
    UpdateInTheMiddle(Compact(input[..i]), input[i], Compact(input[i + 1..]), b);
  }

  /** Two bytes that mean the same to the format. */
  predicate SameMeaning(a: byte, b: byte) {
    a == b || (IsSeparator(a) && IsSeparator(b)) || (IsX(a) && IsX(b))
  }

  /** Any one byte of an accepted input may be replaced only by one of the same meaning. */
  lemma OneWrongByteIsRejected(input: seq<byte>, i: nat, b: byte)
    requires Normalized(input).Ok? && i < |input|
    ensures Normalized(input[i := b]).Ok? <==> SameMeaning(input[i], b)
  {
    ResultIsIsbn13(input);
    ResultIsIsbn13(input[i := b]);
    CompactAround(input, i, b);
    CompactAround(input, i, input[i]);
    assert input[i := input[i]] == input;
    var s := Compact(input);
    if !IsSeparator(input[i]) && !IsSeparator(b) {
      CompactUpdate(input, i, b);
      var p := Landing(input, i);
      if |s| == 10 {
        WrongSymbol10(s, p, b);
      } else {
        WrongSymbol13(s, p, b);
        assert IsDigit(s[p]);
      }
    }
  }

  // ---- Two swapped symbols ----

  function Swapped(s: seq<byte>, i: nat, j: nat): seq<byte>
    requires i < |s| && j < |s|
  {
    s[i := s[j]][j := s[i]]
  }

  lemma Regroup(a: int, b: int, c: int, w: int, v: int, x: int, y: int)
    requires b == a + w * (y - x) && c == b + v * (x - y)
    ensures c == a + (w - v) * (y - x)
  {
  }

  lemma WeightedSwap(ws: seq<int>, s: seq<byte>, i: nat, j: nat)
    requires i < j < |s| <= |ws|
    ensures Weighted(ws, Swapped(s, i, j)) == Weighted(ws, s) + (ws[i] - ws[j]) * (Symbol(s[j]) - Symbol(s[i]))
  {
    var first, last := s[i := s[j]], Swapped(s, i, j);
    WeightedUpdate(ws, s, i, s[j]);
    WeightedUpdate(ws, first, j, s[i]);
    Regroup(Weighted(ws, s), Weighted(ws, first), Weighted(ws, last), ws[i], ws[j], Symbol(s[i]), Symbol(s[j]));
  }

  lemma Swap10(s: seq<byte>, i: nat, j: nat)
    requires IsIsbn10(s) && i < j < 10 && s[i] != s[j]
    ensures !IsIsbn10(Swapped(s, i, j))
  {
    var t := Swapped(s, i, j);
    assert t[..9][i] == s[j] && s[..9][i] == s[i];
    assert j < 9 ==> s[..9][j] == s[j];
    if Spelled10(t) {
      var k := Symbol(s[j]) - Symbol(s[i]);
      WeightedSwap(WEIGHTS_10, s, i, j);
      assert WEIGHTS_10[i] - WEIGHTS_10[j] == j - i;
      NoZeroDivisors11(j - i, k);
      Residue(Weighted(WEIGHTS_10, s), (j - i) * k, 11);
    }
  }

  lemma CompactSwap(input: seq<byte>, i: nat, j: nat)
    requires i < j < |input| && !IsSeparator(input[i]) && !IsSeparator(input[j])
    ensures Landing(input, i) < Landing(input, j) < |Compact(input)|
    ensures Compact(input)[Landing(input, i)] == input[i] && Compact(input)[Landing(input, j)] == input[j]
    ensures Compact(Swapped(input, i, j)) == Swapped(Compact(input), Landing(input, i), Landing(input, j))
  {
    var first := input[i := input[j]];
    CompactUpdate(input, i, input[j]);
    CompactUpdate(input, j, input[i]);
    CompactUpdate(first, j, input[i]);
    assert first[..j] == input[..j][i := input[j]];
    CompactUpdate(input[..j], i, input[j]);
    assert input[..j][..i] == input[..i];
  }

  /** Swapping any two unequal symbols of an accepted ISBN-10, separators or not, is rejected. */
  lemma SwapInIsbn10IsRejected(input: seq<byte>, i: nat, j: nat)
    requires Normalized(input).Ok? && |Compact(input)| == 10
    requires i < j < |input| && !IsSeparator(input[i]) && !IsSeparator(input[j]) && input[i] != input[j]
    ensures Normalized(Swapped(input, i, j)).Err?
  {
    CompactSwap(input, i, j);
    Swap10(Compact(input), Landing(input, i), Landing(input, j));
    ResultIsIsbn13(input);
    ResultIsIsbn13(Swapped(input, i, j));
  }

  lemma Swap13(s: seq<byte>, i: nat, j: nat)
    requires IsIsbn13(s) && i < j < 13
    ensures IsIsbn13(Swapped(s, i, j)) <==>
            BookPrefix(Swapped(s, i, j)) && (i % 2 == j % 2 || (s[i] as int - s[j] as int) % 5 == 0)
  {
    SwapKeepsDigits(s, i, j);
    WeightedSwap(WEIGHTS_13, s, i, j);
    SwapResidue(Weighted(WEIGHTS_13, s), i, j, Symbol(s[j]) - Symbol(s[i]));
  }

  /**
   * An ISBN-13 cannot promise that. Exactly which swaps get through, separators or not: those that keep the
   * prefix and either move between digits of the same weight or swap digits that differ by zero or five.
   */
  lemma SwapInIsbn13(input: seq<byte>, i: nat, j: nat)
    requires Normalized(input).Ok? && |Compact(input)| == 13
    requires i < j < |input| && !IsSeparator(input[i]) && !IsSeparator(input[j])
    ensures Normalized(Swapped(input, i, j)).Ok? <==>
            && BookPrefix(Compact(Swapped(input, i, j)))
            && (Landing(input, i) % 2 == Landing(input, j) % 2 || (input[i] as int - input[j] as int) % 5 == 0)
  {
    CompactSwap(input, i, j);
    ResultIsIsbn13(input);
    ResultIsIsbn13(Swapped(input, i, j));
    Swap13(Compact(input), Landing(input, i), Landing(input, j));
  }

  lemma SwapKeepsDigits(s: seq<byte>, i: nat, j: nat)
    requires AllDigits(s) && i < j < |s|
    ensures AllDigits(Swapped(s, i, j)) && |Swapped(s, i, j)| == |s|
    ensures Symbol(s[i]) == s[i] as int - ZERO as int && Symbol(s[j]) == s[j] as int - ZERO as int
    ensures 0 <= Symbol(s[i]) <= 9 && 0 <= Symbol(s[j]) <= 9
  {
    assert IsDigit(s[i]) && IsDigit(s[j]);
  }

  lemma SwapResidue(sum: int, i: nat, j: nat, k: int)
    requires i < j < 13 && sum % 10 == 0 && -9 <= k <= 9
    ensures (sum + (WEIGHTS_13[i] - WEIGHTS_13[j]) * k) % 10 == 0 <==> i % 2 == j % 2 || (-k) % 5 == 0
  {
    var w := WEIGHTS_13[i] - WEIGHTS_13[j];
    assert w == if i % 2 == j % 2 then 0 else if i % 2 == 0 then -2 else 2;
    Residue(sum, w * k, 10);
    EvenMultiple(w, k);
  }

  lemma EvenMultiple(w: int, k: int)
    requires w == 0 || w == -2 || w == 2
    requires -9 <= k <= 9
    ensures (w * k) % 10 == 0 <==> w == 0 || (-k) % 5 == 0
  {
  }

  // ---- Conversion loses nothing ----

  lemma SameStemSameIsbn10(a: seq<byte>, b: seq<byte>)
    requires IsIsbn10(a) && IsIsbn10(b) && a[..9] == b[..9]
    ensures Symbol(a[9]) == Symbol(b[9])
  {
    WeightedSnoc(WEIGHTS_10, a);
    WeightedSnoc(WEIGHTS_10, b);
  }

  /** Two ISBN-10s with the same ISBN-13 differ at most in the case of X. */
  lemma ConversionIsInjective(a: seq<byte>, b: seq<byte>)
    requires IsIsbn10(Compact(a)) && IsIsbn10(Compact(b)) && Normalized(a) == Normalized(b)
    ensures Compact(a)[..9] == Compact(b)[..9] && SameMeaning(Compact(a)[9], Compact(b)[9])
  {
    var s, t := Compact(a), Compact(b);
    assert Converted(s)[3..12] == s[..9];
    assert Converted(t)[3..12] == t[..9];
    SameStemSameIsbn10(s, t);
  }

  /** The ISBN-10 of a book whose ISBN-13 starts with 978. */
  function ToIsbn10(s: seq<byte>): seq<byte>
    requires |s| == 13
  {
    var stem := s[3..12];
    var d := -Weighted(WEIGHTS_10, stem) % 11;
    stem + [if d == 10 then UPPER_X else AsDigit(d)]
  }

  lemma ToIsbn10IsIsbn10(s: seq<byte>)
    requires IsIsbn13(s)
    ensures IsIsbn10(ToIsbn10(s)) && ToIsbn10(s)[..9] == s[3..12]
  {
    var t := ToIsbn10(s);
    assert t[..9] == s[3..12];
    WeightedSnoc(WEIGHTS_10, t);
  }

  /** The first twelve digits of an ISBN-13 determine the last. */
  lemma SameStemSameIsbn13(s: seq<byte>, t: seq<byte>)
    requires IsIsbn13(s) && IsIsbn13(t) && s[..12] == t[..12]
    ensures s == t
  {
    WeightedSnoc(WEIGHTS_13, s);
    WeightedSnoc(WEIGHTS_13, t);
    assert IsDigit(s[12]) && IsDigit(t[12]);
    assert s == s[..12] + [s[12]] && t == t[..12] + [t[12]];
  }

  /** Every ISBN-13 with the 978 prefix is the normal form of an ISBN-10. */
  lemma ConversionReachesEvery978(s: seq<byte>)
    requires IsIsbn13(s) && s[2] == 56
    ensures IsIsbn10(ToIsbn10(s)) && Normalized(ToIsbn10(s)) == Ok(s)
  {
    var t := ToIsbn10(s);
    ToIsbn10IsIsbn10(s);
    CompactIdentity(t);
    ConvertedIsIsbn13(t);
    assert Converted(t)[..12] == s[..12];
    SameStemSameIsbn13(Converted(t), s);
  }
}
