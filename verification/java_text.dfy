/** The pieces of `java.lang.String`, `Integer.parseInt` and
    `Double.parseDouble` that both CSV importers use to cut a line into fields
    and to read numbers out of them. Characters are Unicode scalar values;
    case folding covers ASCII and the four characters U+017F, U+0130, U+0131
    and U+212A that fold onto ASCII letters; digits are ASCII only. */
module JavaText {
  import opened Wrappers

  /** U+FFFD, the replacement character a mis-decoded "ß" turns into. */
  const Replacement: char := '\U{FFFD}'
  const Euro: char := '\U{20AC}'
  const SharpS: char := '\U{00DF}'

  // ---------------------------------------------------------------------------
  // String.split(";")

  /** Joins parts with the delimiter between neighbours. */
  function Join(parts: seq<string>, d: char): string
    requires |parts| >= 1
  {
    if |parts| == 1 then parts[0] else parts[0] + [d] + Join(parts[1..], d)
  }

  /** Every piece between delimiters, empty ones included: a string with n
      delimiters has n + 1 parts, none holding the delimiter, and joining them
      gives the string back. */
  function SplitAll(s: string, d: char): (parts: seq<string>)
    ensures |parts| >= 1
    ensures forall i :: 0 <= i < |parts| ==> d !in parts[i]
    ensures Join(parts, d) == s
    ensures d !in s ==> parts == [s]
  {
    if |s| == 0 then [""]
    else if s[0] == d then [""] + SplitAll(s[1..], d)
    else
      var rest := SplitAll(s[1..], d);
      [[s[0]] + rest[0]] + rest[1..]
  }

  /** The other half of the round trip: splitting a join of delimiter-free
      parts recovers the parts. */
  lemma {:induction false} SplitAllJoin(parts: seq<string>, d: char)
    requires |parts| >= 1
    requires forall i :: 0 <= i < |parts| ==> d !in parts[i]
    ensures SplitAll(Join(parts, d), d) == parts
    decreases |parts|, |parts[0]|
  {
    if |parts| == 1 {
    } else if |parts[0]| == 0 {
      assert Join(parts, d) == [d] + Join(parts[1..], d);
      assert Join(parts, d)[1..] == Join(parts[1..], d);
      SplitAllJoin(parts[1..], d);
      assert [""] + parts[1..] == parts;
    } else {
      var s := Join(parts, d);
      var shorter := [parts[0][1..]] + parts[1..];
      assert shorter[1..] == parts[1..];
      assert Join(shorter, d) == s[1..];
      assert s[0] == parts[0][0] && parts[0][0] in parts[0];
      SplitAllJoin(shorter, d);
      assert [s[0]] + shorter[0] == parts[0];
      assert [[s[0]] + shorter[0]] + shorter[1..] == parts;
    }
  }

  /** Drops the empty strings at the end of the sequence. */
  function DropTrailingEmpty(parts: seq<string>): (r: seq<string>)
    ensures |r| <= |parts| && r == parts[..|r|]
    ensures forall i :: |r| <= i < |parts| ==> parts[i] == ""
    ensures |r| == 0 || r[|r| - 1] != ""
  {
    if |parts| == 0 || parts[|parts| - 1] != "" then parts
    else DropTrailingEmpty(parts[..|parts| - 1])
  }

  /** Java's `s.split(String.valueOf(d))` for a one-character, non-special
      delimiter: a string without the delimiter is returned whole (even when
      empty); otherwise every field, with trailing empty fields removed.
      Leading and inner empty fields are kept. */
  function Split(s: string, d: char): (fields: seq<string>)
    ensures d !in s ==> fields == [s]
    ensures d in s ==> |fields| <= |SplitAll(s, d)|
    ensures d in s ==> fields == SplitAll(s, d)[..|fields|]
    ensures d in s ==> forall i :: |fields| <= i < |SplitAll(s, d)| ==> SplitAll(s, d)[i] == ""
    ensures d in s && |fields| > 0 ==> fields[|fields| - 1] != ""
  {
    if d !in s then [s] else DropTrailingEmpty(SplitAll(s, d))
  }

  /** A line written as delimiter-free fields whose last field is not empty
      splits back into exactly those fields. */
  lemma SplitJoin(fields: seq<string>, d: char)
    requires |fields| >= 2
    requires forall i :: 0 <= i < |fields| ==> d !in fields[i]
    requires fields[|fields| - 1] != ""
    ensures Split(Join(fields, d), d) == fields
  {
    SplitAllJoin(fields, d);
    var s := Join(fields, d);
    assert s == fields[0] + [d] + Join(fields[1..], d);
    assert s[|fields[0]|] == d;
  }

  // ---------------------------------------------------------------------------
  // String.trim, replace, replaceAll over a character class

  /** `String.trim` removes every character up to U+0020. */
  predicate IsTrimmed(c: char)
  {
    c as int <= 0x20
  }

  /** Number of trimmable characters at the start of s. */
  function LeadingTrimmed(s: string): (n: nat)
    ensures n <= |s|
    ensures forall i :: 0 <= i < n ==> IsTrimmed(s[i])
    ensures n < |s| ==> !IsTrimmed(s[n])
  {
    if |s| == 0 || !IsTrimmed(s[0]) then 0 else 1 + LeadingTrimmed(s[1..])
  }

  /** Number of trimmable characters at the end of s. */
  function TrailingTrimmed(s: string): (n: nat)
    ensures n <= |s|
    ensures forall i :: |s| - n <= i < |s| ==> IsTrimmed(s[i])
    ensures n < |s| ==> !IsTrimmed(s[|s| - n - 1])
  {
    if |s| == 0 || !IsTrimmed(s[|s| - 1]) then 0 else 1 + TrailingTrimmed(s[..|s| - 1])
  }

  /** `String.trim`: s without its leading and trailing characters up to
      U+0020; the result is empty or starts and ends with a kept character. */
  function Trim(s: string): (r: string)
    ensures |r| <= |s|
    ensures r == "" || (!IsTrimmed(r[0]) && !IsTrimmed(r[|r| - 1]))
    ensures r == "" <==> forall i :: 0 <= i < |s| ==> IsTrimmed(s[i])
    ensures LeadingTrimmed(s) + |r| <= |s|
    ensures forall i :: 0 <= i < |r| ==> r[i] == s[LeadingTrimmed(s) + i]
    ensures forall i :: LeadingTrimmed(s) + |r| <= i < |s| ==> IsTrimmed(s[i])
  {
    var a := LeadingTrimmed(s);
    if a == |s| then ""
    else
      var b := TrailingTrimmed(s);
      assert !IsTrimmed(s[a]);
      assert a < |s| - b;
      s[a..|s| - b]
  }

  /** Trimming keeps every character above U+0020, as often as it occurs. */
  lemma TrimMultiset(s: string, c: char)
    requires !IsTrimmed(c)
    ensures multiset(Trim(s))[c] == multiset(s)[c]
  {
    var r := Trim(s);
    var a := LeadingTrimmed(s);
    var e := a + |r|;
    assert s == s[..a] + r + s[e..];
    assert c !in s[..a];
    assert c !in s[e..];
  }

  /** A string that starts and ends with kept characters is its own trim. */
  lemma TrimUntouched(s: string)
    requires s != "" && !IsTrimmed(s[0]) && !IsTrimmed(s[|s| - 1])
    ensures Trim(s) == s
  {
    assert LeadingTrimmed(s) == 0;
    assert TrailingTrimmed(s) == 0;
  }

  /** `s.replace(a, b)` for one-character strings: every a becomes b. */
  function ReplaceChar(s: string, a: char, b: char): (r: string)
    ensures |r| == |s|
    ensures forall i :: 0 <= i < |s| ==> r[i] == (if s[i] == a then b else s[i])
  {
    if |s| == 0 then "" else [if s[0] == a then b else s[0]] + ReplaceChar(s[1..], a, b)
  }

  /** Every a becomes a b: the b's afterwards are the b's and a's before. */
  lemma {:induction false} ReplaceCharTarget(s: string, a: char, b: char)
    requires a != b
    ensures multiset(ReplaceChar(s, a, b))[b] == multiset(s)[b] + multiset(s)[a]
    decreases |s|
  {
    if |s| > 0 {
      var x := if s[0] == a then b else s[0];
      var rest := ReplaceChar(s[1..], a, b);
      assert s == [s[0]] + s[1..];
      assert ReplaceChar(s, a, b) == [x] + rest;
      ReplaceCharTarget(s[1..], a, b);
    }
  }

  /** Every character other than a and b stays, as often as it occurs. */
  lemma {:induction false} ReplaceCharOthers(s: string, a: char, b: char, c: char)
    requires c != a && c != b
    ensures multiset(ReplaceChar(s, a, b))[c] == multiset(s)[c]
    decreases |s|
  {
    if |s| > 0 {
      var x := if s[0] == a then b else s[0];
      var rest := ReplaceChar(s[1..], a, b);
      assert s == [s[0]] + s[1..];
      assert ReplaceChar(s, a, b) == [x] + rest;
      ReplaceCharOthers(s[1..], a, b, c);
    }
  }

  /** `s.replaceAll("[...]", "")`: deletes every character of the class. */
  function DeleteChars(s: string, cls: set<char>): (r: string)
    ensures |r| <= |s|
    ensures forall i :: 0 <= i < |r| ==> r[i] !in cls
    ensures (forall i :: 0 <= i < |s| ==> s[i] !in cls) ==> r == s
  {
    if |s| == 0 then ""
    else if s[0] in cls then DeleteChars(s[1..], cls)
    else [s[0]] + DeleteChars(s[1..], cls)
  }

  /** Every character outside the class is kept, as often as it occurs. */
  lemma {:induction false} DeleteCharsMultiset(s: string, cls: set<char>, c: char)
    requires c !in cls
    ensures multiset(DeleteChars(s, cls))[c] == multiset(s)[c]
    decreases |s|
  {
    if |s| > 0 {
      assert s == [s[0]] + s[1..];
      DeleteCharsMultiset(s[1..], cls, c);
    }
  }

  /** One character is dropped when it is in the class and kept otherwise;
      with DeleteCharsAppend this fixes the result of every deletion. */
  lemma DeleteCharsOne(c: char, cls: set<char>)
    ensures DeleteChars([c], cls) == if c in cls then "" else [c]
  {
    assert [c][1..] == "";
  }

  /** Deleting from a concatenation deletes from each half. */
  lemma {:induction false} DeleteCharsAppend(s: string, t: string, cls: set<char>)
    ensures DeleteChars(s + t, cls) == DeleteChars(s, cls) + DeleteChars(t, cls)
    decreases |s|
  {
    if |s| == 0 {
      assert s + t == t;
    } else {
      assert (s + t)[1..] == s[1..] + t;
      DeleteCharsAppend(s[1..], t, cls);
    }
  }

  /** ReplaceChar distributes over concatenation. */
  lemma ReplaceCharAppend(s: string, t: string, a: char, b: char)
    ensures ReplaceChar(s + t, a, b) == ReplaceChar(s, a, b) + ReplaceChar(t, a, b)
  {
    var l := ReplaceChar(s + t, a, b);
    var r := ReplaceChar(s, a, b) + ReplaceChar(t, a, b);
    assert |l| == |r|;
    forall i | 0 <= i < |l| ensures l[i] == r[i] {
      if i < |s| { assert (s + t)[i] == s[i]; } else { assert (s + t)[i] == t[i - |s|]; }
    }
  }

  // ---------------------------------------------------------------------------
  // String.equalsIgnoreCase against an ASCII text

  /** The letter Java's `equalsIgnoreCase` matches c with, when the other
      side is ASCII: ASCII capitals are lowered, and four other characters
      fold onto ASCII letters through `Character.toUpperCase` or
      `Character.toLowerCase`: U+017F long s ('S'), U+0131 dotless i ('I'),
      U+0130 capital I with dot ('i') and U+212A Kelvin sign ('k'). */
  function FoldChar(c: char): char
  {
    if 'A' <= c <= 'Z' then (c as int + 32) as char
    else if c == '\U{017F}' then 's'
    else if c == '\U{0131}' || c == '\U{0130}' then 'i'
    else if c == '\U{212A}' then 'k'
    else c
  }

  /** `a.equalsIgnoreCase(b)` for an ASCII a: same length, and each pair of
      characters folds to the same letter. */
  predicate EqualsIgnoreCase(a: string, b: string)
  {
    |a| == |b| && forall i :: 0 <= i < |a| ==> FoldChar(a[i]) == FoldChar(b[i])
  }

  // ---------------------------------------------------------------------------
  // Integer.parseInt over optional sign and ASCII digits

  const IntMin: int := -0x8000_0000
  const IntMax: int := 0x7FFF_FFFF

  predicate IsDigit(c: char)
  {
    '0' <= c <= '9'
  }

  predicate AllDigits(s: string)
  {
    forall i :: 0 <= i < |s| ==> IsDigit(s[i])
  }

  /** The value of a run of decimal digits, most significant first. */
  function DigitsValue(s: string): (v: nat)
    requires AllDigits(s)
  {
    if |s| == 0 then 0
    else DigitsValue(s[..|s| - 1]) * 10 + (s[|s| - 1] as int - '0' as int)
  }

  /** Shortest decimal digits of n, most significant first. */
  function DigitsOf(n: nat): (s: string)
    ensures |s| >= 1 && AllDigits(s)
    ensures DigitsValue(s) == n
  {
    var last := ((n % 10) + '0' as int) as char;
    if n < 10 then [last]
    else
      var s := DigitsOf(n / 10) + [last];
      assert s[..|s| - 1] == DigitsOf(n / 10);
      s
  }

  /** Decimal text of an int, with '-' for negatives (`Integer.toString`). */
  function FormatInt(n: int): string
  {
    if n < 0 then "-" + DigitsOf(-n) else DigitsOf(n)
  }

  /** The text of an optional '+' or '-' followed by at least one digit. */
  predicate IsIntLiteral(s: string)
  {
    if |s| > 0 && (s[0] == '-' || s[0] == '+') then |s| > 1 && AllDigits(s[1..])
    else |s| > 0 && AllDigits(s)
  }

  /** The value of an integer literal. */
  function LiteralValue(s: string): int
    requires IsIntLiteral(s)
  {
    if s[0] == '-' then 0 - DigitsValue(s[1..])
    else if s[0] == '+' then DigitsValue(s[1..])
    else DigitsValue(s)
  }

  /** `Integer.parseInt`: None where Java throws NumberFormatException, which
      is for anything but a literal, and for a literal outside 32-bit int. */
  function ParseInt(s: string): (r: Option<int>)
    ensures r.Some? ==> |s| > 0 && (s[0] == '-' ==> r.value <= 0) && (s[0] != '-' ==> r.value >= 0)
  {
    if !IsIntLiteral(s) then None
    else
      var v := LiteralValue(s);
      if IntMin <= v <= IntMax then Some(v) else None
  }

  /** Up to nine digits always fit an int: parseInt never rejects them. */
  lemma NineDigitsParse(s: string)
    requires 1 <= |s| <= 9 && AllDigits(s)
    ensures ParseInt(s) == Some(DigitsValue(s))
  {
    DigitsBound(s);
    Pow10Grows(|s|, 9);
  }

  /** A run of n digits is below 10^n. */
  lemma {:induction false} DigitsBound(s: string)
    requires AllDigits(s)
    ensures DigitsValue(s) < Pow10(|s|)
  {
    if |s| > 0 {
      DigitsBound(s[..|s| - 1]);
    }
  }

  lemma {:induction false} Pow10Grows(m: nat, n: nat)
    requires m <= n
    ensures Pow10(m) <= Pow10(n)
    decreases n
  {
    if m < n {
      Pow10Grows(m, n - 1);
    }
  }

  /** Printing a 32-bit int and parsing it back gives the int. */
  lemma ParseFormatInt(n: int)
    requires IntMin <= n <= IntMax
    ensures ParseInt(FormatInt(n)) == Some(n)
  {
    if n < 0 {
      assert FormatInt(n)[1..] == DigitsOf(-n);
    }
  }

  // ---------------------------------------------------------------------------
  // Double.parseDouble over plain signed decimals

  function Pow10(n: nat): (p: nat)
    ensures p >= 1
  {
    if n == 0 then 1 else 10 * Pow10(n - 1)
  }

  /** Position of the first '.' in s, or |s| when there is none. */
  function DotPos(s: string): (k: nat)
    ensures k <= |s|
    ensures forall i :: 0 <= i < k ==> s[i] != '.'
    ensures k < |s| ==> s[k] == '.'
  {
    if |s| == 0 || s[0] == '.' then 0 else 1 + DotPos(s[1..])
  }

  /** The value of `whole.frac` written in decimal. */
  function DecimalValue(whole: string, frac: string): (v: real)
    requires AllDigits(whole) && AllDigits(frac)
    ensures v >= 0.0
  {
    DigitsValue(whole) as real + DigitsValue(frac) as real / Pow10(|frac|) as real
  }

  /** Unsigned decimal: digits, optionally '.' and digits, at least one digit. */
  function ParseUnsignedDecimal(s: string): (r: Option<real>)
    ensures r.Some? ==> r.value >= 0.0
  {
    var k := DotPos(s);
    var whole := s[..k];
    var frac := if k < |s| then s[k + 1..] else "";
    if AllDigits(whole) && AllDigits(frac) && |whole| + |frac| >= 1 then
      Some(DecimalValue(whole, frac))
    else None
  }

  /** A final f, F, d or D: the type suffix Java's grammar allows after a
      number. */
  predicate HasTypeSuffix(s: string)
  {
    |s| > 0 && (s[|s| - 1] == 'f' || s[|s| - 1] == 'F' || s[|s| - 1] == 'd' || s[|s| - 1] == 'D')
  }

  /** `Double.parseDouble` on already trimmed text, restricted to an optional
      sign, a plain decimal and an optional type suffix: None where this
      grammar rejects the text. */
  function ParseDecimal(s: string): (r: Option<real>)
    ensures r.Some? ==> |s| > 0
    ensures r.Some? && |s| > 0 && s[0] != '-' ==> r.value >= 0.0
  {
    var body := if HasTypeSuffix(s) then s[..|s| - 1] else s;
    if |body| > 0 && body[0] == '-' then
      match ParseUnsignedDecimal(body[1..])
      case Some(v) => Some(-v)
      case None => None
    else if |body| > 0 && body[0] == '+' then ParseUnsignedDecimal(body[1..])
    else ParseUnsignedDecimal(body)
  }

  /** A type suffix does not change the value: `50d` is `50`. */
  lemma ParseDecimalSuffix(s: string, x: char)
    requires !HasTypeSuffix(s) && (x == 'f' || x == 'F' || x == 'd' || x == 'D')
    ensures ParseDecimal(s + [x]) == ParseDecimal(s)
  {
    assert (s + [x])[..|s|] == s;
  }

  /** With no '.' in the prefix, the first '.' is found after it. */
  lemma {:induction false} DotPosAppend(a: string, b: string)
    requires forall i :: 0 <= i < |a| ==> a[i] != '.'
    ensures DotPos(a + b) == |a| + DotPos(b)
    decreases |a|
  {
    if |a| > 0 {
      assert (a + b)[1..] == a[1..] + b;
      DotPosAppend(a[1..], b);
    } else {
      assert a + b == b;
    }
  }

  /** Digits, a point and digits read as whole part plus scaled fraction. */
  lemma ParseDecimalPoint(whole: string, frac: string)
    requires |whole| >= 1 && AllDigits(whole) && AllDigits(frac)
    ensures ParseDecimal(whole + "." + frac)
         == Some(DecimalValue(whole, frac))
    ensures ParseUnsignedDecimal(whole + "." + frac) == Some(DecimalValue(whole, frac))
    ensures !HasTypeSuffix(whole + "." + frac)
  {
    var s := whole + "." + frac;
    assert s == whole + ("." + frac);
    DotPosAppend(whole, "." + frac);
    assert DotPos(s) == |whole|;
    assert s[..|whole|] == whole;
    assert s[|whole| + 1..] == frac;
    assert IsDigit(s[0]);
    assert !HasTypeSuffix(s) by {
      if |frac| > 0 { assert s[|s| - 1] == frac[|frac| - 1]; } else { assert s[|s| - 1] == '.'; }
    }
    UnsignedAt(s, whole, frac);
  }

  /** A leading minus negates the decimal: `-50.00` is -50. */
  lemma ParseDecimalNegative(whole: string, frac: string)
    requires |whole| >= 1 && AllDigits(whole) && AllDigits(frac)
    ensures ParseDecimal("-" + (whole + "." + frac)) == Some(-DecimalValue(whole, frac))
  {
    var u := whole + "." + frac;
    var s := "-" + u;
    ParseDecimalPoint(whole, frac);
    assert s[|s| - 1] == u[|u| - 1];
    assert s[1..] == u;
  }

  lemma UnsignedAt(s: string, whole: string, frac: string)
    requires DotPos(s) == |whole| < |s|
    requires s[..|whole|] == whole && s[|whole| + 1..] == frac
    requires |whole| >= 1 && AllDigits(whole) && AllDigits(frac)
    ensures ParseUnsignedDecimal(s)
         == Some(DecimalValue(whole, frac))
  {
    var k := DotPos(s);
    var f := if k < |s| then s[k + 1..] else "";
    assert f == frac;
    assert s[..k] == whole;
    assert AllDigits(s[..k]) && AllDigits(f) && |s[..k]| + |f| >= 1;
  }

  // ---------------------------------------------------------------------------
  // The importers' number clean-up

  /** Both importers clean a money or percent field the same way: delete the
      glyph, '.' (a thousands separator) and U+FFFD, turn the decimal comma
      into '.', then trim. No comma, replacement character or (unless it is
      '.') glyph survives. */
  function Normalize(s: string, glyph: char): (r: string)
    ensures forall i :: 0 <= i < |r| ==> r[i] != Replacement && r[i] != ','
    ensures glyph != '.' ==> forall i :: 0 <= i < |r| ==> r[i] != glyph
    ensures r == "" || (!IsTrimmed(r[0]) && !IsTrimmed(r[|r| - 1]))
    ensures SameCounts(r, s, glyph)
    ensures r == Trim(ReplaceChar(DeleteChars(s, {glyph, '.', Replacement}), ',', '.'))
  {
    CleanUpShape(s, glyph);
    CleanUpCounts(s, glyph);
    CleanUp(s, glyph)
  }

  /** The three steps of the clean-up, in the source's order. */
  function CleanUp(s: string, glyph: char): string
  {
    Trim(ReplaceChar(DeleteChars(s, {glyph, '.', Replacement}), ',', '.'))
  }

  /** After the clean-up no comma, U+FFFD or glyph is left, and the text is
      trimmed. */
  lemma CleanUpShape(s: string, glyph: char)
    ensures var r := CleanUp(s, glyph);
            (forall i :: 0 <= i < |r| ==> r[i] != Replacement && r[i] != ',') &&
            (glyph != '.' ==> forall i :: 0 <= i < |r| ==> r[i] != glyph) &&
            (r == "" || (!IsTrimmed(r[0]) && !IsTrimmed(r[|r| - 1])))
  {
    var deleted := DeleteChars(s, {glyph, '.', Replacement});
    var replaced := ReplaceChar(deleted, ',', '.');
    assert forall j :: 0 <= j < |replaced| ==> replaced[j] != Replacement && replaced[j] != ',';
    assert glyph != '.' ==> forall j :: 0 <= j < |replaced| ==> replaced[j] != glyph;
  }

  /** The characters the clean-up leaves alone: everything above U+0020
      except the glyph, '.', ',' and U+FFFD. */
  predicate Kept(c: char, glyph: char)
  {
    !IsTrimmed(c) && c != glyph && c != '.' && c != ',' && c != Replacement
  }

  /** Every kept character of s occurs in r as often as in s, and (unless
      the glyph is ',') r has one '.' for each ',' of s. */
  predicate SameCounts(r: string, s: string, glyph: char)
  {
    (forall c :: Kept(c, glyph) ==> multiset(r)[c] == multiset(s)[c]) &&
    (glyph != ',' ==> multiset(r)['.'] == multiset(s)[','])
  }

  /** Every kept character survives the clean-up as often as it occurs, and
      each decimal comma becomes the one kind of '.' left. */
  lemma CleanUpCounts(s: string, glyph: char)
    ensures SameCounts(CleanUp(s, glyph), s, glyph)
  {
    var cls := {glyph, '.', Replacement};
    var deleted := DeleteChars(s, cls);
    var replaced := ReplaceChar(deleted, ',', '.');
    forall c | Kept(c, glyph)
      ensures multiset(Trim(replaced))[c] == multiset(s)[c]
    {
      DeleteCharsMultiset(s, cls, c);
      ReplaceCharOthers(deleted, ',', '.', c);
      TrimMultiset(replaced, c);
    }
    if glyph != ',' {
      DeleteCharsMultiset(s, cls, ',');
      ReplaceCharTarget(deleted, ',', '.');
      TrimMultiset(replaced, '.');
      assert '.' !in deleted;
    }
  }

  /** `values[4]` and `values[7]`: a Euro amount. */
  function NormalizeMoney(s: string): string
  {
    Normalize(s, Euro)
  }

  /** `values[6]`: a percentage. */
  function NormalizePercent(s: string): string
  {
    Normalize(s, '%')
  }

  lemma ReplaceCharAbsent(s: string, a: char, b: char)
    requires a !in s
    ensures ReplaceChar(s, a, b) == s
  {
    assert forall i :: 0 <= i < |s| ==> s[i] != a;
  }

  /** Deleting the thousands point and the glyph from
      `whole,frac glyph` leaves `whole,frac ` (with its blank). */
  lemma DeleteCommaAmount(whole: string, frac: string, glyph: char)
    requires AllDigits(whole) && AllDigits(frac) && !IsDigit(glyph) && glyph != ',' && glyph != ' '
    ensures DeleteChars(whole + "," + frac + " " + [glyph], {glyph, '.', Replacement}) == whole + "," + frac + " "
  {
    var cls := {glyph, '.', Replacement};
    var head := whole + "," + frac;
    DeleteCommaHead(whole, frac, cls);
    DeleteCharsOne(' ', cls);
    DeleteCharsOne(glyph, cls);
    DeleteCharsAppend(head, " ", cls);
    DeleteCharsAppend(head + " ", [glyph], cls);
  }

  /** Digits around a comma are kept when neither digits nor the comma are
      deleted. */
  lemma DeleteCommaHead(whole: string, frac: string, cls: set<char>)
    requires AllDigits(whole) && AllDigits(frac)
    requires ',' !in cls && forall c :: c in cls ==> !IsDigit(c)
    ensures DeleteChars(whole + "," + frac, cls) == whole + "," + frac
  {
    var head := whole + "," + frac;
    forall i | 0 <= i < |head|
      ensures head[i] !in cls
    {
      if i < |whole| {
        assert head[i] == whole[i];
      } else if i > |whole| {
        assert head[i] == frac[i - |whole| - 1];
      }
    }
  }

  /** A point between two runs of digits is deleted. */
  lemma DeleteThousandsPoint(thousands: string, hundreds: string, tail: string, cls: set<char>)
    requires AllDigits(thousands) && AllDigits(hundreds)
    requires '.' in cls && forall c :: c in cls ==> !IsDigit(c)
    ensures DeleteChars(thousands + "." + hundreds + tail, cls) == DeleteChars(thousands + hundreds + tail, cls)
  {
    var whole := thousands + hundreds;
    DeletePointBetween(thousands, hundreds, cls);
    DeleteCharsAppend(thousands + "." + hundreds, tail, cls);
    assert AllDigits(whole);
    DeleteDigits(whole, cls);
    DeleteCharsAppend(whole, tail, cls);
  }

  lemma DeletePointBetween(thousands: string, hundreds: string, cls: set<char>)
    requires AllDigits(thousands) && AllDigits(hundreds)
    requires '.' in cls && forall c :: c in cls ==> !IsDigit(c)
    ensures DeleteChars(thousands + "." + hundreds, cls) == thousands + hundreds
  {
    DeleteDigits(thousands, cls);
    DeleteDigits(hundreds, cls);
    DeleteCharsOne('.', cls);
    DeleteCharsAppend(thousands, ".", cls);
    DeleteCharsAppend(thousands + ".", hundreds, cls);
  }

  lemma DeleteDigits(t: string, cls: set<char>)
    requires AllDigits(t)
    requires forall c :: c in cls ==> !IsDigit(c)
    ensures DeleteChars(t, cls) == t
  {
    assert forall i :: 0 <= i < |t| ==> t[i] !in cls;
  }

  /** The decimal comma becomes the point. */
  lemma ReplaceCommaAmount(whole: string, frac: string)
    requires AllDigits(whole) && AllDigits(frac)
    ensures ReplaceChar(whole + "," + frac + " ", ',', '.') == whole + "." + frac + " "
  {
    var s := whole + "," + frac + " ";
    var t := whole + "." + frac + " ";
    var r := ReplaceChar(s, ',', '.');
    forall i | 0 <= i < |t|
      ensures r[i] == t[i]
    {
      if i < |whole| {
        assert s[i] == whole[i] && t[i] == whole[i];
      } else if i == |whole| {
        assert s[i] == ',' && t[i] == '.';
      } else if i < |whole| + 1 + |frac| {
        assert s[i] == frac[i - |whole| - 1] && t[i] == frac[i - |whole| - 1];
      } else {
        assert s[i] == ' ' && t[i] == ' ';
      }
    }
  }

  /** A trailing blank is trimmed off a string that starts with a digit. */
  lemma TrimTrailingBlank(t: string)
    requires |t| >= 1 && IsDigit(t[0]) && !IsTrimmed(t[|t| - 1])
    ensures Trim(t + " ") == t
  {
    var s := t + " ";
    assert LeadingTrimmed(s) == 0;
    assert s[..|s| - 1] == t;
    assert TrailingTrimmed(t) == 0;
    assert TrailingTrimmed(s) == 1;
    assert s[0..|s| - 1] == t;
  }

  /** An amount or percentage with a decimal comma, a blank and its glyph
      (`12,50 €`, `3,5 %`) cleans up to the plain decimal `12.50`, `3.5`. */
  lemma NormalizeCommaAmount(whole: string, frac: string, glyph: char)
    requires |whole| >= 1 && AllDigits(whole) && AllDigits(frac)
    requires glyph == Euro || glyph == '%'
    ensures Normalize(whole + "," + frac + [' ', glyph], glyph) == whole + "." + frac
  {
    assert whole + "," + frac + [' ', glyph] == whole + "," + frac + " " + [glyph];
    DeleteCommaAmount(whole, frac, glyph);
    ReplaceCommaAmount(whole, frac);
    var plain := whole + "." + frac;
    assert plain + " " == whole + "." + frac + " ";
    assert plain[0] == whole[0];
    assert !IsTrimmed(plain[|plain| - 1]) by {
      if |frac| == 0 { assert plain[|plain| - 1] == '.'; }
      else { assert plain[|plain| - 1] == frac[|frac| - 1]; }
    }
    TrimTrailingBlank(plain);
  }

  /** A German-formatted amount with a thousands point, a decimal comma and a
      trailing " €" cleans up to the plain decimal of the same value. */
  lemma NormalizeGermanAmount(thousands: string, hundreds: string, cents: string)
    requires |thousands| >= 1 && AllDigits(thousands) && AllDigits(hundreds) && AllDigits(cents)
    ensures NormalizeMoney(thousands + "." + hundreds + "," + cents + " " + [Euro])
         == thousands + hundreds + "." + cents
  {
    var tail := "," + cents + [' ', Euro];
    var whole := thousands + hundreds;
    assert thousands + "." + hundreds + "," + cents + " " + [Euro] == thousands + "." + hundreds + tail;
    assert whole + "," + cents + [' ', Euro] == thousands + hundreds + tail;
    assert AllDigits(whole);
    DeleteThousandsPoint(thousands, hundreds, tail, {Euro, '.', Replacement});
    NormalizeCommaAmount(whole, cents, Euro);
  }
}
