/** What both CSV importers share: cutting a line into its fourteen columns,
    reading the numbers out of them in the order the source does, deciding the
    account kind, and the errors an import can end with. The column layout is
    bank name; BLZ; account number; PIN; balance; kind; interest; overdraft
    limit; customer number; surname; first name; street; postcode; town. */
module CsvRows {
  import opened Wrappers
  import opened JavaText
  import Holders
  import opened Accounts

  /** A line with fewer columns is malformed. */
  const MinFields: nat := 14

  /** Every way an import ends without a result. The strict importer wraps
      its failures in an IOException whose message names the line; the
      lenient one lets a NumberFormatException or a NullPointerException
      escape, with no line. */
  datatype ImportFehler =
    | UngueltigesFormat(zeile: nat)
    | ParseFehler(zeile: nat)
    | InkonsistenterBankname(blz: string, ist: string, soll: string, zeile: nat)
    | InkonsistenteKundendaten(kundennummer: int, blz: string, bekannt: Holders.Person,
                               gelesen: Holders.Person, zeile: nat)
    | DoppelteKontonummer(blz: string, kontonummer: int, zeile: nat)
    | UnbekannteKontoart(zeile: nat)
    | NumberFormat
    | NullPointer

  /** The columns of one line once the numbers every line needs are read.
      The interest and limit columns stay text: each importer reads only the
      one its account kind needs. */
  datatype Zeile = Zeile(bankName: string, blz: string, kontonummer: int, pin: int,
                         kontostand: real, kontoart: string, zinsText: string,
                         limitText: string, person: Holders.Person)

  /** The street column: U+FFFD becomes "ß", then trim. The result is the
      column from its first character above U+0020 on, each U+FFFD read as
      "ß", and only characters up to U+0020 follow it in the column. */
  function CleanStreet(s: string): (r: string)
    ensures Replacement !in r
    ensures r == "" || (!IsTrimmed(r[0]) && !IsTrimmed(r[|r| - 1]))
    ensures LeadingTrimmed(s) + |r| <= |s|
    ensures forall i :: 0 <= i < |r| ==>
              r[i] == if s[LeadingTrimmed(s) + i] == Replacement then SharpS else s[LeadingTrimmed(s) + i]
    ensures forall i :: LeadingTrimmed(s) + |r| <= i < |s| ==> IsTrimmed(s[i])
  {
    var replaced := ReplaceChar(s, Replacement, SharpS);
    assert forall i :: 0 <= i < |replaced| ==> replaced[i] != Replacement;
    SameTrimmedPrefix(replaced, s);
    Trim(replaced)
  }

  /** Two strings that have characters up to U+0020 at the same places have
      the same number of them at the start. */
  lemma {:induction false} SameTrimmedPrefix(s: string, t: string)
    requires |s| == |t| && forall i :: 0 <= i < |s| ==> (IsTrimmed(s[i]) <==> IsTrimmed(t[i]))
    ensures LeadingTrimmed(s) == LeadingTrimmed(t)
    decreases |s|
  {
    if |s| > 0 && IsTrimmed(s[0]) {
      SameTrimmedPrefix(s[1..], t[1..]);
    }
  }

  /** Reads columns 2, 3, 4 and 8 as numbers. It fails, as the source throws
      NumberFormatException, exactly when one of them is not a number. */
  function ParseZeile(v: seq<string>): (r: Option<Zeile>)
    requires |v| >= MinFields
    ensures r.Some? <==> ParseInt(v[2]).Some? && ParseInt(v[3]).Some? &&
                         ParseDecimal(NormalizeMoney(v[4])).Some? && ParseInt(v[8]).Some?
    ensures r.Some? ==> r.value.bankName == v[0] && r.value.blz == v[1]
    ensures r.Some? ==> Some(r.value.kontonummer) == ParseInt(v[2]) && Some(r.value.pin) == ParseInt(v[3])
    ensures r.Some? ==> Some(r.value.kontostand) == ParseDecimal(NormalizeMoney(v[4]))
    ensures r.Some? ==> r.value.kontoart == v[5] && r.value.zinsText == v[6] && r.value.limitText == v[7]
    ensures r.Some? ==> Some(r.value.person.kundennummer) == ParseInt(v[8])
    ensures r.Some? ==> r.value.person.name == v[9] && r.value.person.vorname == v[10]
    ensures r.Some? ==> r.value.person.strasse == CleanStreet(v[11])
    ensures r.Some? ==> r.value.person.plz == v[12] && r.value.person.ort == v[13]
    ensures r.Some? ==> IntMin <= r.value.kontonummer <= IntMax && IntMin <= r.value.pin <= IntMax
  {
    match (ParseInt(v[2]), ParseInt(v[3]), ParseDecimal(NormalizeMoney(v[4])), ParseInt(v[8]))
    case (Some(kontonummer), Some(pin), Some(kontostand), Some(kundennummer)) =>
      var person := Holders.Person(kundennummer, v[10], v[9], CleanStreet(v[11]), v[12], v[13]);
      Some(Zeile(v[0], v[1], kontonummer, pin, kontostand, v[5], v[6], v[7], person))
    case _ => None
  }

  /** The account kind, matched case-insensitively. */
  datatype Kontoart = Giro | Spar | Unbekannt

  function KontoartOf(text: string): Kontoart
  {
    if EqualsIgnoreCase("Girokonto", text) then Giro
    else if EqualsIgnoreCase("Sparkonto", text) then Spar
    else Unbekannt
  }

  /** Any nine characters that fold, one by one, to the letters of
      "girokonto" name a Girokonto, whatever their case. */
  lemma KontoartGiro(t: string)
    requires |t| == 9
    requires FoldChar(t[0]) == 'g' && FoldChar(t[1]) == 'i' && FoldChar(t[2]) == 'r'
    requires FoldChar(t[3]) == 'o' && FoldChar(t[4]) == 'k' && FoldChar(t[5]) == 'o'
    requires FoldChar(t[6]) == 'n' && FoldChar(t[7]) == 't' && FoldChar(t[8]) == 'o'
    ensures KontoartOf(t) == Giro
  {
    var w := "Girokonto";
    assert FoldChar(w[0]) == 'g' && FoldChar(w[1]) == 'i' && FoldChar(w[2]) == 'r';
    assert FoldChar(w[3]) == 'o' && FoldChar(w[4]) == 'k' && FoldChar(w[5]) == 'o';
    assert FoldChar(w[6]) == 'n' && FoldChar(w[7]) == 't' && FoldChar(w[8]) == 'o';
    forall i | 0 <= i < 9
      ensures FoldChar(w[i]) == FoldChar(t[i])
    {
      if i == 0 {} else if i == 1 {} else if i == 2 {} else if i == 3 {} else if i == 4 {}
      else if i == 5 {} else if i == 6 {} else if i == 7 {} else {}
    }
  }

  /** Any nine characters that fold, one by one, to the letters of
      "sparkonto" name a Sparkonto. */
  lemma KontoartSpar(t: string)
    requires |t| == 9
    requires FoldChar(t[0]) == 's' && FoldChar(t[1]) == 'p' && FoldChar(t[2]) == 'a'
    requires FoldChar(t[3]) == 'r' && FoldChar(t[4]) == 'k' && FoldChar(t[5]) == 'o'
    requires FoldChar(t[6]) == 'n' && FoldChar(t[7]) == 't' && FoldChar(t[8]) == 'o'
    ensures KontoartOf(t) == Spar
  {
    var g := "Girokonto";
    assert FoldChar(g[0]) == 'g';
    var w := "Sparkonto";
    assert FoldChar(w[0]) == 's' && FoldChar(w[1]) == 'p' && FoldChar(w[2]) == 'a';
    assert FoldChar(w[3]) == 'r' && FoldChar(w[4]) == 'k' && FoldChar(w[5]) == 'o';
    assert FoldChar(w[6]) == 'n' && FoldChar(w[7]) == 't' && FoldChar(w[8]) == 'o';
    forall i | 0 <= i < 9
      ensures FoldChar(w[i]) == FoldChar(t[i])
    {
      if i == 0 {} else if i == 1 {} else if i == 2 {} else if i == 3 {} else if i == 4 {}
      else if i == 5 {} else if i == 6 {} else if i == 7 {} else {}
    }
  }

  /** Capitals are folded. */
  lemma KontoartCapitals()
    ensures KontoartOf("GIROKONTO") == Giro
    ensures KontoartOf("sparKONTO") == Spar
  {
    KontoartGiro("GIROKONTO");
    KontoartSpar("sparKONTO");
  }

  /** Long s and the Kelvin sign fold to 's' and 'k', as Java's
      case-insensitive comparison has them. */
  lemma KontoartLongSKelvin()
    ensures KontoartOf("\U{017F}parkonto") == Spar
    ensures KontoartOf("Giro\U{212A}onto") == Giro
  {
    KontoartSpar("\U{017F}parkonto");
    KontoartGiro("Giro\U{212A}onto");
  }

  /** Capital I with dot above and dotless i both fold to 'i'. */
  lemma KontoartDottedI()
    ensures KontoartOf("G\U{0130}ROKONTO") == Giro
    ensures KontoartOf("g\U{0131}rokonto") == Giro
  {
    KontoartGiro("G\U{0130}ROKONTO");
    KontoartGiro("g\U{0131}rokonto");
  }

  /** The column is not trimmed, so a trailing blank makes the kind unknown. */
  lemma KontoartUnknown()
    ensures KontoartOf("Girokonto ") == Unbekannt
    ensures KontoartOf("Tagesgeld") == Unbekannt
  {
    assert FoldChar("Tagesgeld"[0]) != FoldChar("Girokonto"[0]);
    assert FoldChar("Tagesgeld"[0]) != FoldChar("Sparkonto"[0]);
  }

  /** The overdraft limit column, a Euro amount. */
  function ParseLimit(text: string): Option<real>
  {
    ParseDecimal(NormalizeMoney(text))
  }

  /** The interest column, a percentage, stored divided by 100: "3%" is 0.03. */
  function ParseZins(text: string): Option<real>
  {
    match ParseDecimal(NormalizePercent(text))
    case Some(p) => Some(p / 100.0)
    case None => None
  }

  /** A German limit such as `1.500,00 €` reads as its value. */
  lemma ParseLimitGerman(thousands: string, hundreds: string, cents: string)
    requires |thousands| >= 1 && AllDigits(thousands) && AllDigits(hundreds) && AllDigits(cents)
    ensures ParseLimit(thousands + "." + hundreds + "," + cents + " " + [Euro])
         == Some(DecimalValue(thousands + hundreds, cents))
  {
    var whole := thousands + hundreds;
    assert AllDigits(whole);
    NormalizeGermanAmount(thousands, hundreds, cents);
    ParseDecimalPoint(whole, cents);
    ParseLimitOf(thousands + "." + hundreds + "," + cents + " " + [Euro], whole + "." + cents, DecimalValue(whole, cents));
  }

  lemma ParseLimitOf(text: string, n: string, v: real)
    requires NormalizeMoney(text) == n && ParseDecimal(n) == Some(v)
    ensures ParseLimit(text) == Some(v)
  {
  }

  /** A percentage such as `3,5 %` reads as its hundredth, 0.035. */
  lemma ParseZinsPercent(whole: string, frac: string)
    requires |whole| >= 1 && AllDigits(whole) && AllDigits(frac)
    ensures ParseZins(whole + "," + frac + " %").Some?
    ensures ParseZins(whole + "," + frac + " %").value * 100.0 == DecimalValue(whole, frac)
  {
    assert whole + "," + frac + " %" == whole + "," + frac + [' ', '%'];
    ParseZinsComma(whole, frac, DecimalValue(whole, frac));
  }

  lemma ParseZinsComma(whole: string, frac: string, v: real)
    requires |whole| >= 1 && AllDigits(whole) && AllDigits(frac)
    requires v == DecimalValue(whole, frac)
    ensures ParseZins(whole + "," + frac + [' ', '%']).Some?
    ensures ParseZins(whole + "," + frac + [' ', '%']).value * 100.0 == v
  {
    var text := whole + "," + frac + [' ', '%'];
    var n := whole + "." + frac;
    NormalizeCommaAmount(whole, frac, '%');
    ParseDecimalPoint(whole, frac);
    ParseZinsOf(text, n, v);
  }

  lemma ParseZinsOf(text: string, n: string, v: real)
    requires NormalizePercent(text) == n && ParseDecimal(n) == Some(v)
    ensures ParseZins(text).Some? && ParseZins(text).value * 100.0 == v
  {
  }

  /** The account kind of a row with its kind-specific field read: the
      limit for a Girokonto, the percentage divided by 100 (not rounded) for
      a Sparkonto. */
  datatype ArtFeld = UnbekannteArt | FeldUnlesbar | Bekannt(art: Art)

  function ArtOf(z: Zeile): ArtFeld
  {
    match KontoartOf(z.kontoart)
    case Giro =>
      (match ParseLimit(z.limitText) case Some(l) => Bekannt(Girokonto(l)) case None => FeldUnlesbar)
    case Spar =>
      (match ParseZins(z.zinsText) case Some(p) => Bekannt(Sparkonto(p)) case None => FeldUnlesbar)
    case Unbekannt => UnbekannteArt
  }

  /** A line as both importers first see it: fewer than fourteen columns,
      a number column that does not parse, or a row. */
  datatype Gelesen = ZuKurz | Unlesbar | Gelesen(z: Zeile, feld: ArtFeld)

  /** The line split at ';' and its columns read. */
  function Lese(line: string): Gelesen
  {
    var v := Split(line, ';');
    if |v| < MinFields then ZuKurz
    else
      match ParseZeile(v)
      case None => Unlesbar
      case Some(z) => Gelesen(z, ArtOf(z))
  }

  /** A Girokonto line with a comma limit carries that limit. */
  lemma ArtOfGiro(z: Zeile, whole: string, frac: string)
    requires |whole| >= 1 && AllDigits(whole) && AllDigits(frac)
    requires z.kontoart == "Girokonto" && z.limitText == whole + "," + frac + [' ', Euro]
    ensures ArtOf(z) == Bekannt(Girokonto(DecimalValue(whole, frac)))
  {
    KontoartGiro(z.kontoart);
    NormalizeCommaAmount(whole, frac, Euro);
    ParseDecimalPoint(whole, frac);
    ParseLimitOf(z.limitText, whole + "." + frac, DecimalValue(whole, frac));
  }

  /** A Sparkonto line with a comma percentage carries its hundredth. */
  lemma ArtOfSpar(z: Zeile, whole: string, frac: string)
    requires |whole| >= 1 && AllDigits(whole) && AllDigits(frac)
    requires z.kontoart == "Sparkonto" && z.zinsText == whole + "," + frac + " %"
    ensures ArtOf(z).Bekannt? && ArtOf(z).art.Sparkonto?
    ensures ArtOf(z).art.zins * 100.0 == DecimalValue(whole, frac)
  {
    KontoartSpar(z.kontoart);
    ParseZinsPercent(whole, frac);
  }

  /** Every line of the file read on its own; reading has no side effects,
      so reading them all before the first is used changes nothing. */
  function ReadAll(lines: seq<string>): (r: seq<Gelesen>)
    ensures |r| == |lines|
    ensures forall i :: 0 <= i < |lines| ==> r[i] == Lese(lines[i])
  {
    seq(|lines|, i requires 0 <= i < |lines| => Lese(lines[i]))
  }

  /** The account a line describes, once its kind-specific field is read. */
  function KontoOf(z: Zeile, kontostand: real, inhaber: Holders.Person, art: Art): (k: Konto)
    ensures k.kontonummer == z.kontonummer && k.pin == z.pin && k.bank == z.blz
    ensures k.kontostand == kontostand && k.inhaber == inhaber && k.art == art
  {
    Konto(z.kontonummer, z.pin, kontostand, inhaber, z.blz, art)
  }

  // ---------------------------------------------------------------------------
  // Writing a line back

  /** The fourteen columns of a Zeile, given the text of its balance. */
  function RowFields(z: Zeile, kontostandText: string): (v: seq<string>)
    ensures |v| == MinFields
  {
    var p := z.person;
    [z.bankName, z.blz, FormatInt(z.kontonummer), FormatInt(z.pin), kontostandText,
     z.kontoart, z.zinsText, z.limitText, FormatInt(p.kundennummer), p.name,
     p.vorname, p.strasse, p.plz, p.ort]
  }

  /** The line a Zeile comes from, given the text of its balance. */
  function RenderZeile(z: Zeile, kontostandText: string): (line: string)
  {
    Join(RowFields(z, kontostandText), ';')
  }

  /** Text the importer passes through unchanged between semicolons. */
  predicate PlainField(s: string)
  {
    ';' !in s
  }

  /** What a line must look like to be read back as the Zeile it was written
      from: no text field holds ';', the town is not empty (a trailing empty
      column would vanish in the split), the numbers are 32-bit, the balance
      text reads as the balance, and the street is already clean. */
  predicate Renderable(z: Zeile, kontostandText: string)
  {
    FieldsPlain(z, kontostandText) &&
    IntMin <= z.kontonummer <= IntMax && IntMin <= z.pin <= IntMax &&
    IntMin <= z.person.kundennummer <= IntMax &&
    ParseDecimal(NormalizeMoney(kontostandText)) == Some(z.kontostand) &&
    StreetClean(z.person.strasse)
  }

  predicate FieldsPlain(z: Zeile, kontostandText: string)
  {
    var p := z.person;
    PlainField(z.bankName) && PlainField(z.blz) && PlainField(kontostandText) &&
    PlainField(z.kontoart) && PlainField(z.zinsText) && PlainField(z.limitText) &&
    PlainField(p.name) && PlainField(p.vorname) && PlainField(p.strasse) &&
    PlainField(p.plz) && PlainField(p.ort) && p.ort != ""
  }

  predicate StreetClean(s: string)
  {
    Replacement !in s && (s == "" || (!IsTrimmed(s[0]) && !IsTrimmed(s[|s| - 1])))
  }

  lemma FormatIntPlain(n: int)
    ensures PlainField(FormatInt(n))
  {
    var s := FormatInt(n);
    var d := if n < 0 then DigitsOf(-n) else DigitsOf(n);
    assert n < 0 ==> s == "-" + d;
    assert forall i :: 0 <= i < |d| ==> d[i] != ';' by {
      assert AllDigits(d);
    }
  }

  /** A street already clean is its own cleaning. */
  lemma CleanStreetUntouched(s: string)
    requires StreetClean(s)
    ensures CleanStreet(s) == s
  {
    ReplaceCharAbsent(s, Replacement, SharpS);
    if s != "" {
      TrimUntouched(s);
    }
  }

  /** A rendered line splits into its fourteen columns. */
  lemma SplitRendered(z: Zeile, kontostandText: string)
    requires FieldsPlain(z, kontostandText)
    ensures Split(RenderZeile(z, kontostandText), ';') == RowFields(z, kontostandText)
  {
    var fields := RowFields(z, kontostandText);
    FormatIntPlain(z.kontonummer);
    FormatIntPlain(z.pin);
    FormatIntPlain(z.person.kundennummer);
    assert forall i :: 0 <= i < |fields| ==> PlainField(fields[i]);
    SplitJoin(fields, ';');
  }

  /** Writing a row and reading it back gives the row. */
  lemma ParseRenderZeile(z: Zeile, kontostandText: string)
    requires Renderable(z, kontostandText)
    ensures |Split(RenderZeile(z, kontostandText), ';')| == MinFields
    ensures ParseZeile(Split(RenderZeile(z, kontostandText), ';')) == Some(z)
  {
    SplitRendered(z, kontostandText);
    ParseRowFields(z, kontostandText);
  }

  /** Reading a written line gives back its row, with its kind read. */
  lemma LeseRender(z: Zeile, kontostandText: string)
    requires Renderable(z, kontostandText)
    ensures Lese(RenderZeile(z, kontostandText)) == Gelesen(z, ArtOf(z))
  {
    ParseRenderZeile(z, kontostandText);
  }

  /** The columns of a Zeile read back as the Zeile. */
  lemma ParseRowFields(z: Zeile, kontostandText: string)
    requires Renderable(z, kontostandText)
    ensures ParseZeile(RowFields(z, kontostandText)) == Some(z)
  {
    RowFieldsNumbers(z, kontostandText);
    RowFieldsText(z, kontostandText);
    ParseFieldsBack(z, RowFields(z, kontostandText), kontostandText);
  }

  lemma RowFieldsText(z: Zeile, kontostandText: string)
    ensures var v := RowFields(z, kontostandText);
            v[0] == z.bankName && v[1] == z.blz && v[4] == kontostandText &&
            v[5] == z.kontoart && v[6] == z.zinsText && v[7] == z.limitText &&
            v[9] == z.person.name && v[10] == z.person.vorname &&
            v[12] == z.person.plz && v[13] == z.person.ort
  {
  }

  lemma RowFieldsNumbers(z: Zeile, kontostandText: string)
    requires IntMin <= z.kontonummer <= IntMax && IntMin <= z.pin <= IntMax
    requires IntMin <= z.person.kundennummer <= IntMax
    requires StreetClean(z.person.strasse)
    ensures ParseInt(RowFields(z, kontostandText)[2]) == Some(z.kontonummer)
    ensures ParseInt(RowFields(z, kontostandText)[3]) == Some(z.pin)
    ensures ParseInt(RowFields(z, kontostandText)[8]) == Some(z.person.kundennummer)
    ensures CleanStreet(RowFields(z, kontostandText)[11]) == z.person.strasse
  {
    var v := RowFields(z, kontostandText);
    FieldInt(v, 2, z.kontonummer);
    FieldInt(v, 3, z.pin);
    FieldInt(v, 8, z.person.kundennummer);
    CleanStreetUntouched(z.person.strasse);
  }

  lemma FieldInt(v: seq<string>, i: nat, n: int)
    requires i < |v| && v[i] == FormatInt(n) && IntMin <= n <= IntMax
    ensures ParseInt(v[i]) == Some(n)
  {
    ParseFormatInt(n);
  }

  lemma ParseFieldsBack(z: Zeile, v: seq<string>, kontostandText: string)
    requires |v| == MinFields
    requires v[0] == z.bankName && v[1] == z.blz && v[4] == kontostandText
    requires v[5] == z.kontoart && v[6] == z.zinsText && v[7] == z.limitText
    requires v[9] == z.person.name && v[10] == z.person.vorname && v[12] == z.person.plz && v[13] == z.person.ort
    requires ParseInt(v[2]) == Some(z.kontonummer) && ParseInt(v[3]) == Some(z.pin)
    requires ParseInt(v[8]) == Some(z.person.kundennummer)
    requires ParseDecimal(NormalizeMoney(v[4])) == Some(z.kontostand)
    requires CleanStreet(v[11]) == z.person.strasse
    ensures ParseZeile(v) == Some(z)
  {
  }
}
