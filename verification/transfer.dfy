/** The transfer of the ATM: `ueberweisen` in
    src/main/java/com/geldautomat/controller/UeberweisenController.java.
    The controller reads BLZ, account number and amount from its dialog,
    looks the recipient up in the management system, checks the sender's
    cover, and then sets both balances, rounding each to five decimals.
    The sender object is an account of the management system; the model
    holds it by its place in the ledger, and the yes/no dialog that asks
    before an overdraft is the parameter `bestaetigt`. */
module Transfer {
  import opened Wrappers
  import opened Money
  import opened JavaText
  import opened Accounts
  import opened Banks
  import opened Registry
  import opened Ledger
  import LenientImport

  /** Where an account sits: the bank's position in the management system,
      then the account's position in that bank's list. */
  datatype KontoRef = KontoRef(bank: nat, slot: nat)

  predicate ValidRef(m: BankManagementSystem, r: KontoRef)
  {
    r.bank < |m.banks| && r.slot < |m.banks[r.bank].konten|
  }

  function KontoAt(m: BankManagementSystem, r: KontoRef): Konto
    requires ValidRef(m, r)
  {
    m.banks[r.bank].konten[r.slot]
  }

  /** m2 has the banks of m, in the same order, with the same BLZs, names and
      account lists, except that balances may differ. */
  predicate SameShape(m: BankManagementSystem, m2: BankManagementSystem)
  {
    |m2.banks| == |m.banks| &&
    forall i :: 0 <= i < |m.banks| ==>
      m2.banks[i].blz == m.banks[i].blz && m2.banks[i].name == m.banks[i].name &&
      |m2.banks[i].konten| == |m.banks[i].konten| &&
      forall j :: 0 <= j < |m.banks[i].konten| ==>
        m2.banks[i].konten[j] == m.banks[i].konten[j].(kontostand := m2.banks[i].konten[j].kontostand)
  }

  /** The failures of a transfer. The first four are what the controller
      reports or throws; UngueltigerBetrag belongs to the corrected variant
      UeberweisenGeprueft only. */
  datatype UeberweisungFehler =
    | BetragKeineZahl          // Double.parseDouble throws
    | KontonummerKeineZahl     // Integer.parseInt throws
    | EmpfaengerExistiertNicht // "Das Empfängerkonto existiert nicht."
    | NichtGenugGeld           // "Sie haben nicht genug Geld auf dem Konto."
    | NichtBestaetigt          // the overdraft question answered with no
    | UngueltigerBetrag        // an amount that is not positive

  /** `Double.parseDouble` on the amount field, which ignores surrounding
      blanks as `String.trim` does. */
  function ParseBetrag(text: string): Option<real>
  {
    ParseDecimal(Trim(text))
  }

  // ---------------------------------------------------------------------------
  // The steps of ueberweisen

  /** setKontostand on the account at r; nothing else changes. */
  function SetBalance(m: BankManagementSystem, r: KontoRef, v: real): (m2: BankManagementSystem)
    requires ValidRef(m, r)
    ensures SameShape(m, m2)
    ensures KontoAt(m2, r) == KontoAt(m, r).(kontostand := v)
    ensures forall q :: ValidRef(m, q) && q != r ==> KontoAt(m2, q) == KontoAt(m, q)
  {
    UpdateBank(m, r.bank, SetKontostand(m.banks[r.bank], r.slot, v))
  }

  /** The recipient: getBankByBLZ, and only when a bank is found
      Integer.parseInt of the account number and getKontoByKontonummer. A
      missing bank or account is reported as not existing. The place found
      holds exactly the objects the two lookups return. */
  function Empfaenger(m: BankManagementSystem, blz: string, kontonummer: string): (r: Result<KontoRef, UeberweisungFehler>)
    ensures r.Ok? ==> ValidRef(m, r.value)
    ensures r.Ok? ==> GetBankByBLZ(m, blz) == Some(m.banks[r.value.bank]) &&
                      ParseInt(kontonummer).Some? &&
                      GetKontoByKontonummer(m.banks[r.value.bank], ParseInt(kontonummer).value) == Some(KontoAt(m, r.value))
    ensures r == Err(KontonummerKeineZahl) <==> GetBankByBLZ(m, blz).Some? && ParseInt(kontonummer).None?
    ensures r == Err(EmpfaengerExistiertNicht) <==>
              GetBankByBLZ(m, blz).None? ||
              (ParseInt(kontonummer).Some? &&
               GetKontoByKontonummer(GetBankByBLZ(m, blz).value, ParseInt(kontonummer).value).None?)
    ensures r.Ok? || r == Err(KontonummerKeineZahl) || r == Err(EmpfaengerExistiertNicht)
  {
    match BankIndex(m.banks, blz)
    case None => Err(EmpfaengerExistiertNicht)
    case Some(i) =>
      match ParseInt(kontonummer)
      case None => Err(KontonummerKeineZahl)
      case Some(n) =>
        match KontoIndex(m.banks[i].konten, n)
        case None => Err(EmpfaengerExistiertNicht)
        case Some(j) => Ok(KontoRef(i, j))
  }

  /** What the cover check decides: enough balance, an overdraft the
      Girokonto's limit allows (to be confirmed), or neither. */
  datatype Deckung = Gedeckt | Ueberziehbar | Ungedeckt

  /** The cover check. It agrees with what auszahlen lets go (Verfuegbar)
      for every Sparkonto and for every Girokonto with a limit that is not
      negative. */
  function Pruefe(k: Konto, betrag: real): (d: Deckung)
    ensures d == Gedeckt <==> betrag <= k.kontostand
    ensures d == Ueberziehbar ==> k.art.Girokonto? && betrag <= Verfuegbar(k)
    ensures k.art.Sparkonto? ==> (d != Ungedeckt <==> betrag <= Verfuegbar(k))
    ensures k.art.Girokonto? && k.art.ueberziehungsbetrag >= 0.0 ==>
              (d != Ungedeckt <==> betrag <= Verfuegbar(k))
  {
    if !(k.kontostand < betrag) then Gedeckt
    else if k.art.Girokonto? && k.art.ueberziehungsbetrag >= betrag - k.kontostand then Ueberziehbar
    else Ungedeckt
  }

  /** The two balance updates: the sender's balance minus the amount,
      rounded; then the recipient's balance as it is now plus the amount,
      rounded. Reading the recipient after the sender's update matters when
      both are the same account. Every other account is untouched, each
      balance that changes has five decimals, and for two different
      accounts their sum moves by at most two rounding errors. */
  function Buchen(m: BankManagementSystem, s: KontoRef, z: KontoRef, betrag: real): (r: BankManagementSystem)
    requires ValidRef(m, s) && ValidRef(m, z)
    ensures SameShape(m, r)
    ensures forall q :: ValidRef(m, q) && q != s && q != z ==> KontoAt(r, q) == KontoAt(m, q)
    ensures HasFiveDecimals(KontoAt(r, s).kontostand) && HasFiveDecimals(KontoAt(r, z).kontostand)
    ensures s != z ==>
              KontoAt(r, s).kontostand - Half <= KontoAt(m, s).kontostand - betrag < KontoAt(r, s).kontostand + Half &&
              KontoAt(r, z).kontostand - Half <= KontoAt(m, z).kontostand + betrag < KontoAt(r, z).kontostand + Half
    ensures s != z ==>
              KontoAt(m, s).kontostand + KontoAt(m, z).kontostand - 2.0 * Half
                < KontoAt(r, s).kontostand + KontoAt(r, z).kontostand
                <= KontoAt(m, s).kontostand + KontoAt(m, z).kontostand + 2.0 * Half
    ensures s == z ==>
              KontoAt(r, s).kontostand == Round5(Round5(KontoAt(m, s).kontostand - betrag) + betrag)
  {
    var m1 := SetBalance(m, s, Round5(KontoAt(m, s).kontostand - betrag));
    SetBalance(m1, z, Round5(KontoAt(m1, z).kontostand + betrag))
  }

  /** ueberweisen: the amount is parsed first, then the recipient looked up,
      then the cover checked; an overdraft goes ahead only when confirmed.
      Any failure leaves the management system as it was. */
  function Ueberweisen(m: BankManagementSystem, sender: KontoRef, blz: string, kontonummer: string,
                       betragText: string, bestaetigt: bool): (r: Result<BankManagementSystem, UeberweisungFehler>)
    requires ValidRef(m, sender)
    ensures r == Err(BetragKeineZahl) <==> ParseBetrag(betragText).None?
    ensures ParseBetrag(betragText).Some? ==>
              (r.Ok? <==> Empfaenger(m, blz, kontonummer).Ok? &&
                          (Pruefe(KontoAt(m, sender), ParseBetrag(betragText).value) == Gedeckt ||
                           (Pruefe(KontoAt(m, sender), ParseBetrag(betragText).value) == Ueberziehbar && bestaetigt)))
    ensures r == Err(KontonummerKeineZahl) || r == Err(EmpfaengerExistiertNicht) <==>
              ParseBetrag(betragText).Some? && Empfaenger(m, blz, kontonummer).Err?
    ensures r == Err(NichtGenugGeld) <==>
              ParseBetrag(betragText).Some? && Empfaenger(m, blz, kontonummer).Ok? &&
              Pruefe(KontoAt(m, sender), ParseBetrag(betragText).value) == Ungedeckt
    ensures r == Err(NichtBestaetigt) <==>
              ParseBetrag(betragText).Some? && Empfaenger(m, blz, kontonummer).Ok? &&
              Pruefe(KontoAt(m, sender), ParseBetrag(betragText).value) == Ueberziehbar && !bestaetigt
    ensures r.Ok? ==> r.value == Buchen(m, sender, Empfaenger(m, blz, kontonummer).value, ParseBetrag(betragText).value)
  {
    match ParseBetrag(betragText)
    case None => Err(BetragKeineZahl)
    case Some(betrag) =>
      match Empfaenger(m, blz, kontonummer)
      case Err(e) => Err(e)
      case Ok(ziel) =>
        match Pruefe(KontoAt(m, sender), betrag)
        case Ungedeckt => Err(NichtGenugGeld)
        case Ueberziehbar => if bestaetigt then Ok(Buchen(m, sender, ziel, betrag)) else Err(NichtBestaetigt)
        case Gedeckt => Ok(Buchen(m, sender, ziel, betrag))
  }

  // ---------------------------------------------------------------------------
  // Properties

  /** A transfer between two different accounts is auszahlen on the sender
      followed by einzahlen on the recipient: whenever the cover check lets
      it through, the withdrawal would have been allowed, and both accounts
      end as those two operations leave them. */
  lemma BuchenIstAuszahlenEinzahlen(m: BankManagementSystem, s: KontoRef, z: KontoRef, betrag: real)
    requires ValidRef(m, s) && ValidRef(m, z) && s != z
    requires KontoAt(m, s).art.Girokonto? ==> KontoAt(m, s).art.ueberziehungsbetrag >= 0.0
    requires Pruefe(KontoAt(m, s), betrag) != Ungedeckt
    ensures Auszahlen(KontoAt(m, s), betrag).Ok?
    ensures KontoAt(Buchen(m, s, z, betrag), s) == Auszahlen(KontoAt(m, s), betrag).value
    ensures KontoAt(Buchen(m, s, z, betrag), z) == Einzahlen(KontoAt(m, z), betrag)
  {
    var m1 := SetBalance(m, s, Round5(KontoAt(m, s).kontostand - betrag));
    assert KontoAt(m1, z) == KontoAt(m, z);
  }

  /** With five-decimal balances and amount, a transfer between two
      different accounts keeps the sum of the two balances exactly. */
  lemma BuchenErhaeltSumme(m: BankManagementSystem, s: KontoRef, z: KontoRef, betrag: real)
    requires ValidRef(m, s) && ValidRef(m, z) && s != z
    requires HasFiveDecimals(KontoAt(m, s).kontostand) && HasFiveDecimals(KontoAt(m, z).kontostand)
    requires HasFiveDecimals(betrag)
    ensures KontoAt(Buchen(m, s, z, betrag), s).kontostand + KontoAt(Buchen(m, s, z, betrag), z).kontostand
         == KontoAt(m, s).kontostand + KontoAt(m, z).kontostand
  {
    var b := KontoAt(m, s).kontostand;
    var c := KontoAt(m, z).kontostand;
    FiveDecimalsClosed(b, betrag);
    FiveDecimalsClosed(c, betrag);
    var r := Buchen(m, s, z, betrag);
    Round5Unique(b - betrag, KontoAt(r, s).kontostand);
    Round5Unique(b - betrag, b - betrag);
    Round5Unique(c + betrag, KontoAt(r, z).kontostand);
    Round5Unique(c + betrag, c + betrag);
  }

  /** A transfer to oneself with a five-decimal balance and amount changes
      nothing: the balance goes down and comes back. */
  lemma SelbstUeberweisung(m: BankManagementSystem, s: KontoRef, betrag: real)
    requires ValidRef(m, s)
    requires HasFiveDecimals(KontoAt(m, s).kontostand) && HasFiveDecimals(betrag)
    ensures Buchen(m, s, s, betrag) == m
  {
    var b := KontoAt(m, s).kontostand;
    FiveDecimalsClosed(b, betrag);
    Round5Exact(b - betrag);
    FiveDecimalsClosed(b - betrag, betrag);
    assert b - betrag + betrag == b;
    Round5Exact(b);
    var m1 := SetBalance(m, s, b - betrag);
    var m2 := SetBalance(m1, s, b);
    assert m2.banks[s.bank].konten == m.banks[s.bank].konten;
    assert m2.banks[s.bank] == m.banks[s.bank];
    assert m2.banks == m.banks;
  }

  /** After a transfer the cover check let through, to another account, a
      Sparkonto sender is never below zero and a Girokonto sender never
      below minus its (not negative) limit. */
  lemma BuchenUeberziehtNie(m: BankManagementSystem, s: KontoRef, z: KontoRef, betrag: real)
    requires ValidRef(m, s) && ValidRef(m, z) && s != z
    requires Pruefe(KontoAt(m, s), betrag) != Ungedeckt
    ensures KontoAt(m, s).art.Sparkonto? ==> KontoAt(Buchen(m, s, z, betrag), s).kontostand >= 0.0
    ensures KontoAt(m, s).art.Girokonto? && KontoAt(m, s).art.ueberziehungsbetrag >= 0.0 &&
            HasFiveDecimals(KontoAt(m, s).art.ueberziehungsbetrag) ==>
              KontoAt(Buchen(m, s, z, betrag), s).kontostand >= -KontoAt(m, s).art.ueberziehungsbetrag
  {
    var k := KontoAt(m, s);
    var m1 := SetBalance(m, s, Round5(k.kontostand - betrag));
    assert KontoAt(Buchen(m, s, z, betrag), s).kontostand == Round5(k.kontostand - betrag);
    if k.art.Sparkonto? {
      Round5Monotonic(0.0, k.kontostand - betrag);
      assert HasFiveDecimals(0.0) by { IntegerHasFiveDecimals(0); }
      Round5Exact(0.0);
    }
    if k.art.Girokonto? && k.art.ueberziehungsbetrag >= 0.0 && HasFiveDecimals(k.art.ueberziehungsbetrag) {
      var limit := k.art.ueberziehungsbetrag;
      Round5Monotonic(-limit, k.kontostand - betrag);
      FiveDecimalsClosed(limit, limit);
      Round5Exact(-limit);
    }
  }

  /** Only balances change, so a transfer keeps a ledger well formed. */
  lemma SameShapeWellFormed(m: BankManagementSystem, m2: BankManagementSystem)
    requires SameShape(m, m2) && WellFormed(m)
    ensures WellFormed(m2)
  {
    forall i | 0 <= i < |m2.banks|
      ensures BankWellFormed(m2.banks[i])
    {
      assert BankWellFormed(m.banks[i]);
      assert forall j :: 0 <= j < |m.banks[i].konten| ==>
               m2.banks[i].konten[j].kontonummer == m.banks[i].konten[j].kontonummer &&
               m2.banks[i].konten[j].inhaber == m.banks[i].konten[j].inhaber &&
               m2.banks[i].konten[j].bank == m.banks[i].konten[j].bank;
    }
  }

  /** A transfer keeps what the strict importer guarantees, and what the
      lenient importer guarantees (all balances with five decimals
      included). */
  lemma BuchenErhaeltInvarianten(m: BankManagementSystem, s: KontoRef, z: KontoRef, betrag: real)
    requires ValidRef(m, s) && ValidRef(m, z)
    ensures WellFormed(m) ==> WellFormed(Buchen(m, s, z, betrag))
    ensures LenientImport.LenientInvariant(m) ==> LenientImport.LenientInvariant(Buchen(m, s, z, betrag))
  {
    var r := Buchen(m, s, z, betrag);
    if WellFormed(m) {
      SameShapeWellFormed(m, r);
    }
    if LenientImport.LenientInvariant(m) {
      forall i | 0 <= i < |r.banks|
        ensures Keyed(r.banks[i]) && ConsistentOwners(r.banks[i]) && LenientImport.Rounded(r.banks[i])
      {
        forall j | 0 <= j < |r.banks[i].konten|
          ensures HasFiveDecimals(r.banks[i].konten[j].kontostand)
        {
          var q := KontoRef(i, j);
          assert ValidRef(m, q);
          if q != s && q != z {
            assert KontoAt(r, q) == KontoAt(m, q);
          }
        }
      }
    }
  }

  // ---------------------------------------------------------------------------
  // The amount field accepts negative numbers

  /** As written, a negative amount passes the cover check of any sender
      whose balance is at least that amount, and the booking then takes
      money from the recipient and gives it to the sender. */
  lemma NegativerBetragBelastetEmpfaenger(m: BankManagementSystem, s: KontoRef, z: KontoRef, betrag: real)
    requires ValidRef(m, s) && ValidRef(m, z) && s != z
    requires betrag < 0.0 && HasFiveDecimals(betrag)
    requires betrag <= KontoAt(m, s).kontostand
    requires HasFiveDecimals(KontoAt(m, s).kontostand) && HasFiveDecimals(KontoAt(m, z).kontostand)
    ensures Pruefe(KontoAt(m, s), betrag) == Gedeckt
    ensures KontoAt(Buchen(m, s, z, betrag), z).kontostand < KontoAt(m, z).kontostand
    ensures KontoAt(Buchen(m, s, z, betrag), s).kontostand > KontoAt(m, s).kontostand
  {
    var b := KontoAt(m, s).kontostand;
    var c := KontoAt(m, z).kontostand;
    var m1 := SetBalance(m, s, Round5(b - betrag));
    assert KontoAt(m1, z) == KontoAt(m, z);
    assert KontoAt(Buchen(m, s, z, betrag), z).kontostand == Round5(c + betrag);
    assert KontoAt(Buchen(m, s, z, betrag), s).kontostand == Round5(b - betrag);
    FiveDecimalsClosed(c, betrag);
    Round5Exact(c + betrag);
    FiveDecimalsClosed(b, betrag);
    Round5Exact(b - betrag);
  }

  /** The text "-50.00" is an amount the field lets through: it reads as -50. */
  lemma MinusFuenfzigLesbar()
    ensures ParseBetrag("-50.00") == Some(-50.0)
  {
    FuenfzigWert();
    assert "-50.00" == "-" + ("50" + "." + "00");
    NegativeBetrag("50", "00");
  }

  /** "50" with fraction "00" is the value 50. */
  lemma FuenfzigWert()
    ensures DecimalValue("50", "00") == 50.0
  {
    assert "5"[..0] == "" && "50"[..1] == "5" && "0"[..0] == "" && "00"[..1] == "0";
    assert DigitsValue("5") == 5 && DigitsValue("0") == 0;
    assert DigitsValue("50") == 50 && DigitsValue("00") == 0;
  }

  /** Every minus sign followed by a decimal with digits after the point is
      an amount the field lets through, and it reads as that negative value. */
  lemma NegativeBetrag(whole: string, frac: string)
    requires |whole| >= 1 && |frac| >= 1 && AllDigits(whole) && AllDigits(frac)
    ensures ParseBetrag("-" + (whole + "." + frac)) == Some(-DecimalValue(whole, frac))
  {
    var s := "-" + (whole + "." + frac);
    assert s[|s| - 1] == frac[|frac| - 1];
    TrimUntouched(s);
    ParseDecimalNegative(whole, frac);
  }

  /** A bank "1" in which account 1 (the sender, a Sparkonto with nothing
      on it) sends "-50.00" to account 2, which holds 100. */
  function Beispiel(): BankManagementSystem
  {
    var p := TestInhaber();
    BankManagementSystem([Bank("1", "Testbank", [
      Konto(1, 1111, 0.0, p, "1", Sparkonto(0.0)),
      Konto(2, 2222, 100.0, p, "1", Sparkonto(0.0))])])
  }

  /** The concrete case: the transfer goes through, the recipient is left
      with 50 and the sender with 50 it never had. */
  lemma NegativerBetragBeispiel()
    ensures Ueberweisen(Beispiel(), KontoRef(0, 0), "1", "2", "-50.00", false).Ok?
    ensures KontoAt(Ueberweisen(Beispiel(), KontoRef(0, 0), "1", "2", "-50.00", false).value, KontoRef(0, 1)).kontostand == 50.0
    ensures KontoAt(Ueberweisen(Beispiel(), KontoRef(0, 0), "1", "2", "-50.00", false).value, KontoRef(0, 0)).kontostand == 50.0
  {
    MinusFuenfzigLesbar();
    BeispielEmpfaenger();
    assert Pruefe(KontoAt(Beispiel(), KontoRef(0, 0)), -50.0) == Gedeckt;
    BeispielBuchung();
  }

  /** Bank "1", account "2" of the example is its second account. */
  lemma BeispielEmpfaenger()
    ensures Empfaenger(Beispiel(), "1", "2") == Ok(KontoRef(0, 1))
  {
    var m := Beispiel();
    assert ParseInt("2") == Some(2) by {
      ParseFormatInt(2);
      assert FormatInt(2) == "2";
    }
    assert BankIndex(m.banks, "1") == Some(0);
    assert KontoIndex(m.banks[0].konten, 2) == Some(1);
  }

  /** Booking -50 from account 1 to account 2 of the example leaves 50 on
      both. */
  lemma BeispielBuchung()
    ensures KontoAt(Buchen(Beispiel(), KontoRef(0, 0), KontoRef(0, 1), -50.0), KontoRef(0, 1)).kontostand == 50.0
    ensures KontoAt(Buchen(Beispiel(), KontoRef(0, 0), KontoRef(0, 1), -50.0), KontoRef(0, 0)).kontostand == 50.0
  {
    var m := Beispiel();
    var s := KontoRef(0, 0);
    var z := KontoRef(0, 1);
    IntegerHasFiveDecimals(50);
    Round5Exact(50.0);
    var m1 := SetBalance(m, s, Round5(0.0 - -50.0));
    assert KontoAt(m1, z) == KontoAt(m, z);
    assert KontoAt(m1, z).kontostand + -50.0 == 50.0;
  }

  /** ueberweisen as evidently intended: an amount that is not positive is
      refused right after parsing, as the deposit dialog does. Otherwise it
      is the controller's transfer. */
  function UeberweisenGeprueft(m: BankManagementSystem, sender: KontoRef, blz: string, kontonummer: string,
                               betragText: string, bestaetigt: bool): (r: Result<BankManagementSystem, UeberweisungFehler>)
    requires ValidRef(m, sender)
    ensures r == Err(UngueltigerBetrag) <==> ParseBetrag(betragText).Some? && ParseBetrag(betragText).value <= 0.0
    ensures r.Ok? <==> Ueberweisen(m, sender, blz, kontonummer, betragText, bestaetigt).Ok? && ParseBetrag(betragText).value > 0.0
    ensures r.Ok? ==> r == Ueberweisen(m, sender, blz, kontonummer, betragText, bestaetigt)
  {
    match ParseBetrag(betragText)
    case None => Err(BetragKeineZahl)
    case Some(betrag) =>
      if betrag <= 0.0 then Err(UngueltigerBetrag)
      else Ueberweisen(m, sender, blz, kontonummer, betragText, bestaetigt)
  }

  /** With the check in place, a transfer between two different accounts
      with five-decimal balances never lowers the recipient's balance and
      never raises the sender's. */
  lemma GeprueftNimmtNichts(m: BankManagementSystem, sender: KontoRef, blz: string,
                            kontonummer: string, betragText: string, bestaetigt: bool, betrag: real, z: KontoRef)
    requires ValidRef(m, sender)
    requires ParseBetrag(betragText) == Some(betrag) && Empfaenger(m, blz, kontonummer) == Ok(z)
    requires UeberweisenGeprueft(m, sender, blz, kontonummer, betragText, bestaetigt).Ok?
    requires z != sender
    requires HasFiveDecimals(KontoAt(m, sender).kontostand) && HasFiveDecimals(KontoAt(m, z).kontostand)
    ensures KontoAt(UeberweisenGeprueft(m, sender, blz, kontonummer, betragText, bestaetigt).value, sender).kontostand
         <= KontoAt(m, sender).kontostand
    ensures KontoAt(UeberweisenGeprueft(m, sender, blz, kontonummer, betragText, bestaetigt).value, z).kontostand
         >= KontoAt(m, z).kontostand
  {
    assert betrag > 0.0;
    assert UeberweisenGeprueft(m, sender, blz, kontonummer, betragText, bestaetigt).value == Buchen(m, sender, z, betrag);
    BuchenPositiv(m, sender, z, betrag);
  }

  lemma BuchenPositiv(m: BankManagementSystem, s: KontoRef, z: KontoRef, betrag: real)
    requires ValidRef(m, s) && ValidRef(m, z) && s != z && betrag > 0.0
    requires HasFiveDecimals(KontoAt(m, s).kontostand) && HasFiveDecimals(KontoAt(m, z).kontostand)
    ensures KontoAt(Buchen(m, s, z, betrag), s).kontostand <= KontoAt(m, s).kontostand
    ensures KontoAt(Buchen(m, s, z, betrag), z).kontostand >= KontoAt(m, z).kontostand
  {
    var b := KontoAt(m, s).kontostand;
    var c := KontoAt(m, z).kontostand;
    var m1 := SetBalance(m, s, Round5(b - betrag));
    assert KontoAt(m1, z) == KontoAt(m, z);
    assert KontoAt(Buchen(m, s, z, betrag), s).kontostand == Round5(b - betrag);
    assert KontoAt(Buchen(m, s, z, betrag), z).kontostand == Round5(c + betrag);
    Round5Monotonic(b - betrag, b);
    Round5Exact(b);
    Round5Monotonic(c, c + betrag);
    Round5Exact(c);
  }
}
