/** Accounts: the abstract Konto
    (Geldautomat/src/main/java/com/geldautomat/model/Konto.java) with its two
    variants, Girokonto (src/main/java/com/geldautomat/model/Girokonto.java)
    and Sparkonto (src/main/java/com/geldautomat/model/Sparkonto.java), as one
    datatype with a kind tag. A failed withdrawal returns an error and no new
    account, so the caller's account is the state after the failure. */
module Accounts {
  import opened Money
  import opened Wrappers
  import Holders

  /** The variant and its extra field. `zins` is used as a percentage by
      BerechneZins. */
  datatype Art = Girokonto(ueberziehungsbetrag: real) | Sparkonto(zins: real)

  /** An account. `inhaber` is the holder's personal data and `bank` the BLZ
      of the bank that keeps the account, standing for the object references
      of the source. The constructor and `setKontostand` store the balance as
      given, without rounding. */
  datatype Konto = Konto(kontonummer: int, pin: int, kontostand: real,
                         inhaber: Holders.Person, bank: string, art: Art)

  /** The one failure of `auszahlen`: "Kontostand zu niedrig". */
  datatype Fehler = KontostandZuNiedrig

  /** istKontoüberzogen. */
  predicate IstUeberzogen(k: Konto)
  {
    k.kontostand < 0.0
  }

  /** checkPassword: exact comparison with the stored pin. */
  predicate CheckPassword(k: Konto, pin: int)
  {
    pin == k.pin
  }

  /** How much `auszahlen` lets go: the balance plus the overdraft limit for a
      Girokonto, the balance alone for a Sparkonto. */
  function Verfuegbar(k: Konto): real
  {
    match k.art
    case Girokonto(limit) => k.kontostand + limit
    case Sparkonto(_) => k.kontostand
  }

  /** einzahlen: the balance becomes the five-decimal rounding of the old
      balance plus the amount, whatever its sign; nothing else changes. */
  function Einzahlen(k: Konto, betrag: real): (r: Konto)
    ensures r == k.(kontostand := r.kontostand)
    ensures HasFiveDecimals(r.kontostand)
    ensures r.kontostand - Half <= k.kontostand + betrag < r.kontostand + Half
  {
    k.(kontostand := Round5(k.kontostand + betrag))
  }

  /** auszahlen of either variant: succeeds exactly when the amount is at most
      what is available (boundary included) and then leaves the rounding of
      balance minus amount; otherwise fails with KontostandZuNiedrig. Only the
      balance ever changes. */
  function Auszahlen(k: Konto, betrag: real): (r: Result<Konto, Fehler>)
    ensures r.Ok? <==> betrag <= Verfuegbar(k)
    ensures r.Err? ==> r.error == KontostandZuNiedrig
    ensures r.Ok? ==> r.value == k.(kontostand := r.value.kontostand)
    ensures r.Ok? ==> HasFiveDecimals(r.value.kontostand)
    ensures r.Ok? ==> r.value.kontostand - Half <= k.kontostand - betrag < r.value.kontostand + Half
  {
    if betrag <= Verfuegbar(k) then Ok(k.(kontostand := Round5(k.kontostand - betrag)))
    else Err(KontostandZuNiedrig)
  }

  /** The interest berechneZins credits: the balance times the rate read as
      a percentage. */
  function Zinsbetrag(kontostand: real, zins: real): (z: real)
    ensures kontostand >= 0.0 && zins >= 0.0 ==> z >= 0.0
  {
    kontostand * (zins / 100.0)
  }

  /** berechneZins: deposits the interest through einzahlen, so only the
      balance changes and it is rounded to five decimals. */
  function BerechneZins(k: Konto): (r: Konto)
    requires k.art.Sparkonto?
    ensures r == k.(kontostand := r.kontostand)
    ensures HasFiveDecimals(r.kontostand)
    ensures r.kontostand - Half <= k.kontostand + Zinsbetrag(k.kontostand, k.art.zins) < r.kontostand + Half
  {
    Einzahlen(k, Zinsbetrag(k.kontostand, k.art.zins))
  }

  // ---------------------------------------------------------------------------
  // Properties

  /** A deposit of 0 on a five-decimal balance changes nothing. */
  lemma EinzahlenZeroNoOp(k: Konto)
    requires HasFiveDecimals(k.kontostand)
    ensures Einzahlen(k, 0.0) == k
  {
    Round5Exact(k.kontostand);
  }

  /** Withdrawing what was just deposited restores the account, as long as it
      had not been overdrawn past its availability. */
  lemma EinzahlenAuszahlen(k: Konto, betrag: real)
    requires HasFiveDecimals(k.kontostand) && HasFiveDecimals(betrag)
    requires Verfuegbar(k) >= 0.0
    ensures Auszahlen(Einzahlen(k, betrag), betrag) == Ok(k)
  {
    FiveDecimalsClosed(k.kontostand, betrag);
    Round5Exact(k.kontostand + betrag);
    Round5Exact(k.kontostand);
    assert k.kontostand + betrag - betrag == k.kontostand;
  }

  /** Depositing what was just withdrawn restores the account. */
  lemma AuszahlenEinzahlen(k: Konto, betrag: real)
    requires HasFiveDecimals(k.kontostand) && HasFiveDecimals(betrag)
    requires Auszahlen(k, betrag).Ok?
    ensures Einzahlen(Auszahlen(k, betrag).value, betrag) == k
  {
    FiveDecimalsClosed(k.kontostand, betrag);
    Round5Exact(k.kontostand - betrag);
    Round5Exact(k.kontostand);
    assert k.kontostand - betrag + betrag == k.kontostand;
  }

  /** A Girokonto whose limit has five decimals never ends a withdrawal below
      minus its limit. */
  lemma GirokontoWithinLimit(k: Konto, betrag: real)
    requires k.art.Girokonto? && HasFiveDecimals(k.art.ueberziehungsbetrag)
    requires Auszahlen(k, betrag).Ok?
    ensures Auszahlen(k, betrag).value.kontostand >= -k.art.ueberziehungsbetrag
  {
    var limit := k.art.ueberziehungsbetrag;
    FiveDecimalsClosed(limit, limit);
    Round5Monotonic(-limit, k.kontostand - betrag);
    Round5Exact(-limit);
  }

  /** A withdrawal never overdraws a Sparkonto: the balance stays at or above
      zero and the account is not overdrawn afterwards. */
  lemma SparkontoNeverOverdrawn(k: Konto, betrag: real)
    requires k.art.Sparkonto?
    requires Auszahlen(k, betrag).Ok?
    ensures Auszahlen(k, betrag).value.kontostand >= 0.0
    ensures !IstUeberzogen(Auszahlen(k, betrag).value)
  {
    Round5Monotonic(0.0, k.kontostand - betrag);
    IntegerHasFiveDecimals(0);
    Round5Exact(0.0);
  }

  /** With a non-negative rate a non-negative five-decimal balance never
      shrinks under berechneZins. */
  lemma BerechneZinsGrows(k: Konto)
    requires k.art.Sparkonto? && k.art.zins >= 0.0
    requires k.kontostand >= 0.0 && HasFiveDecimals(k.kontostand)
    ensures BerechneZins(k).kontostand >= k.kontostand
  {
    var b := k.kontostand;
    Round5Monotonic(b, b + Zinsbetrag(b, k.art.zins));
    Round5Exact(b);
  }

  /** Deposits, withdrawals and interest never touch the pin: a number
      opens the account after any of them exactly when it did before. */
  lemma PinSurvives(k: Konto, betrag: real, pin: int)
    ensures CheckPassword(Einzahlen(k, betrag), pin) <==> CheckPassword(k, pin)
    ensures Auszahlen(k, betrag).Ok? ==> (CheckPassword(Auszahlen(k, betrag).value, pin) <==> CheckPassword(k, pin))
    ensures k.art.Sparkonto? ==> (CheckPassword(BerechneZins(k), pin) <==> CheckPassword(k, pin))
  {
  }

  // ---------------------------------------------------------------------------
  // The unit tests GirokontoTest and SparkontoTest, and the boundary cases

  function TestInhaber(): Holders.Person
  {
    Holders.Person(123456, "Mustermann", "Max", "Bahnhofstra\U{00DF}e 1", "68159", "Mannheim")
  }

  function TestGiro(): Konto
  {
    Konto(4711, 1234, 100.0, TestInhaber(), "MA2424", Girokonto(1000.0))
  }

  function TestSpar(): Konto
  {
    Konto(4711, 1234, 100.0, TestInhaber(), "MA2424", Sparkonto(3.0))
  }

  lemma RoundWhole(n: int)
    ensures Round5(n as real) == n as real
  {
    IntegerHasFiveDecimals(n);
    Round5Exact(n as real);
  }

  /** Girokonto 100 with limit 1000: depositing 50 gives 150; withdrawing 500
      gives -400 and an overdrawn account; 1500 is refused; exactly 1100 is
      allowed and gives -1000, while 1100.01 is refused. */
  lemma GirokontoTests()
    ensures Einzahlen(TestGiro(), 50.0).kontostand == 150.0
    ensures !IstUeberzogen(TestGiro())
    ensures Auszahlen(TestGiro(), 500.0) == Ok(TestGiro().(kontostand := -400.0))
    ensures IstUeberzogen(Auszahlen(TestGiro(), 500.0).value)
    ensures Auszahlen(TestGiro(), 1500.0) == Err(KontostandZuNiedrig)
    ensures Auszahlen(TestGiro(), 1100.0) == Ok(TestGiro().(kontostand := -1000.0))
    ensures Auszahlen(TestGiro(), 1100.01).Err?
  {
    RoundWhole(150);
    RoundWhole(-400);
    RoundWhole(-1000);
    RoundWhole(0);
  }

  /** Sparkonto 100: depositing 50 gives 150; withdrawing 100 gives 0 and
      100.01 or 1500 is refused; with zins 3.0 the interest step gives 103. */
  lemma SparkontoTests()
    ensures Einzahlen(TestSpar(), 50.0).kontostand == 150.0
    ensures Auszahlen(TestSpar(), 100.0) == Ok(TestSpar().(kontostand := 0.0))
    ensures Auszahlen(TestSpar(), 100.01).Err?
    ensures Auszahlen(TestSpar(), 1500.0) == Err(KontostandZuNiedrig)
    ensures Auszahlen(TestSpar(), 50.0).Ok?
    ensures BerechneZins(TestSpar()).kontostand == 103.0
  {
    RoundWhole(150);
    RoundWhole(0);
    RoundWhole(50);
    RoundWhole(-1400);
    RoundWhole(103);
  }

  /** The importers store "3%" as 0.03, but berechneZins divides by 100 once
      more, so such an account earns 0.03% per call: 100 becomes 100.03. */
  lemma ImportedRateEarnsHundredth()
    ensures BerechneZins(TestSpar().(art := Sparkonto(0.03))).kontostand == 100.03
  {
    assert 100.0 + 100.0 * (0.03 / 100.0) == 100.03;
    assert HasFiveDecimals(100.03) by {
      assert 100.03 * 100000.0 == 10003000 as real;
    }
    Round5Exact(100.03);
  }
}
