/** The strict importer, src/main/java/com/geldautomat/util/CSVImporter.java:
    every data line must have fourteen columns, parse, agree with what earlier
    lines said about its bank and its customer, bring a new account number
    and name a known account kind; the first line that does not ends the
    import with an error naming that line. The file is a sequence of lines,
    the first of which is the header. */
module StrictImport {
  import opened Wrappers
  import opened JavaText
  import Holders
  import opened Accounts
  import opened Banks
  import opened Registry
  import opened CsvRows
  import opened Ledger

  /** One parsed line against the ledger read so far: the bank (created if
      its BLZ is new, otherwise its name must match), then the account. */
  function StrictApply(m: BankManagementSystem, z: Zeile, feld: ArtFeld, zeile: nat): Result<BankManagementSystem, ImportFehler>
  {
    match BankIndex(m.banks, z.blz)
    case None => StrictAccount(AddBank(m, Bank(z.blz, z.bankName, [])), |m.banks|, z, feld, zeile)
    case Some(i) =>
      if m.banks[i].name != z.bankName then
        Err(InkonsistenterBankname(z.blz, z.bankName, m.banks[i].name, zeile))
      else StrictAccount(m, i, z, feld, zeile)
  }

  /** The account part of a line, in the source's order: a known customer
      must bring the same personal data, the number must be new to the bank,
      the kind must be known and its field must parse. The new account's
      holder is the known customer if there is one. The two lookups are
      findKundenByKundennummer and getKontoByKontonummer, taken by position. */
  function StrictAccount(m: BankManagementSystem, i: nat, z: Zeile, feld: ArtFeld, zeile: nat): Result<BankManagementSystem, ImportFehler>
    requires i < |m.banks|
  {
    var b := m.banks[i];
    var kn := z.person.kundennummer;
    var known := KundeIndex(b.konten, kn);
    if known.Some? && !Holders.SamePersonalData(b.konten[known.value].inhaber, z.person) then
      Err(InkonsistenteKundendaten(kn, b.blz, b.konten[known.value].inhaber, z.person, zeile))
    else if KontoIndex(b.konten, z.kontonummer).Some? then
      Err(DoppelteKontonummer(b.blz, z.kontonummer, zeile))
    else
      match feld
      case UnbekannteArt => Err(UnbekannteKontoart(zeile))
      case FeldUnlesbar => Err(ParseFehler(zeile))
      case Bekannt(art) =>
        var inhaber := if known.Some? then b.konten[known.value].inhaber else z.person;
        Ok(UpdateBank(m, i, AddKonto(b, KontoOf(z, z.kontostand, inhaber, art))))
  }

  /** One line of the file: too few columns, a number that does not parse,
      or the checks of StrictApply. The kind-specific field was read with the
      rest of the line; that it is looked at only after the ledger checks is
      kept by the order of StrictAccount's cases. */
  function StrictRow(m: BankManagementSystem, g: Gelesen, zeile: nat): Result<BankManagementSystem, ImportFehler>
  {
    match g
    case ZuKurz => Err(UngueltigesFormat(zeile))
    case Unlesbar => Err(ParseFehler(zeile))
    case Gelesen(z, feld) => StrictApply(m, z, feld, zeile)
  }

  /** The ledger after lines 1..k (line 1 is the header and is skipped), or
      the first error; rows[i] is line i + 1. */
  function StrictUpTo(rows: seq<Gelesen>, k: nat): Result<BankManagementSystem, ImportFehler>
    requires k <= |rows|
    decreases k, 1
  {
    if k <= 1 then Ok(Empty()) else StrictLine(rows, k)
  }

  /** Line k read after lines 1..k-1: the first error stays. */
  function StrictLine(rows: seq<Gelesen>, k: nat): Result<BankManagementSystem, ImportFehler>
    requires 2 <= k <= |rows|
    decreases k, 0
  {
    match StrictUpTo(rows, k - 1)
    case Err(e) => Err(e)
    case Ok(m) => StrictRow(m, rows[k - 1], k)
  }

  /** loadFromCSV: the whole file. */
  function StrictLoad(lines: seq<string>): Result<BankManagementSystem, ImportFehler>
  {
    StrictUpTo(ReadAll(lines), |lines|)
  }

  // ---------------------------------------------------------------------------
  // What a line needs of the ledger before it

  /** The line number an error names. */
  function ErrZeile(e: ImportFehler): nat
  {
    match e
    case UngueltigesFormat(n) => n
    case ParseFehler(n) => n
    case InkonsistenterBankname(_, _, _, n) => n
    case InkonsistenteKundendaten(_, _, _, _, n) => n
    case DoppelteKontonummer(_, _, n) => n
    case UnbekannteKontoart(n) => n
    case NumberFormat => 0
    case NullPointer => 0
  }

  /** The ledger admits the line: its BLZ is new, or the bank of that BLZ has
      the same name, no account with its number, and every account of a
      customer with its customer number carries the same personal data. */
  predicate Accepts(m: BankManagementSystem, z: Zeile)
  {
    match BankIndex(m.banks, z.blz)
    case None => true
    case Some(i) => Admits(m.banks[i], z)
  }

  /** The bank of the line's BLZ admits the line. */
  predicate Admits(b: Bank, z: Zeile)
  {
    b.name == z.bankName &&
    (forall j :: 0 <= j < |b.konten| ==> b.konten[j].kontonummer != z.kontonummer) &&
    (forall j :: 0 <= j < |b.konten| && b.konten[j].inhaber.kundennummer == z.person.kundennummer ==>
       Holders.SamePersonalData(b.konten[j].inhaber, z.person))
  }

  /** Where the line's account goes: its bank, or a new last one. */
  function TargetIndex(m: BankManagementSystem, z: Zeile): nat
  {
    match BankIndex(m.banks, z.blz)
    case Some(i) => i
    case None => |m.banks|
  }

  /** The ledger with the line's bank present. */
  function WithBank(m: BankManagementSystem, z: Zeile): (r: BankManagementSystem)
    ensures TargetIndex(m, z) < |r.banks|
  {
    match BankIndex(m.banks, z.blz)
    case Some(_) => m
    case None => AddBank(m, Bank(z.blz, z.bankName, []))
  }

  /** The ledger with the line's account appended to its bank. */
  function Inserted(m: BankManagementSystem, z: Zeile, art: Art): BankManagementSystem
  {
    var w := WithBank(m, z);
    var t := TargetIndex(m, z);
    UpdateBank(w, t, AddKonto(w.banks[t], KontoOf(z, z.kontostand, z.person, art)))
  }

  /** On a well-formed ledger a line succeeds exactly when the ledger admits
      it and its kind-specific field reads; it then appends the line's
      account, held by the line's own personal data. A failure names the
      line. */
  lemma StrictApplyAccepts(m: BankManagementSystem, z: Zeile, feld: ArtFeld, zeile: nat)
    requires WellFormed(m)
    ensures StrictApply(m, z, feld, zeile).Ok? <==> Accepts(m, z) && feld.Bekannt?
    ensures StrictApply(m, z, feld, zeile).Ok? ==> StrictApply(m, z, feld, zeile).value == Inserted(m, z, feld.art)
    ensures StrictApply(m, z, feld, zeile).Err? ==> ErrZeile(StrictApply(m, z, feld, zeile).error) == zeile
  {
    match BankIndex(m.banks, z.blz)
    case None =>
      StrictAccountAccepts(AddBank(m, Bank(z.blz, z.bankName, [])), |m.banks|, z, feld, zeile);
    case Some(i) =>
      if m.banks[i].name == z.bankName {
        StrictAccountAccepts(m, i, z, feld, zeile);
      }
  }

  lemma StrictAccountAccepts(m: BankManagementSystem, i: nat, z: Zeile, feld: ArtFeld, zeile: nat)
    requires i < |m.banks| && ConsistentOwners(m.banks[i])
    ensures var b := m.banks[i];
            StrictAccount(m, i, z, feld, zeile).Ok? <==>
              (forall j :: 0 <= j < |b.konten| ==> b.konten[j].kontonummer != z.kontonummer) &&
              (forall j :: 0 <= j < |b.konten| && b.konten[j].inhaber.kundennummer == z.person.kundennummer ==>
                 Holders.SamePersonalData(b.konten[j].inhaber, z.person)) &&
              feld.Bekannt?
    ensures StrictAccount(m, i, z, feld, zeile).Ok? ==>
              StrictAccount(m, i, z, feld, zeile).value ==
              UpdateBank(m, i, AddKonto(m.banks[i], KontoOf(z, z.kontostand, z.person, feld.art)))
    ensures StrictAccount(m, i, z, feld, zeile).Err? ==> ErrZeile(StrictAccount(m, i, z, feld, zeile).error) == zeile
  {
    var b := m.banks[i];
    var kn := z.person.kundennummer;
    var known := KundeIndex(b.konten, kn);
    if known.Some? {
      ConsistentOwnerFound(b, kn);
      if Holders.SamePersonalData(b.konten[known.value].inhaber, z.person) {
        Holders.SamePersonalDataEqual(b.konten[known.value].inhaber, z.person);
      }
    }
  }

  // ---------------------------------------------------------------------------
  // What an accepted line leaves in the ledger

  /** The line's bank is present under its name and holds the line's account
      under its number. */
  predicate Holds(m: BankManagementSystem, z: Zeile, art: Art)
  {
    match BankIndex(m.banks, z.blz)
    case None => false
    case Some(i) =>
      m.banks[i].name == z.bankName &&
      match KontoIndex(m.banks[i].konten, z.kontonummer)
      case None => false
      case Some(j) => m.banks[i].konten[j] == KontoOf(z, z.kontostand, z.person, art)
  }

  /** Appending an admitted line keeps the ledger well formed. */
  lemma InsertedWellFormed(m: BankManagementSystem, z: Zeile, art: Art)
    requires WellFormed(m) && Accepts(m, z)
    ensures WellFormed(Inserted(m, z, art))
  {
    var w := WithBank(m, z);
    var t := TargetIndex(m, z);
    WithBankWellFormed(m, z);
    OwnersAgree(w, t, z);
    AddKontoWellFormed(w, t, KontoOf(z, z.kontostand, z.person, art));
  }

  /** Appending an admitted line extends the ledger. */
  lemma InsertedExtends(m: BankManagementSystem, z: Zeile, art: Art)
    requires WellFormed(m) && Accepts(m, z)
    ensures Extends(m, Inserted(m, z, art))
  {
    var w := WithBank(m, z);
    var t := TargetIndex(m, z);
    WithBankWellFormed(m, z);
    OwnersAgree(w, t, z);
    AddKontoWellFormed(w, t, KontoOf(z, z.kontostand, z.person, art));
    ExtendsTrans(m, w, Inserted(m, z, art));
  }

  /** Appending an admitted line adds one account to the total. */
  lemma InsertedTotal(m: BankManagementSystem, z: Zeile, art: Art)
    requires WellFormed(m) && Accepts(m, z)
    ensures TotalKonten(Inserted(m, z, art).banks) == TotalKonten(m.banks) + 1
  {
    WithBankWellFormed(m, z);
    InsertedCount(m, z, art);
  }

  /** An admitted line holds once appended. */
  lemma InsertedMakesHold(m: BankManagementSystem, z: Zeile, art: Art)
    requires WellFormed(m) && Accepts(m, z)
    ensures Holds(Inserted(m, z, art), z, art)
  {
    WithBankWellFormed(m, z);
    OwnersAgree(WithBank(m, z), TargetIndex(m, z), z);
    InsertedHolds(m, z, art);
  }

  /** Making the line's bank present keeps the ledger well formed, extends
      it, keeps the account total, and leaves the bank found at TargetIndex
      under the line's name, still admitting the line. */
  lemma WithBankWellFormed(m: BankManagementSystem, z: Zeile)
    requires WellFormed(m) && Accepts(m, z)
    ensures WellFormed(WithBank(m, z)) && Extends(m, WithBank(m, z))
    ensures TotalKonten(WithBank(m, z).banks) == TotalKonten(m.banks)
    ensures BankIndex(WithBank(m, z).banks, z.blz) == Some(TargetIndex(m, z))
    ensures WithBank(m, z).banks[TargetIndex(m, z)].name == z.bankName
    ensures Accepts(WithBank(m, z), z)
  {
    match BankIndex(m.banks, z.blz)
    case None =>
      AddEmptyBank(m, z.blz, z.bankName);
      TotalKontenAppend(m.banks, Bank(z.blz, z.bankName, []));
    case Some(i) =>
      ExtendsRefl(m);
  }

  /** In a bank that admits the line, every account of a customer with the
      line's customer number is held by the line's personal data. */
  lemma OwnersAgree(m: BankManagementSystem, t: nat, z: Zeile)
    requires t < |m.banks| && BankIndex(m.banks, z.blz) == Some(t) && Accepts(m, z)
    ensures KontoIndex(m.banks[t].konten, z.kontonummer).None?
    ensures forall j ::
              (0 <= j < |m.banks[t].konten| &&
               m.banks[t].konten[j].inhaber.kundennummer == z.person.kundennummer) ==>
              m.banks[t].konten[j].inhaber == z.person
  {
    forall j | 0 <= j < |m.banks[t].konten| && m.banks[t].konten[j].inhaber.kundennummer == z.person.kundennummer
      ensures m.banks[t].konten[j].inhaber == z.person
    {
      Holders.SamePersonalDataEqual(m.banks[t].konten[j].inhaber, z.person);
    }
  }

  lemma InsertedCount(m: BankManagementSystem, z: Zeile, art: Art)
    ensures TotalKonten(Inserted(m, z, art).banks) == TotalKonten(WithBank(m, z).banks) + 1
  {
    var w := WithBank(m, z);
    var t := TargetIndex(m, z);
    TotalKontenUpdate(w.banks, t, AddKonto(w.banks[t], KontoOf(z, z.kontostand, z.person, art)));
  }

  lemma InsertedHolds(m: BankManagementSystem, z: Zeile, art: Art)
    requires BankIndex(WithBank(m, z).banks, z.blz) == Some(TargetIndex(m, z))
    requires WithBank(m, z).banks[TargetIndex(m, z)].name == z.bankName
    requires KontoIndex(WithBank(m, z).banks[TargetIndex(m, z)].konten, z.kontonummer).None?
    ensures Holds(Inserted(m, z, art), z, art)
  {
    var w := WithBank(m, z);
    var t := TargetIndex(m, z);
    var k := KontoOf(z, z.kontostand, z.person, art);
    UpdateBankLookup(w, t, AddKonto(w.banks[t], k), z.blz);
    KontoIndexAppend(w.banks[t].konten, k, z.kontonummer);
  }

  /** What holds in a ledger still holds in every extension of it. */
  lemma HoldsExtends(m: BankManagementSystem, m2: BankManagementSystem, z: Zeile, art: Art)
    requires Holds(m, z, art) && Extends(m, m2)
    ensures Holds(m2, z, art)
  {
    var i := BankIndex(m.banks, z.blz).value;
    BankIndexPrefix(m.banks, m2.banks, z.blz);
    KontoIndexPrefix(m.banks[i].konten, m2.banks[i].konten, z.kontonummer);
  }

  // ---------------------------------------------------------------------------
  // The whole file

  /** One line of the file on a well-formed ledger: it succeeds exactly
      when the line has fourteen columns that parse, a known kind whose field
      parses, and the ledger admits it; it then appends the line's account.
      A failure names the line. */
  lemma StrictStep(rows: seq<Gelesen>, k: nat)
    requires 2 <= k <= |rows| && StrictUpTo(rows, k - 1).Ok? && WellFormed(StrictUpTo(rows, k - 1).value)
    ensures StrictUpTo(rows, k).Ok? <==>
              rows[k - 1].Gelesen? && rows[k - 1].feld.Bekannt? && Accepts(StrictUpTo(rows, k - 1).value, rows[k - 1].z)
    ensures StrictUpTo(rows, k).Ok? ==>
              StrictUpTo(rows, k).value == Inserted(StrictUpTo(rows, k - 1).value, rows[k - 1].z, rows[k - 1].feld.art)
    ensures StrictUpTo(rows, k).Err? ==> ErrZeile(StrictUpTo(rows, k).error) == k
  {
    var g := rows[k - 1];
    assert StrictUpTo(rows, k) == StrictLine(rows, k) == StrictRow(StrictUpTo(rows, k - 1).value, g, k);
    if g.Gelesen? {
      StrictApplyAccepts(StrictUpTo(rows, k - 1).value, g.z, g.feld, k);
    }
  }

  /** What the strict importer reads is well formed. */
  lemma {:induction false} StrictUpToWellFormed(rows: seq<Gelesen>, k: nat)
    requires k <= |rows| && StrictUpTo(rows, k).Ok?
    ensures WellFormed(StrictUpTo(rows, k).value)
  {
    if k > 1 {
      StrictUpToWellFormed(rows, k - 1);
      StrictStep(rows, k);
      InsertedWellFormed(StrictUpTo(rows, k - 1).value, rows[k - 1].z, rows[k - 1].feld.art);
    }
  }

  /** A successful read of lines 1..k, k >= 2, is a successful read of
      lines 1..k-1 into a well-formed ledger that admitted line k. */
  lemma StrictStepOk(rows: seq<Gelesen>, k: nat)
    requires 2 <= k <= |rows| && StrictUpTo(rows, k).Ok?
    ensures StrictUpTo(rows, k - 1).Ok? && WellFormed(StrictUpTo(rows, k - 1).value)
    ensures rows[k - 1].Gelesen? && rows[k - 1].feld.Bekannt?
    ensures Accepts(StrictUpTo(rows, k - 1).value, rows[k - 1].z)
    ensures StrictUpTo(rows, k).value == Inserted(StrictUpTo(rows, k - 1).value, rows[k - 1].z, rows[k - 1].feld.art)
  {
    StrictUpToWellFormed(rows, k - 1);
    StrictStep(rows, k);
  }

  /** Line k of a successful import is a known row inserted into what lines
      1..k-1 left. */
  lemma StrictInserted(rows: seq<Gelesen>, k: nat)
    requires 2 <= k <= |rows| && StrictUpTo(rows, k).Ok?
    ensures StrictUpTo(rows, k - 1).Ok?
    ensures rows[k - 1].Gelesen? && rows[k - 1].feld.Bekannt?
    ensures StrictUpTo(rows, k).value == Inserted(StrictUpTo(rows, k - 1).value, rows[k - 1].z, rows[k - 1].feld.art)
  {
    StrictStepOk(rows, k);
  }

  /** Line k adds one account to what lines 1..k-1 left. */
  lemma StrictCountStep(rows: seq<Gelesen>, k: nat)
    requires 2 <= k <= |rows| && StrictUpTo(rows, k).Ok?
    ensures StrictUpTo(rows, k - 1).Ok?
    ensures TotalKonten(StrictUpTo(rows, k).value.banks) == TotalKonten(StrictUpTo(rows, k - 1).value.banks) + 1
  {
    StrictStepOk(rows, k);
    InsertedTotal(StrictUpTo(rows, k - 1).value, rows[k - 1].z, rows[k - 1].feld.art);
  }

  /** Line k only appends to what lines 1..k-1 left. */
  lemma StrictExtendsStep(rows: seq<Gelesen>, k: nat)
    requires 2 <= k <= |rows| && StrictUpTo(rows, k).Ok?
    ensures StrictUpTo(rows, k - 1).Ok?
    ensures Extends(StrictUpTo(rows, k - 1).value, StrictUpTo(rows, k).value)
  {
    StrictStepOk(rows, k);
    InsertedExtends(StrictUpTo(rows, k - 1).value, rows[k - 1].z, rows[k - 1].feld.art);
  }

  /** Line k holds once read. */
  lemma StrictHoldsStep(rows: seq<Gelesen>, k: nat)
    requires 2 <= k <= |rows| && StrictUpTo(rows, k).Ok?
    ensures rows[k - 1].Gelesen? && rows[k - 1].feld.Bekannt?
    ensures Holds(StrictUpTo(rows, k).value, rows[k - 1].z, rows[k - 1].feld.art)
  {
    StrictStepOk(rows, k);
    InsertedMakesHold(StrictUpTo(rows, k - 1).value, rows[k - 1].z, rows[k - 1].feld.art);
  }

  /** One account per data line. */
  lemma {:induction false} StrictUpToCount(rows: seq<Gelesen>, k: nat)
    requires k <= |rows| && StrictUpTo(rows, k).Ok?
    ensures TotalKonten(StrictUpTo(rows, k).value.banks) == if k <= 1 then 0 else k - 1
  {
    if k > 1 {
      StrictCountStep(rows, k);
      StrictUpToCount(rows, k - 1);
    }
  }

  /** Every shorter prefix of the file was read successfully, into a ledger
      that the longer read extends. */
  lemma StrictUpToPrefix(rows: seq<Gelesen>, k: nat)
    requires k <= |rows| && StrictUpTo(rows, k).Ok?
    ensures forall q :: 0 <= q <= k ==>
              StrictUpTo(rows, q).Ok? && Extends(StrictUpTo(rows, q).value, StrictUpTo(rows, k).value)
  {
    forall q | 0 <= q <= k
      ensures StrictUpTo(rows, q).Ok? && Extends(StrictUpTo(rows, q).value, StrictUpTo(rows, k).value)
    {
      StrictPrefixAt(rows, k, q);
    }
  }

  /** Lines 1..q were read successfully, into a ledger that the read of
      lines 1..k extends. */
  lemma {:induction false} StrictPrefixAt(rows: seq<Gelesen>, k: nat, q: nat)
    requires q <= k <= |rows| && StrictUpTo(rows, k).Ok?
    ensures StrictUpTo(rows, q).Ok? && Extends(StrictUpTo(rows, q).value, StrictUpTo(rows, k).value)
  {
    var m2 := StrictUpTo(rows, k).value;
    if q == k || k <= 1 {
      ExtendsRefl(m2);
    } else {
      StrictExtendsStep(rows, k);
      StrictPrefixAt(rows, k - 1, q);
      ExtendsTrans(StrictUpTo(rows, q).value, StrictUpTo(rows, k - 1).value, m2);
    }
  }

  /** Appending a line's account leaves every other BLZ's lookup absent if
      it was absent, and a line with a new BLZ creates its bank at the end. */
  lemma InsertedIndex(m: BankManagementSystem, z: Zeile, art: Art, blz: string)
    ensures BankIndex(m.banks, blz).None? && blz != z.blz ==> BankIndex(Inserted(m, z, art).banks, blz).None?
    ensures BankIndex(m.banks, z.blz).None? ==> BankIndex(Inserted(m, z, art).banks, z.blz) == Some(|m.banks|)
  {
    var w := WithBank(m, z);
    var t := TargetIndex(m, z);
    var b2 := AddKonto(w.banks[t], KontoOf(z, z.kontostand, z.person, art));
    if BankIndex(m.banks, z.blz).None? {
      BankIndexAppend(m.banks, Bank(z.blz, z.bankName, []), blz);
      BankIndexAppend(m.banks, Bank(z.blz, z.bankName, []), z.blz);
    }
    UpdateBankLookup(w, t, b2, blz);
    UpdateBankLookup(w, t, b2, z.blz);
  }

  /** A BLZ that no data line among lines 2..k names has no bank. */
  lemma {:induction false} StrictNoBank(rows: seq<Gelesen>, k: nat, blz: string)
    requires k <= |rows| && StrictUpTo(rows, k).Ok?
    requires forall j :: 1 <= j < k && rows[j].Gelesen? ==> rows[j].z.blz != blz
    ensures BankIndex(StrictUpTo(rows, k).value.banks, blz).None?
  {
    if k > 1 {
      StrictInserted(rows, k);
      StrictNoBank(rows, k - 1, blz);
      InsertedIndex(StrictUpTo(rows, k - 1).value, rows[k - 1].z, rows[k - 1].feld.art, blz);
    }
  }

  /** The first data line naming a BLZ creates its bank after all the banks
      of the lines before it. */
  lemma StrictFirstBank(rows: seq<Gelesen>, i: nat)
    requires 1 <= i < |rows| && StrictUpTo(rows, i + 1).Ok? && rows[i].Gelesen?
    requires forall j :: 1 <= j < i && rows[j].Gelesen? ==> rows[j].z.blz != rows[i].z.blz
    ensures StrictUpTo(rows, i).Ok?
    ensures BankIndex(StrictUpTo(rows, i + 1).value.banks, rows[i].z.blz) == Some(|StrictUpTo(rows, i).value.banks|)
  {
    StrictInserted(rows, i + 1);
    StrictNoBank(rows, i, rows[i].z.blz);
    InsertedIndex(StrictUpTo(rows, i).value, rows[i].z, rows[i].feld.art, rows[i].z.blz);
  }

  /** The banks of a successful import stand in the order their BLZs first
      appear in the file. */
  lemma StrictBankOrder(rows: seq<Gelesen>, k: nat, i: nat, j: nat)
    requires 1 <= i < j < k <= |rows| && StrictUpTo(rows, k).Ok?
    requires rows[i].Gelesen? && rows[j].Gelesen?
    requires forall l :: 1 <= l < i && rows[l].Gelesen? ==> rows[l].z.blz != rows[i].z.blz
    requires forall l :: 1 <= l < j && rows[l].Gelesen? ==> rows[l].z.blz != rows[j].z.blz
    ensures BankIndex(StrictUpTo(rows, k).value.banks, rows[i].z.blz).Some?
    ensures BankIndex(StrictUpTo(rows, k).value.banks, rows[j].z.blz).Some?
    ensures BankIndex(StrictUpTo(rows, k).value.banks, rows[i].z.blz).value
          < BankIndex(StrictUpTo(rows, k).value.banks, rows[j].z.blz).value
  {
    StrictPrefixAt(rows, k, j + 1);
    StrictOrderAt(rows, i, j);
    var m3 := StrictUpTo(rows, j + 1).value;
    BankIndexPrefix(m3.banks, StrictUpTo(rows, k).value.banks, rows[i].z.blz);
    BankIndexPrefix(m3.banks, StrictUpTo(rows, k).value.banks, rows[j].z.blz);
  }

  /** Right after the first line naming the later BLZ, its bank stands
      behind the bank of the earlier one. */
  lemma StrictOrderAt(rows: seq<Gelesen>, i: nat, j: nat)
    requires 1 <= i < j < |rows| && StrictUpTo(rows, j + 1).Ok?
    requires rows[i].Gelesen? && rows[j].Gelesen?
    requires forall l :: 1 <= l < i && rows[l].Gelesen? ==> rows[l].z.blz != rows[i].z.blz
    requires forall l :: 1 <= l < j && rows[l].Gelesen? ==> rows[l].z.blz != rows[j].z.blz
    ensures BankIndex(StrictUpTo(rows, j + 1).value.banks, rows[i].z.blz).Some?
    ensures BankIndex(StrictUpTo(rows, j + 1).value.banks, rows[j].z.blz).Some?
    ensures BankIndex(StrictUpTo(rows, j + 1).value.banks, rows[i].z.blz).value
          < BankIndex(StrictUpTo(rows, j + 1).value.banks, rows[j].z.blz).value
  {
    StrictOrderFacts(rows, i, j);
    AppendedBehind(StrictUpTo(rows, j).value, StrictUpTo(rows, j + 1).value, rows[i].z.blz, rows[j].z.blz);
  }

  /** Before line j is applied the bank of line i is there; line j appends its own bank. */
  lemma StrictOrderFacts(rows: seq<Gelesen>, i: nat, j: nat)
    requires 1 <= i < j < |rows| && StrictUpTo(rows, j + 1).Ok?
    requires rows[i].Gelesen? && rows[j].Gelesen?
    requires forall l :: 1 <= l < i && rows[l].Gelesen? ==> rows[l].z.blz != rows[i].z.blz
    requires forall l :: 1 <= l < j && rows[l].Gelesen? ==> rows[l].z.blz != rows[j].z.blz
    ensures StrictUpTo(rows, j).Ok?
    ensures Extends(StrictUpTo(rows, j).value, StrictUpTo(rows, j + 1).value)
    ensures BankIndex(StrictUpTo(rows, j).value.banks, rows[i].z.blz).Some?
    ensures BankIndex(StrictUpTo(rows, j + 1).value.banks, rows[j].z.blz) == Some(|StrictUpTo(rows, j).value.banks|)
  {
    StrictSeenBefore(rows, i, j);
    StrictFirstBank(rows, j);
    StrictPrefixAt(rows, j + 1, j);
  }

  /** The bank of the first line naming a BLZ is there for every later line. */
  lemma StrictSeenBefore(rows: seq<Gelesen>, i: nat, j: nat)
    requires 1 <= i < j <= |rows| && StrictUpTo(rows, j).Ok? && rows[i].Gelesen?
    requires forall l :: 1 <= l < i && rows[l].Gelesen? ==> rows[l].z.blz != rows[i].z.blz
    ensures BankIndex(StrictUpTo(rows, j).value.banks, rows[i].z.blz).Some?
  {
    StrictPrefixAt(rows, j, i + 1);
    StrictFirstBank(rows, i);
    BankIndexPrefix(StrictUpTo(rows, i + 1).value.banks, StrictUpTo(rows, j).value.banks, rows[i].z.blz);
  }

  /** Every data line read holds in the ledger. */
  lemma StrictUpToHolds(rows: seq<Gelesen>, k: nat)
    requires k <= |rows| && StrictUpTo(rows, k).Ok?
    ensures forall i :: 1 <= i < k ==>
              rows[i].Gelesen? && rows[i].feld.Bekannt? && Holds(StrictUpTo(rows, k).value, rows[i].z, rows[i].feld.art)
  {
    forall i | 1 <= i < k
      ensures rows[i].Gelesen? && rows[i].feld.Bekannt? && Holds(StrictUpTo(rows, k).value, rows[i].z, rows[i].feld.art)
    {
      StrictHoldsAt(rows, k, i);
    }
  }

  /** Two data lines, the second read after the first, that the strict
      importer lets through together: same BLZ means same bank name,
      different account numbers, and the same personal data for the same
      customer number. */
  predicate Compatible(a: Zeile, b: Zeile)
  {
    a.blz == b.blz ==>
      a.bankName == b.bankName && a.kontonummer != b.kontonummer &&
      (a.person.kundennummer == b.person.kundennummer ==> Holders.SamePersonalData(a.person, b.person))
  }

  /** Every data line among lines 2..k has fourteen columns, parses, and
      names a known kind whose field parses. */
  predicate RowsValid(rows: seq<Gelesen>, k: nat)
    requires k <= |rows|
  {
    forall i :: 1 <= i < k ==> rows[i].Gelesen? && rows[i].feld.Bekannt?
  }

  /** Every two data lines among lines 2..k are compatible. */
  predicate RowsCompatible(rows: seq<Gelesen>, k: nat)
    requires k <= |rows|
  {
    forall i, j :: 1 <= i < j < k && rows[i].Gelesen? && rows[j].Gelesen? ==> Compatible(rows[i].z, rows[j].z)
  }

  /** A line that holds in a ledger is compatible with any line the ledger
      admits. */
  lemma HoldsAccepts(m: BankManagementSystem, a: Zeile, art: Art, b: Zeile)
    requires Holds(m, a, art) && Accepts(m, b)
    ensures Compatible(a, b)
  {
    if a.blz == b.blz {
      var i := BankIndex(m.banks, a.blz).value;
      var j := KontoIndex(m.banks[i].konten, a.kontonummer).value;
      assert m.banks[i].konten[j].kontonummer != b.kontonummer;
      if a.person.kundennummer == b.person.kundennummer {
        assert m.banks[i].konten[j].inhaber == a.person;
      }
    }
  }

  /** A ledger that admits two compatible lines still admits the second
      after the first is appended. */
  lemma AcceptsInserted(m: BankManagementSystem, z: Zeile, art: Art, y: Zeile)
    requires WellFormed(m) && Accepts(m, z) && Accepts(m, y)
    requires Compatible(z, y)
    ensures Accepts(Inserted(m, z, art), y)
  {
    if y.blz != z.blz {
      AcceptsOtherBank(m, z, art, y);
    } else {
      AcceptsSameBank(m, z, art, y);
    }
  }

  /** Making the line's bank present does not change what a line of another
      BLZ finds. */
  lemma AcceptsOtherBank(m: BankManagementSystem, z: Zeile, art: Art, y: Zeile)
    requires y.blz != z.blz && Accepts(m, y)
    ensures Accepts(Inserted(m, z, art), y)
  {
    var w := WithBank(m, z);
    var t := TargetIndex(m, z);
    var r := Inserted(m, z, art);
    if BankIndex(m.banks, z.blz).None? {
      BankIndexAppend(m.banks, Bank(z.blz, z.bankName, []), y.blz);
    }
    assert BankIndex(w.banks, y.blz) == BankIndex(m.banks, y.blz);
    UpdateBankLookup(w, t, r.banks[t], y.blz);
    assert BankIndex(r.banks, y.blz) == BankIndex(m.banks, y.blz);
  }

  /** A line of the same BLZ, compatible with the appended one, is still
      admitted by its bank. */
  lemma AcceptsSameBank(m: BankManagementSystem, z: Zeile, art: Art, y: Zeile)
    requires WellFormed(m) && Accepts(m, z) && Accepts(m, y)
    requires y.blz == z.blz && Compatible(z, y)
    ensures Accepts(Inserted(m, z, art), y)
  {
    var w := WithBank(m, z);
    var t := TargetIndex(m, z);
    var k := KontoOf(z, z.kontostand, z.person, art);
    var r := Inserted(m, z, art);
    WithBankWellFormed(m, z);
    UpdateBankLookup(w, t, AddKonto(w.banks[t], k), y.blz);
    assert Admits(w.banks[t], y);
    AdmitsAppend(w.banks[t], k, y);
  }

  /** A bank that admits a line still admits it after an account with
      another number, and a holder agreeing with the line, is appended. */
  lemma AdmitsAppend(b: Bank, k: Konto, y: Zeile)
    requires Admits(b, y) && k.kontonummer != y.kontonummer
    requires k.inhaber.kundennummer == y.person.kundennummer ==> Holders.SamePersonalData(k.inhaber, y.person)
    ensures Admits(AddKonto(b, k), y)
  {
    var c := AddKonto(b, k);
    assert forall j :: 0 <= j < |b.konten| ==> c.konten[j] == b.konten[j];
  }

  /** The strict importer accepts lines 1..k, for any k up to the bound, when
      every data line up to the bound is valid and every two are compatible;
      the ledger it reaches still admits each later line. */
  lemma {:induction false} StrictUpToComplete(rows: seq<Gelesen>, k: nat, bound: nat)
    requires k <= bound <= |rows|
    requires RowsValid(rows, bound) && RowsCompatible(rows, bound)
    ensures StrictUpTo(rows, k).Ok?
    ensures WellFormed(StrictUpTo(rows, k).value)
    ensures forall i :: 1 <= i && k <= i < bound ==> rows[i].Gelesen? && Accepts(StrictUpTo(rows, k).value, rows[i].z)
  {
    if k <= 1 {
      assert StrictUpTo(rows, k).value == Empty();
    } else {
      StrictUpToComplete(rows, k - 1, bound);
      var m := StrictUpTo(rows, k - 1).value;
      var g := rows[k - 1];
      StrictStep(rows, k);
      InsertedWellFormed(m, g.z, g.feld.art);
      forall i | k <= i < bound
        ensures rows[i].Gelesen? && Accepts(StrictUpTo(rows, k).value, rows[i].z)
      {
        AcceptsInserted(m, g.z, g.feld.art, rows[i].z);
      }
    }
  }

  /** Lines 1..k read successfully only when every data line among them is
      valid and every two are compatible. */
  lemma StrictUpToSound(rows: seq<Gelesen>, k: nat)
    requires k <= |rows| && StrictUpTo(rows, k).Ok?
    ensures RowsValid(rows, k) && RowsCompatible(rows, k)
  {
    StrictUpToHolds(rows, k);
    StrictUpToPrefix(rows, k);
    forall i, j | 1 <= i < j < k && rows[i].Gelesen? && rows[j].Gelesen?
      ensures Compatible(rows[i].z, rows[j].z)
    {
      StrictAdmitsLater(rows, i, j);
    }
  }

  /** Line j + 1 is compatible with an earlier data line i + 1 when both
      were read. */
  lemma StrictAdmitsLater(rows: seq<Gelesen>, i: nat, j: nat)
    requires 1 <= i < j < |rows| && StrictUpTo(rows, j + 1).Ok?
    ensures rows[i].Gelesen? && rows[j].Gelesen? && Compatible(rows[i].z, rows[j].z)
  {
    StrictAcceptedAt(rows, j);
    StrictHoldsAt(rows, j, i);
    StrictCompatibleAt(rows, i, j);
  }

  /** Line j + 1 was admitted by what lines 1..j left. */
  lemma StrictAcceptedAt(rows: seq<Gelesen>, j: nat)
    requires 1 <= j < |rows| && StrictUpTo(rows, j + 1).Ok?
    ensures StrictUpTo(rows, j).Ok? && rows[j].Gelesen?
    ensures Accepts(StrictUpTo(rows, j).value, rows[j].z)
  {
    StrictAcceptsStep(rows, j + 1);
  }

  /** A line that holds in the ledger of lines 1..j is compatible with line
      j + 1 when that ledger admits it. */
  lemma StrictCompatibleAt(rows: seq<Gelesen>, i: nat, j: nat)
    requires 1 <= i < j < |rows| && StrictUpTo(rows, j).Ok?
    requires rows[i].Gelesen? && rows[i].feld.Bekannt? && rows[j].Gelesen?
    requires Holds(StrictUpTo(rows, j).value, rows[i].z, rows[i].feld.art)
    requires Accepts(StrictUpTo(rows, j).value, rows[j].z)
    ensures Compatible(rows[i].z, rows[j].z)
  {
    HoldsAccepts(StrictUpTo(rows, j).value, rows[i].z, rows[i].feld.art, rows[j].z);
  }

  /** Line k was admitted by what lines 1..k-1 left. */
  lemma StrictAcceptsStep(rows: seq<Gelesen>, k: nat)
    requires 2 <= k <= |rows| && StrictUpTo(rows, k).Ok?
    ensures StrictUpTo(rows, k - 1).Ok? && rows[k - 1].Gelesen?
    ensures Accepts(StrictUpTo(rows, k - 1).value, rows[k - 1].z)
  {
    StrictStepOk(rows, k);
  }

  /** Data line i + 1 holds after lines 1..k were read. */
  lemma {:induction false} StrictHoldsAt(rows: seq<Gelesen>, k: nat, i: nat)
    requires 1 <= i < k <= |rows| && StrictUpTo(rows, k).Ok?
    ensures rows[i].Gelesen? && rows[i].feld.Bekannt? && Holds(StrictUpTo(rows, k).value, rows[i].z, rows[i].feld.art)
  {
    if i == k - 1 {
      StrictHoldsStep(rows, k);
    } else {
      StrictExtendsStep(rows, k);
      StrictHoldsAt(rows, k - 1, i);
      StrictHoldsLater(rows, k, i);
    }
  }

  /** A line that holds before line k is read still holds after it. */
  lemma StrictHoldsLater(rows: seq<Gelesen>, k: nat, i: nat)
    requires 1 <= i < k - 1 && 2 <= k <= |rows| && StrictUpTo(rows, k).Ok?
    requires StrictUpTo(rows, k - 1).Ok? && rows[i].Gelesen? && rows[i].feld.Bekannt?
    requires Holds(StrictUpTo(rows, k - 1).value, rows[i].z, rows[i].feld.art)
    ensures Holds(StrictUpTo(rows, k).value, rows[i].z, rows[i].feld.art)
  {
    StrictExtendsStep(rows, k);
    HoldsExtends(StrictUpTo(rows, k - 1).value, StrictUpTo(rows, k).value, rows[i].z, rows[i].feld.art);
  }

  /** loadFromCSV succeeds exactly when every data line is valid and every
      two data lines are compatible. */
  lemma StrictLoadAccepts(lines: seq<string>)
    ensures StrictLoad(lines).Ok? <==>
              RowsValid(ReadAll(lines), |lines|) && RowsCompatible(ReadAll(lines), |lines|)
  {
    var rows := ReadAll(lines);
    if StrictLoad(lines).Ok? {
      StrictUpToSound(rows, |lines|);
    }
    if RowsValid(rows, |lines|) && RowsCompatible(rows, |lines|) {
      StrictUpToComplete(rows, |lines|, |lines|);
    }
  }

  /** A successful import has one account per data line, in a well-formed
      ledger where every data line holds. */
  lemma StrictLoadOk(lines: seq<string>)
    requires StrictLoad(lines).Ok?
    ensures WellFormed(StrictLoad(lines).value)
    ensures TotalKonten(StrictLoad(lines).value.banks) == if |lines| <= 1 then 0 else |lines| - 1
    ensures forall i :: 1 <= i < |lines| ==>
              ReadAll(lines)[i].Gelesen? && ReadAll(lines)[i].feld.Bekannt? &&
              Holds(StrictLoad(lines).value, ReadAll(lines)[i].z, ReadAll(lines)[i].feld.art)
  {
    StrictUpToWellFormed(ReadAll(lines), |lines|);
    StrictUpToCount(ReadAll(lines), |lines|);
    StrictUpToHolds(ReadAll(lines), |lines|);
  }

  /** A failed import names the first line that fails: every line before it
      was read successfully, and reading stops there. */
  lemma {:induction false} StrictUpToFirstError(rows: seq<Gelesen>, k: nat)
    requires k <= |rows| && StrictUpTo(rows, k).Err?
    ensures 2 <= ErrZeile(StrictUpTo(rows, k).error) <= k
    ensures StrictUpTo(rows, ErrZeile(StrictUpTo(rows, k).error) - 1).Ok?
    ensures StrictUpTo(rows, ErrZeile(StrictUpTo(rows, k).error)) == StrictUpTo(rows, k)
  {
    if StrictUpTo(rows, k - 1).Err? {
      StrictUpToFirstError(rows, k - 1);
      assert StrictUpTo(rows, k) == StrictUpTo(rows, k - 1);
    } else {
      StrictUpToWellFormed(rows, k - 1);
      StrictStep(rows, k);
      assert ErrZeile(StrictUpTo(rows, k).error) == k;
    }
  }

  /** The header line is never looked at. */
  lemma StrictHeaderIgnored(h1: string, h2: string, rest: seq<string>)
    ensures StrictLoad([h1] + rest) == StrictLoad([h2] + rest)
  {
    var a := ReadAll([h1] + rest);
    var b := ReadAll([h2] + rest);
    forall i | 1 <= i < |a|
      ensures a[i] == b[i]
    {
      SameLineAfterHeader(h1, h2, rest, i);
    }
    SameDataSameResult(a, b, |a|);
  }

  lemma SameLineAfterHeader(h1: string, h2: string, rest: seq<string>, i: nat)
    requires 1 <= i <= |rest|
    ensures ReadAll([h1] + rest)[i] == ReadAll([h2] + rest)[i]
  {
    assert ([h1] + rest)[i] == rest[i - 1];
    assert ([h2] + rest)[i] == rest[i - 1];
  }

  lemma {:induction false} SameDataSameResult(a: seq<Gelesen>, b: seq<Gelesen>, k: nat)
    requires |a| == |b| && k <= |a|
    requires forall i :: 1 <= i < |a| ==> a[i] == b[i]
    ensures StrictUpTo(a, k) == StrictUpTo(b, k)
  {
    if k > 1 {
      SameDataSameResult(a, b, k - 1);
    }
  }
}
