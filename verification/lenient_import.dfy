/** The lenient importer, Geldautomat/src/main/java/com/geldautomat/util/CSVImporter.java:
    short lines are skipped, the balance and the interest rate are rounded to
    five decimals, an existing bank is reused whatever name the line gives,
    the first account holder with a customer number is reused, and every
    account is appended, duplicates included. A number that does not parse
    ends the import with a NumberFormatException; an unknown account kind
    leaves the account null and ends it with a NullPointerException. */
module LenientImport {
  import opened Wrappers
  import opened Money
  import Holders
  import opened Accounts
  import opened Banks
  import opened Registry
  import opened CsvRows
  import opened Ledger
  import StrictImport

  /** The account kind as the lenient importer builds it: the interest rate
      is rounded, the limit is not. */
  function LenientArt(feld: ArtFeld): (r: Result<Art, ImportFehler>)
    ensures r.Ok? <==> feld.Bekannt?
    ensures feld.UnbekannteArt? ==> r == Err(NullPointer)
    ensures feld.FeldUnlesbar? ==> r == Err(NumberFormat)
    ensures r.Ok? && feld.art.Girokonto? ==> r.value == feld.art
    ensures r.Ok? && feld.art.Sparkonto? ==>
              r.value.Sparkonto? && r.value.zins - Half <= feld.art.zins < r.value.zins + Half &&
              HasFiveDecimals(r.value.zins)
  {
    match feld
    case UnbekannteArt => Err(NullPointer)
    case FeldUnlesbar => Err(NumberFormat)
    case Bekannt(Girokonto(l)) => Ok(Girokonto(l))
    case Bekannt(Sparkonto(p)) => Ok(Sparkonto(Round5(p)))
  }

  /** Where the line's account goes: the first bank of its BLZ, or a new
      last one. */
  function BankSlot(m: BankManagementSystem, blz: string): nat
  {
    match BankIndex(m.banks, blz)
    case Some(i) => i
    case None => |m.banks|
  }

  /** getBankByBLZ, and a new bank under the line's name when there is none. */
  function EnsureBank(m: BankManagementSystem, blz: string, name: string): (r: BankManagementSystem)
    ensures BankSlot(m, blz) < |r.banks|
    ensures BankIndex(r.banks, blz) == Some(BankSlot(m, blz))
    ensures Extends(m, r)
    ensures BankIndex(m.banks, blz).Some? ==> r == m
    ensures BankIndex(m.banks, blz).None? ==> r.banks == m.banks + [Bank(blz, name, [])]
  {
    match BankIndex(m.banks, blz)
    case Some(_) =>
      ExtendsRefl(m);
      m
    case None =>
      var r := AddBank(m, Bank(blz, name, []));
      BankIndexAppend(m.banks, Bank(blz, name, []), blz);
      assert Extends(m, r) by {
        forall i | 0 <= i < |m.banks|
          ensures r.banks[i].konten[..|m.banks[i].konten|] == m.banks[i].konten
        {
          assert r.banks[i] == m.banks[i];
        }
      }
      r
  }

  /** findKundenByKundennummer, and the line's own personal data when the
      bank has no such customer yet. */
  function Inhaber(b: Bank, p: Holders.Person): (r: Holders.Person)
    ensures r.kundennummer == p.kundennummer
    ensures KundeIndex(b.konten, p.kundennummer).None? ==> r == p
    ensures KundeIndex(b.konten, p.kundennummer).Some? ==>
              r == b.konten[KundeIndex(b.konten, p.kundennummer).value].inhaber
  {
    match KundeIndex(b.konten, p.kundennummer)
    case None => p
    case Some(j) => b.konten[j].inhaber
  }

  /** One parsed line: find or create the bank, find or create the holder,
      build the account and append it. */
  function LenientApply(m: BankManagementSystem, z: Zeile, feld: ArtFeld): Result<BankManagementSystem, ImportFehler>
  {
    var w := EnsureBank(m, z.blz, z.bankName);
    var i := BankSlot(m, z.blz);
    var b := w.banks[i];
    match LenientArt(feld)
    case Err(e) => Err(e)
    case Ok(art) => Ok(UpdateBank(w, i, AddKonto(b, KontoOf(z, Round5(z.kontostand), Inhaber(b, z.person), art))))
  }

  /** One line of the file: skipped when short. */
  function LenientRow(m: BankManagementSystem, g: Gelesen): Result<BankManagementSystem, ImportFehler>
  {
    match g
    case ZuKurz => Ok(m)
    case Unlesbar => Err(NumberFormat)
    case Gelesen(z, feld) => LenientApply(m, z, feld)
  }

  /** The ledger after lines 1..k (line 1 is the header and is skipped), or
      the first exception; rows[i] is line i + 1. */
  function LenientUpTo(rows: seq<Gelesen>, k: nat): Result<BankManagementSystem, ImportFehler>
    requires k <= |rows|
    decreases k, 1
  {
    if k <= 1 then Ok(Empty()) else LenientLine(rows, k)
  }

  /** Line k read after lines 1..k-1: the first exception stays. */
  function LenientLine(rows: seq<Gelesen>, k: nat): Result<BankManagementSystem, ImportFehler>
    requires 2 <= k <= |rows|
    decreases k, 0
  {
    match LenientUpTo(rows, k - 1)
    case Err(e) => Err(e)
    case Ok(m) => LenientRow(m, rows[k - 1])
  }

  /** loadFromCSV: the whole file. */
  function LenientLoad(lines: seq<string>): Result<BankManagementSystem, ImportFehler>
  {
    LenientUpTo(ReadAll(lines), |lines|)
  }

  // ---------------------------------------------------------------------------
  // What the lenient importer keeps

  /** Every balance and every interest rate has at most five decimals. */
  predicate Rounded(b: Bank)
  {
    forall j :: 0 <= j < |b.konten| ==>
      HasFiveDecimals(b.konten[j].kontostand) &&
      (b.konten[j].art.Sparkonto? ==> HasFiveDecimals(b.konten[j].art.zins))
  }

  /** What a ledger the lenient importer builds always satisfies: unique
      BLZs and, per bank, accounts naming the bank, one holder per customer
      number, and rounded amounts. Account numbers need not be unique. */
  predicate LenientInvariant(m: BankManagementSystem)
  {
    UniqueBlz(m) &&
    forall i :: 0 <= i < |m.banks| ==> Keyed(m.banks[i]) && ConsistentOwners(m.banks[i]) && Rounded(m.banks[i])
  }

  /** The exception a bad data line raises. */
  function LenientFehler(g: Gelesen): ImportFehler
  {
    match g
    case Gelesen(_, UnbekannteArt) => NullPointer
    case _ => NumberFormat
  }

  /** A data line the lenient importer gets past: short, or parsed with a
      known kind whose field parses. */
  predicate LenientGood(g: Gelesen)
  {
    g.ZuKurz? || (g.Gelesen? && g.feld.Bekannt?)
  }

  /** The number of data lines among lines 2..k that carry an account. */
  function DataRows(rows: seq<Gelesen>, k: nat): (n: nat)
    requires k <= |rows|
    ensures n <= k
  {
    if k <= 1 then 0 else DataRows(rows, k - 1) + (if rows[k - 1].Gelesen? then 1 else 0)
  }

  /** A parsed line succeeds exactly when its kind is known and its field
      parses; it then appends one account holding the rounded balance, and
      fails otherwise with the exception the source raises. */
  lemma LenientApplyResult(m: BankManagementSystem, z: Zeile, feld: ArtFeld)
    ensures LenientApply(m, z, feld).Ok? <==> feld.Bekannt?
    ensures LenientApply(m, z, feld).Err? ==> LenientApply(m, z, feld).error == LenientFehler(Gelesen(z, feld))
    ensures LenientApply(m, z, feld).Ok? ==>
              TotalKonten(LenientApply(m, z, feld).value.banks) == TotalKonten(m.banks) + 1
  {
    if feld.Bekannt? {
      var w := EnsureBank(m, z.blz, z.bankName);
      var i := BankSlot(m, z.blz);
      var art := LenientArt(feld).value;
      var k := KontoOf(z, Round5(z.kontostand), Inhaber(w.banks[i], z.person), art);
      TotalKontenUpdate(w.banks, i, AddKonto(w.banks[i], k));
      if BankIndex(m.banks, z.blz).None? {
        TotalKontenAppend(m.banks, Bank(z.blz, z.bankName, []));
      }
    }
  }

  /** A parsed line keeps the invariant and only appends. */
  lemma LenientApplyKeeps(m: BankManagementSystem, z: Zeile, feld: ArtFeld)
    requires LenientInvariant(m) && LenientApply(m, z, feld).Ok?
    ensures LenientInvariant(LenientApply(m, z, feld).value)
    ensures Extends(m, LenientApply(m, z, feld).value)
  {
    var w := EnsureBank(m, z.blz, z.bankName);
    var i := BankSlot(m, z.blz);
    var b := w.banks[i];
    var art := LenientArt(feld).value;
    var k := KontoOf(z, Round5(z.kontostand), Inhaber(b, z.person), art);
    EnsureBankKeeps(m, z.blz, z.bankName);
    AppendKeeps(b, z.person, k);
    UpdateBankLookup(w, i, AddKonto(b, k), z.blz);
    AppendExtends(w, i, k);
    ExtendsTrans(m, w, UpdateBank(w, i, AddKonto(b, k)));
  }

  /** Appending a rounded account that names the bank and is held by the
      reused (or new) holder keeps the bank's part of the invariant. */
  lemma AppendKeeps(b: Bank, p: Holders.Person, k: Konto)
    requires Keyed(b) && ConsistentOwners(b) && Rounded(b)
    requires k.bank == b.blz && k.inhaber == Inhaber(b, p)
    requires HasFiveDecimals(k.kontostand) && (k.art.Sparkonto? ==> HasFiveDecimals(k.art.zins))
    ensures Keyed(AddKonto(b, k)) && ConsistentOwners(AddKonto(b, k)) && Rounded(AddKonto(b, k))
  {
    var b2 := AddKonto(b, k);
    assert forall j :: 0 <= j < |b.konten| ==> b2.konten[j] == b.konten[j];
    InhaberConsistent(b, p, k);
  }

  /** Appending an account to one bank extends the ledger. */
  lemma AppendExtends(w: BankManagementSystem, i: nat, k: Konto)
    requires i < |w.banks|
    ensures Extends(w, UpdateBank(w, i, AddKonto(w.banks[i], k)))
  {
    var r := UpdateBank(w, i, AddKonto(w.banks[i], k));
    forall i2 | 0 <= i2 < |w.banks|
      ensures r.banks[i2].konten[..|w.banks[i2].konten|] == w.banks[i2].konten
    {
    }
  }

  /** The bank made present keeps the invariant. */
  lemma EnsureBankKeeps(m: BankManagementSystem, blz: string, name: string)
    requires LenientInvariant(m)
    ensures LenientInvariant(EnsureBank(m, blz, name))
    ensures EnsureBank(m, blz, name).banks[BankSlot(m, blz)].blz == blz
  {
    var r := EnsureBank(m, blz, name);
    if BankIndex(m.banks, blz).None? {
      AddBankUnique(m, Bank(blz, name, []));
      assert forall i :: 0 <= i < |m.banks| ==> r.banks[i] == m.banks[i];
    }
  }

  /** Appending an account held by the reused (or new) holder keeps one
      holder per customer number. */
  lemma InhaberConsistent(b: Bank, p: Holders.Person, k: Konto)
    requires ConsistentOwners(b) && k.inhaber == Inhaber(b, p)
    ensures ConsistentOwners(AddKonto(b, k))
  {
    var b2 := AddKonto(b, k);
    assert forall j :: 0 <= j < |b.konten| ==> b2.konten[j] == b.konten[j];
    assert b2.konten[|b.konten|] == k;
  }

  // ---------------------------------------------------------------------------
  // The whole file

  /** Line k read after a successful read of lines 1..k-1. */
  lemma LenientStep(rows: seq<Gelesen>, k: nat)
    requires 2 <= k <= |rows| && LenientUpTo(rows, k - 1).Ok?
    ensures LenientUpTo(rows, k) == LenientRow(LenientUpTo(rows, k - 1).value, rows[k - 1])
  {
    assert LenientUpTo(rows, k) == LenientLine(rows, k);
  }

  /** The lenient importer gets through lines 1..k exactly when every data
      line among them is short or good. */
  lemma {:induction false} LenientUpToOk(rows: seq<Gelesen>, k: nat)
    requires k <= |rows|
    ensures LenientUpTo(rows, k).Ok? <==> forall i :: 1 <= i < k ==> LenientGood(rows[i])
  {
    if k > 1 {
      LenientUpToOk(rows, k - 1);
      assert LenientUpTo(rows, k) == LenientLine(rows, k);
      if LenientUpTo(rows, k - 1).Ok? {
        var g := rows[k - 1];
        if g.Gelesen? {
          LenientApplyResult(LenientUpTo(rows, k - 1).value, g.z, g.feld);
        }
      } else {
        assert !LenientGood(rows[k - 2]) || exists i :: 1 <= i < k - 1 && !LenientGood(rows[i]);
      }
    }
  }

  /** What the lenient importer reads keeps the invariant, has one account
      per data line that is not short, and extends every shorter read. */
  lemma {:induction false} LenientUpToKeeps(rows: seq<Gelesen>, k: nat)
    requires k <= |rows| && LenientUpTo(rows, k).Ok?
    ensures LenientInvariant(LenientUpTo(rows, k).value)
    ensures TotalKonten(LenientUpTo(rows, k).value.banks) == DataRows(rows, k)
  {
    if k > 1 {
      assert LenientUpTo(rows, k) == LenientLine(rows, k);
      LenientUpToKeeps(rows, k - 1);
      var m := LenientUpTo(rows, k - 1).value;
      var g := rows[k - 1];
      LenientStep(rows, k);
      if g.Gelesen? {
        LenientApplyResult(m, g.z, g.feld);
        LenientApplyKeeps(m, g.z, g.feld);
      }
    }
  }

  /** Line k only appends to what lines 1..k-1 left. */
  lemma LenientExtendsStep(rows: seq<Gelesen>, k: nat)
    requires 2 <= k <= |rows| && LenientUpTo(rows, k).Ok?
    ensures LenientUpTo(rows, k - 1).Ok?
    ensures Extends(LenientUpTo(rows, k - 1).value, LenientUpTo(rows, k).value)
  {
    assert LenientUpTo(rows, k) == LenientLine(rows, k);
    var m := LenientUpTo(rows, k - 1).value;
    LenientUpToKeeps(rows, k - 1);
    LenientStep(rows, k);
    var g := rows[k - 1];
    if g.Gelesen? {
      LenientApplyKeeps(m, g.z, g.feld);
    } else {
      ExtendsRefl(m);
    }
  }

  /** Lines 1..q were read successfully, into a ledger that the read of
      lines 1..k extends. */
  lemma {:induction false} LenientPrefixAt(rows: seq<Gelesen>, k: nat, q: nat)
    requires q <= k <= |rows| && LenientUpTo(rows, k).Ok?
    ensures LenientUpTo(rows, q).Ok? && Extends(LenientUpTo(rows, q).value, LenientUpTo(rows, k).value)
  {
    var m2 := LenientUpTo(rows, k).value;
    if q == k || k <= 1 {
      ExtendsRefl(m2);
    } else {
      LenientExtendsStep(rows, k);
      LenientPrefixAt(rows, k - 1, q);
      ExtendsTrans(LenientUpTo(rows, q).value, LenientUpTo(rows, k - 1).value, m2);
    }
  }

  /** The first data line naming a BLZ creates its bank after all the banks
      of the lines before it. */
  lemma LenientFirstLine(rows: seq<Gelesen>, i: nat)
    requires 1 <= i < |rows| && LenientUpTo(rows, i + 1).Ok? && rows[i].Gelesen?
    requires forall j :: 1 <= j < i && rows[j].Gelesen? ==> rows[j].z.blz != rows[i].z.blz
    ensures LenientUpTo(rows, i).Ok?
    ensures BankIndex(LenientUpTo(rows, i + 1).value.banks, rows[i].z.blz) == Some(|LenientUpTo(rows, i).value.banks|)
  {
    LenientApplied(rows, i);
    LenientNoBank(rows, i, rows[i].z.blz);
    LenientFirstBank(LenientUpTo(rows, i).value, rows[i].z, rows[i].feld);
  }

  /** A parsed data line of a successful import went through LenientApply. */
  lemma LenientApplied(rows: seq<Gelesen>, i: nat)
    requires 1 <= i < |rows| && LenientUpTo(rows, i + 1).Ok? && rows[i].Gelesen?
    ensures LenientUpTo(rows, i).Ok?
    ensures LenientUpTo(rows, i + 1) == LenientApply(LenientUpTo(rows, i).value, rows[i].z, rows[i].feld)
  {
    LenientExtendsStep(rows, i + 1);
    LenientStep(rows, i + 1);
  }

  /** The banks of a successful import stand in the order their BLZs first
      appear in the file. */
  lemma LenientBankOrder(rows: seq<Gelesen>, k: nat, i: nat, j: nat)
    requires 1 <= i < j < k <= |rows| && LenientUpTo(rows, k).Ok?
    requires rows[i].Gelesen? && rows[j].Gelesen?
    requires forall l :: 1 <= l < i && rows[l].Gelesen? ==> rows[l].z.blz != rows[i].z.blz
    requires forall l :: 1 <= l < j && rows[l].Gelesen? ==> rows[l].z.blz != rows[j].z.blz
    ensures BankIndex(LenientUpTo(rows, k).value.banks, rows[i].z.blz).Some?
    ensures BankIndex(LenientUpTo(rows, k).value.banks, rows[j].z.blz).Some?
    ensures BankIndex(LenientUpTo(rows, k).value.banks, rows[i].z.blz).value
          < BankIndex(LenientUpTo(rows, k).value.banks, rows[j].z.blz).value
  {
    LenientPrefixAt(rows, k, j + 1);
    LenientOrderAt(rows, i, j);
    var m3 := LenientUpTo(rows, j + 1).value;
    BankIndexPrefix(m3.banks, LenientUpTo(rows, k).value.banks, rows[i].z.blz);
    BankIndexPrefix(m3.banks, LenientUpTo(rows, k).value.banks, rows[j].z.blz);
  }

  /** Right after the first line naming the later BLZ, its bank stands
      behind the bank of the earlier one. */
  lemma LenientOrderAt(rows: seq<Gelesen>, i: nat, j: nat)
    requires 1 <= i < j < |rows| && LenientUpTo(rows, j + 1).Ok?
    requires rows[i].Gelesen? && rows[j].Gelesen?
    requires forall l :: 1 <= l < i && rows[l].Gelesen? ==> rows[l].z.blz != rows[i].z.blz
    requires forall l :: 1 <= l < j && rows[l].Gelesen? ==> rows[l].z.blz != rows[j].z.blz
    ensures BankIndex(LenientUpTo(rows, j + 1).value.banks, rows[i].z.blz).Some?
    ensures BankIndex(LenientUpTo(rows, j + 1).value.banks, rows[j].z.blz).Some?
    ensures BankIndex(LenientUpTo(rows, j + 1).value.banks, rows[i].z.blz).value
          < BankIndex(LenientUpTo(rows, j + 1).value.banks, rows[j].z.blz).value
  {
    LenientOrderFacts(rows, i, j);
    AppendedBehind(LenientUpTo(rows, j).value, LenientUpTo(rows, j + 1).value, rows[i].z.blz, rows[j].z.blz);
  }

  /** Before line j is applied the bank of line i is there; line j appends its own bank. */
  lemma LenientOrderFacts(rows: seq<Gelesen>, i: nat, j: nat)
    requires 1 <= i < j < |rows| && LenientUpTo(rows, j + 1).Ok?
    requires rows[i].Gelesen? && rows[j].Gelesen?
    requires forall l :: 1 <= l < i && rows[l].Gelesen? ==> rows[l].z.blz != rows[i].z.blz
    requires forall l :: 1 <= l < j && rows[l].Gelesen? ==> rows[l].z.blz != rows[j].z.blz
    ensures LenientUpTo(rows, j).Ok?
    ensures Extends(LenientUpTo(rows, j).value, LenientUpTo(rows, j + 1).value)
    ensures BankIndex(LenientUpTo(rows, j).value.banks, rows[i].z.blz).Some?
    ensures BankIndex(LenientUpTo(rows, j + 1).value.banks, rows[j].z.blz) == Some(|LenientUpTo(rows, j).value.banks|)
  {
    LenientSeenBefore(rows, i, j);
    LenientFirstLine(rows, j);
    LenientPrefixAt(rows, j + 1, j);
  }

  /** The bank of the first line naming a BLZ is there for every later line. */
  lemma LenientSeenBefore(rows: seq<Gelesen>, i: nat, j: nat)
    requires 1 <= i < j <= |rows| && LenientUpTo(rows, j).Ok? && rows[i].Gelesen?
    requires forall l :: 1 <= l < i && rows[l].Gelesen? ==> rows[l].z.blz != rows[i].z.blz
    ensures BankIndex(LenientUpTo(rows, j).value.banks, rows[i].z.blz).Some?
  {
    LenientPrefixAt(rows, j, i + 1);
    LenientFirstLine(rows, i);
    BankIndexPrefix(LenientUpTo(rows, i + 1).value.banks, LenientUpTo(rows, j).value.banks, rows[i].z.blz);
  }

  /** A BLZ that no data line among lines 2..k names has no bank. */
  lemma {:induction false} LenientNoBank(rows: seq<Gelesen>, k: nat, blz: string)
    requires k <= |rows| && LenientUpTo(rows, k).Ok?
    requires forall j :: 1 <= j < k && rows[j].Gelesen? ==> rows[j].z.blz != blz
    ensures BankIndex(LenientUpTo(rows, k).value.banks, blz).None?
  {
    if k > 1 {
      assert LenientUpTo(rows, k) == LenientLine(rows, k);
      LenientNoBank(rows, k - 1, blz);
      var m := LenientUpTo(rows, k - 1).value;
      var g := rows[k - 1];
      LenientStep(rows, k);
      if g.Gelesen? {
        var w := EnsureBank(m, g.z.blz, g.z.bankName);
        var i := BankSlot(m, g.z.blz);
        if BankIndex(m.banks, g.z.blz).None? {
          BankIndexAppend(m.banks, Bank(g.z.blz, g.z.bankName, []), blz);
        }
        var art := LenientArt(g.feld).value;
        var k2 := KontoOf(g.z, Round5(g.z.kontostand), Inhaber(w.banks[i], g.z.person), art);
        UpdateBankLookup(w, i, AddKonto(w.banks[i], k2), blz);
      }
    }
  }

  /** The bank of a BLZ carries the name on the first data line naming that
      BLZ; later lines with another name change nothing about it. */
  lemma {:induction false} LenientBankName(rows: seq<Gelesen>, k: nat, i: nat)
    requires 1 <= i < k <= |rows| && LenientUpTo(rows, k).Ok? && rows[i].Gelesen?
    requires forall j :: 1 <= j < i && rows[j].Gelesen? ==> rows[j].z.blz != rows[i].z.blz
    ensures BankIndex(LenientUpTo(rows, k).value.banks, rows[i].z.blz).Some?
    ensures LenientUpTo(rows, k).value.banks[BankIndex(LenientUpTo(rows, k).value.banks, rows[i].z.blz).value].name
            == rows[i].z.bankName
  {
    var blz := rows[i].z.blz;
    LenientExtendsStep(rows, k);
    var m := LenientUpTo(rows, k - 1).value;
    var m2 := LenientUpTo(rows, k).value;
    if i == k - 1 {
      LenientNoBank(rows, k - 1, blz);
      LenientStep(rows, k);
      LenientFirstBank(m, rows[i].z, rows[i].feld);
    } else {
      LenientBankName(rows, k - 1, i);
      BankIndexPrefix(m.banks, m2.banks, blz);
    }
  }

  /** A line whose BLZ is new creates its bank under the line's name. */
  lemma LenientFirstBank(m: BankManagementSystem, z: Zeile, feld: ArtFeld)
    requires BankIndex(m.banks, z.blz).None? && LenientApply(m, z, feld).Ok?
    ensures BankIndex(LenientApply(m, z, feld).value.banks, z.blz) == Some(|m.banks|)
    ensures LenientApply(m, z, feld).value.banks[|m.banks|].name == z.bankName
  {
    var w := EnsureBank(m, z.blz, z.bankName);
    var i := BankSlot(m, z.blz);
    var art := LenientArt(feld).value;
    var k := KontoOf(z, Round5(z.kontostand), Inhaber(w.banks[i], z.person), art);
    UpdateBankLookup(w, i, AddKonto(w.banks[i], k), z.blz);
  }

  /** A failed import raises the exception of the first bad data line. */
  lemma {:induction false} LenientFirstError(rows: seq<Gelesen>, k: nat, i: nat)
    requires 1 <= i < k <= |rows| && !LenientGood(rows[i])
    requires forall j :: 1 <= j < i ==> LenientGood(rows[j])
    ensures LenientUpTo(rows, k) == Err(LenientFehler(rows[i]))
  {
    assert LenientUpTo(rows, k) == LenientLine(rows, k);
    if k - 1 == i {
      LenientUpToOk(rows, i);
      LenientStep(rows, k);
      var g := rows[i];
      if g.Gelesen? {
        LenientApplyResult(LenientUpTo(rows, i).value, g.z, g.feld);
      }
    } else {
      LenientFirstError(rows, k - 1, i);
    }
  }

  /** loadFromCSV succeeds exactly when every data line is short or good; the
      ledger then keeps the invariant and holds one account per data line
      that is not short. */
  lemma LenientLoadOk(lines: seq<string>)
    ensures LenientLoad(lines).Ok? <==> forall i :: 1 <= i < |lines| ==> LenientGood(ReadAll(lines)[i])
    ensures LenientLoad(lines).Ok? ==>
              LenientInvariant(LenientLoad(lines).value) &&
              TotalKonten(LenientLoad(lines).value.banks) == DataRows(ReadAll(lines), |lines|)
  {
    LenientUpToOk(ReadAll(lines), |lines|);
    if LenientLoad(lines).Ok? {
      LenientUpToKeeps(ReadAll(lines), |lines|);
    }
  }

  /** Every file the strict importer accepts, the lenient one accepts too,
      with as many accounts. */
  lemma StrictImpliesLenient(lines: seq<string>)
    requires StrictImport.StrictLoad(lines).Ok?
    ensures LenientLoad(lines).Ok?
    ensures TotalKonten(LenientLoad(lines).value.banks) == TotalKonten(StrictImport.StrictLoad(lines).value.banks)
  {
    var rows := ReadAll(lines);
    StrictImport.StrictLoadAccepts(lines);
    StrictImport.StrictLoadOk(lines);
    LenientLoadOk(lines);
    DataRowsAll(rows, |lines|);
  }

  lemma {:induction false} DataRowsAll(rows: seq<Gelesen>, k: nat)
    requires k <= |rows| && forall i :: 1 <= i < k ==> rows[i].Gelesen?
    ensures DataRows(rows, k) == if k <= 1 then 0 else k - 1
  {
    if k > 1 {
      DataRowsAll(rows, k - 1);
    }
  }
}
