/** The shape a loaded management system has: the facts the strict importer
    checks line by line, stated over the whole ledger, and how a ledger grows
    while lines are read. */
module Ledger {
  import opened Wrappers
  import Holders
  import opened Accounts
  import opened Banks
  import opened Registry

  /** No two accounts of the bank share a number. */
  predicate UniqueNumbers(b: Bank)
  {
    forall j, k :: 0 <= j < k < |b.konten| ==> b.konten[j].kontonummer != b.konten[k].kontonummer
  }

  /** All accounts of the bank whose holders share a customer number have
      the same holder. */
  predicate ConsistentOwners(b: Bank)
  {
    forall j, k ::
      (0 <= j < |b.konten| && 0 <= k < |b.konten| &&
       b.konten[j].inhaber.kundennummer == b.konten[k].inhaber.kundennummer) ==>
      b.konten[j].inhaber == b.konten[k].inhaber
  }

  predicate BankWellFormed(b: Bank)
  {
    Keyed(b) && UniqueNumbers(b) && ConsistentOwners(b)
  }

  /** What the strict importer guarantees of what it returns. */
  predicate WellFormed(m: BankManagementSystem)
  {
    UniqueBlz(m) && forall i :: 0 <= i < |m.banks| ==> BankWellFormed(m.banks[i])
  }

  /** m2 is m with accounts appended to its banks and banks appended to its
      list; nothing already there changes. */
  predicate Extends(m: BankManagementSystem, m2: BankManagementSystem)
  {
    |m.banks| <= |m2.banks| &&
    forall i :: 0 <= i < |m.banks| ==>
      m2.banks[i].blz == m.banks[i].blz && m2.banks[i].name == m.banks[i].name &&
      |m.banks[i].konten| <= |m2.banks[i].konten| &&
      m2.banks[i].konten[..|m.banks[i].konten|] == m.banks[i].konten
  }

  // ---------------------------------------------------------------------------
  // Properties

  lemma ExtendsRefl(m: BankManagementSystem)
    ensures Extends(m, m)
  {
    forall i | 0 <= i < |m.banks|
      ensures m.banks[i].konten[..|m.banks[i].konten|] == m.banks[i].konten
    {
    }
  }

  lemma ExtendsTrans(m1: BankManagementSystem, m2: BankManagementSystem, m3: BankManagementSystem)
    requires Extends(m1, m2) && Extends(m2, m3)
    ensures Extends(m1, m3)
  {
    forall i | 0 <= i < |m1.banks|
      ensures m3.banks[i].konten[..|m1.banks[i].konten|] == m1.banks[i].konten
    {
      var n1 := |m1.banks[i].konten|;
      var n2 := |m2.banks[i].konten|;
      assert m3.banks[i].konten[..n1] == m3.banks[i].konten[..n2][..n1];
    }
  }

  /** A BLZ found in a list is found at the same position in any list that
      starts with banks of the same BLZs. */
  lemma {:induction false} BankIndexPrefix(s: seq<Bank>, t: seq<Bank>, blz: string)
    requires |s| <= |t|
    requires forall i :: 0 <= i < |s| ==> t[i].blz == s[i].blz
    requires BankIndex(s, blz).Some?
    ensures BankIndex(t, blz) == BankIndex(s, blz)
  {
    if s[0].blz != blz {
      BankIndexPrefix(s[1..], t[1..], blz);
    }
  }

  /** An account number found in a list is found at the same position after
      more accounts are appended. */
  lemma {:induction false} KontoIndexPrefix(s: seq<Konto>, t: seq<Konto>, n: int)
    requires |s| <= |t| && t[..|s|] == s
    requires KontoIndex(s, n).Some?
    ensures KontoIndex(t, n) == KontoIndex(s, n)
  {
    if s[0].kontonummer != n {
      assert t[1..][..|s[1..]|] == s[1..];
      KontoIndexPrefix(s[1..], t[1..], n);
    }
  }

  /** Appending a bank that has a BLZ not yet present and no accounts keeps
      the ledger well formed and extends it. */
  lemma AddEmptyBank(m: BankManagementSystem, blz: string, name: string)
    requires WellFormed(m)
    requires BankIndex(m.banks, blz).None?
    ensures WellFormed(AddBank(m, Bank(blz, name, [])))
    ensures Extends(m, AddBank(m, Bank(blz, name, [])))
    ensures BankIndex(AddBank(m, Bank(blz, name, [])).banks, blz) == Some(|m.banks|)
  {
    var m2 := AddBank(m, Bank(blz, name, []));
    BankIndexAppend(m.banks, Bank(blz, name, []), blz);
    forall i | 0 <= i < |m.banks|
      ensures m2.banks[i].konten[..|m.banks[i].konten|] == m.banks[i].konten
    {
      assert m2.banks[i] == m.banks[i];
    }
  }

  /** Appending an account to bank i that carries the bank's BLZ, has a number
      the bank does not hold yet and a holder consistent with the bank's other
      accounts keeps the ledger well formed and extends it. */
  lemma AddKontoWellFormed(m: BankManagementSystem, i: nat, k: Konto)
    requires WellFormed(m) && i < |m.banks|
    requires k.bank == m.banks[i].blz
    requires KontoIndex(m.banks[i].konten, k.kontonummer).None?
    requires forall j ::
               (0 <= j < |m.banks[i].konten| &&
                m.banks[i].konten[j].inhaber.kundennummer == k.inhaber.kundennummer) ==>
               m.banks[i].konten[j].inhaber == k.inhaber
    ensures WellFormed(UpdateBank(m, i, AddKonto(m.banks[i], k)))
    ensures Extends(m, UpdateBank(m, i, AddKonto(m.banks[i], k)))
  {
    var b := m.banks[i];
    var b2 := AddKonto(b, k);
    var m2 := UpdateBank(m, i, b2);
    UpdateBankLookup(m, i, b2, b.blz);
    assert BankWellFormed(b2) by {
      assert forall j :: 0 <= j < |b.konten| ==> b2.konten[j] == b.konten[j];
    }
    forall i2 | 0 <= i2 < |m.banks|
      ensures m2.banks[i2].konten[..|m.banks[i2].konten|] == m.banks[i2].konten
    {
    }
  }

  /** A bank appended after the banks of m stands behind every bank m
      already had, however m was extended. */
  lemma AppendedBehind(m: BankManagementSystem, m2: BankManagementSystem, a: string, b: string)
    requires Extends(m, m2)
    requires BankIndex(m.banks, a).Some?
    requires BankIndex(m2.banks, b) == Some(|m.banks|)
    ensures BankIndex(m2.banks, a).Some?
    ensures BankIndex(m2.banks, a).value < BankIndex(m2.banks, b).value
  {
    BankIndexPrefix(m.banks, m2.banks, a);
  }

  /** In a bank with consistent owners, every account whose holder has the
      customer number that findKundenByKundennummer answers for has that
      holder. */
  lemma ConsistentOwnerFound(b: Bank, kn: int)
    requires ConsistentOwners(b)
    requires FindKundenByKundennummer(b, kn).Some?
    ensures forall j :: 0 <= j < |b.konten| && b.konten[j].inhaber.kundennummer == kn ==>
              b.konten[j].inhaber == FindKundenByKundennummer(b, kn).value
  {
  }
}
