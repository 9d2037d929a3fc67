/** The bank management system,
    Geldautomat/src/main/java/com/geldautomat/model/BankManagementSystem.java:
    a list of banks looked up by BLZ, first match wins. */
module Registry {
  import opened Wrappers
  import JavaList
  import opened Accounts
  import opened Banks

  datatype BankManagementSystem = BankManagementSystem(banks: seq<Bank>)

  /** The constructor: no banks. */
  function Empty(): (m: BankManagementSystem)
    ensures forall blz :: BankIndex(m.banks, blz).None?
  {
    BankManagementSystem([])
  }

  /** Position of the first bank with that BLZ (String.equals). */
  function BankIndex(banks: seq<Bank>, blz: string): (r: Option<nat>)
    ensures r.None? <==> forall i :: 0 <= i < |banks| ==> banks[i].blz != blz
    ensures r.Some? ==> r.value < |banks| && banks[r.value].blz == blz
    ensures r.Some? ==> forall j :: 0 <= j < r.value ==> banks[j].blz != blz
  {
    if |banks| == 0 then None
    else if banks[0].blz == blz then Some(0)
    else
      match BankIndex(banks[1..], blz)
      case None => None
      case Some(i) => Some(i + 1)
  }

  /** getBankByBLZ: the first bank with that BLZ, or None. */
  function GetBankByBLZ(m: BankManagementSystem, blz: string): (r: Option<Bank>)
    ensures r.None? <==> forall i :: 0 <= i < |m.banks| ==> m.banks[i].blz != blz
    ensures r.Some? ==> r.value.blz == blz
    ensures r.Some? ==> exists i :: 0 <= i < |m.banks| && m.banks[i] == r.value &&
                          forall j :: 0 <= j < i ==> m.banks[j].blz != blz
  {
    match BankIndex(m.banks, blz)
    case None => None
    case Some(i) => Some(m.banks[i])
  }

  /** addBank: appended, with no check that the BLZ is new. */
  function AddBank(m: BankManagementSystem, b: Bank): (r: BankManagementSystem)
    ensures |r.banks| == |m.banks| + 1
    ensures r.banks[..|m.banks|] == m.banks && r.banks[|m.banks|] == b
  {
    m.(banks := m.banks + [b])
  }

  /** removeBank: the first equal bank goes; an absent one changes nothing. */
  function RemoveBank(m: BankManagementSystem, b: Bank): (r: BankManagementSystem)
    ensures b !in m.banks ==> r == m
    ensures b in m.banks ==> |r.banks| == |m.banks| - 1
    ensures b in m.banks ==>
              var i := JavaList.IndexOf(m.banks, b);
              r.banks == m.banks[..i] + m.banks[i + 1..]
    ensures multiset(r.banks) == multiset(m.banks) - multiset{b}
  {
    JavaList.RemoveMultiset(m.banks, b);
    m.(banks := JavaList.Remove(m.banks, b))
  }

  /** The bank at position i replaced: how the importers and the transfer
      change a bank in place. */
  function UpdateBank(m: BankManagementSystem, i: nat, b: Bank): (r: BankManagementSystem)
    requires i < |m.banks|
    ensures |r.banks| == |m.banks| && r.banks[i] == b
    ensures forall j :: 0 <= j < |m.banks| && j != i ==> r.banks[j] == m.banks[j]
  {
    m.(banks := m.banks[i := b])
  }

  /** No two banks share a BLZ. */
  predicate UniqueBlz(m: BankManagementSystem)
  {
    forall i, j :: 0 <= i < j < |m.banks| ==> m.banks[i].blz != m.banks[j].blz
  }

  /** Number of accounts over all banks. */
  function TotalKonten(banks: seq<Bank>): (n: nat)
    ensures banks == [] ==> n == 0
  {
    if |banks| == 0 then 0 else TotalKonten(banks[..|banks| - 1]) + |banks[|banks| - 1].konten|
  }

  // ---------------------------------------------------------------------------
  // Properties

  /** After addBank a new BLZ is found and gives the added bank; a BLZ that
      was already present still gives the older bank. */
  lemma AddBankLookup(m: BankManagementSystem, b: Bank, blz: string)
    ensures GetBankByBLZ(m, blz).Some? ==> GetBankByBLZ(AddBank(m, b), blz) == GetBankByBLZ(m, blz)
    ensures GetBankByBLZ(m, blz).None? && b.blz == blz ==> GetBankByBLZ(AddBank(m, b), blz) == Some(b)
    ensures GetBankByBLZ(m, blz).None? && b.blz != blz ==> GetBankByBLZ(AddBank(m, b), blz).None?
  {
    BankIndexAppend(m.banks, b, blz);
  }

  lemma {:induction false} BankIndexAppend(banks: seq<Bank>, b: Bank, blz: string)
    ensures BankIndex(banks, blz).Some? ==> BankIndex(banks + [b], blz) == BankIndex(banks, blz)
    ensures BankIndex(banks, blz).None? && b.blz == blz ==> BankIndex(banks + [b], blz) == Some(|banks|)
    ensures BankIndex(banks, blz).None? && b.blz != blz ==> BankIndex(banks + [b], blz).None?
  {
    if |banks| > 0 {
      assert (banks + [b])[1..] == banks[1..] + [b];
      BankIndexAppend(banks[1..], b, blz);
    }
  }

  /** removeBank undoes addBank of a bank that was not in the list. */
  lemma RemoveAddBank(m: BankManagementSystem, b: Bank)
    requires b !in m.banks
    ensures RemoveBank(AddBank(m, b), b) == m
  {
    var s := m.banks + [b];
    assert JavaList.IndexOf(s, b) == |m.banks| by {
      assert s[|m.banks|] == b;
      assert forall j :: 0 <= j < |m.banks| ==> s[j] != b;
    }
    assert s[..|m.banks|] == m.banks;
  }

  /** With unique BLZs the lookup finds the bank at any position holding
      that BLZ. */
  lemma UniqueBlzIndex(m: BankManagementSystem, i: nat)
    requires UniqueBlz(m) && i < |m.banks|
    ensures BankIndex(m.banks, m.banks[i].blz) == Some(i)
  {
  }

  /** Adding a bank with a fresh BLZ keeps the BLZs unique. */
  lemma AddBankUnique(m: BankManagementSystem, b: Bank)
    requires UniqueBlz(m)
    requires GetBankByBLZ(m, b.blz).None?
    ensures UniqueBlz(AddBank(m, b))
  {
  }

  /** Replacing a bank with one of the same BLZ keeps the BLZs unique and
      every lookup pointing at the same position. */
  lemma UpdateBankLookup(m: BankManagementSystem, i: nat, b: Bank, blz: string)
    requires i < |m.banks| && b.blz == m.banks[i].blz
    ensures UniqueBlz(m) ==> UniqueBlz(UpdateBank(m, i, b))
    ensures BankIndex(UpdateBank(m, i, b).banks, blz) == BankIndex(m.banks, blz)
  {
    SameBlzSameIndex(m.banks, UpdateBank(m, i, b).banks, blz);
  }

  lemma {:induction false} SameBlzSameIndex(s: seq<Bank>, t: seq<Bank>, blz: string)
    requires |s| == |t|
    requires forall i :: 0 <= i < |s| ==> s[i].blz == t[i].blz
    ensures BankIndex(s, blz) == BankIndex(t, blz)
  {
    if |s| > 0 {
      SameBlzSameIndex(s[1..], t[1..], blz);
    }
  }

  /** Replacing a bank changes the account total by the difference of the
      two banks' account counts. */
  lemma {:induction false} TotalKontenUpdate(banks: seq<Bank>, i: nat, b: Bank)
    requires i < |banks|
    ensures TotalKonten(banks[i := b]) + |banks[i].konten| == TotalKonten(banks) + |b.konten|
    decreases |banks|
  {
    var n := |banks| - 1;
    assert banks[i := b][..n] == if i == n then banks[..n] else banks[..n][i := b];
    if i < n {
      TotalKontenUpdate(banks[..n], i, b);
    }
  }

  /** Appending a bank adds its accounts to the total. */
  lemma TotalKontenAppend(banks: seq<Bank>, b: Bank)
    ensures TotalKonten(banks + [b]) == TotalKonten(banks) + |b.konten|
  {
    assert (banks + [b])[..|banks|] == banks;
  }
}
