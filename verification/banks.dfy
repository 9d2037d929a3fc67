/** A bank and its account list, src/main/java/com/geldautomat/model/Bank.java.
    Lookups return the FIRST match in list order, as the source's loops do;
    nothing in Bank itself keeps account numbers unique. The back reference to
    the management system is not modelled. */
module Banks {
  import opened Wrappers
  import JavaList
  import Holders
  import opened Accounts

  datatype Bank = Bank(blz: string, name: string, konten: seq<Konto>)

  /** Every account names this bank's BLZ: the object reference of
      Konto.bank, seen through the key it is found by. */
  predicate Keyed(b: Bank)
  {
    forall i :: 0 <= i < |b.konten| ==> b.konten[i].bank == b.blz
  }

  /** Position of the first account with number n. */
  function KontoIndex(konten: seq<Konto>, n: int): (r: Option<nat>)
    ensures r.None? <==> forall i :: 0 <= i < |konten| ==> konten[i].kontonummer != n
    ensures r.Some? ==> r.value < |konten| && konten[r.value].kontonummer == n
    ensures r.Some? ==> forall j :: 0 <= j < r.value ==> konten[j].kontonummer != n
  {
    if |konten| == 0 then None
    else if konten[0].kontonummer == n then Some(0)
    else
      match KontoIndex(konten[1..], n)
      case None => None
      case Some(i) => Some(i + 1)
  }

  /** getKontoByKontonummer: the first account with that number, or None. */
  function GetKontoByKontonummer(b: Bank, n: int): (r: Option<Konto>)
    ensures r.None? <==> forall i :: 0 <= i < |b.konten| ==> b.konten[i].kontonummer != n
    ensures r.Some? ==> r.value.kontonummer == n
    ensures r.Some? ==> exists i :: 0 <= i < |b.konten| && b.konten[i] == r.value &&
                          forall j :: 0 <= j < i ==> b.konten[j].kontonummer != n
  {
    match KontoIndex(b.konten, n)
    case None => None
    case Some(i) => Some(b.konten[i])
  }

  /** Position of the first account whose holder has customer number kn. */
  function KundeIndex(konten: seq<Konto>, kn: int): (r: Option<nat>)
    ensures r.None? <==> forall i :: 0 <= i < |konten| ==> konten[i].inhaber.kundennummer != kn
    ensures r.Some? ==> r.value < |konten| && konten[r.value].inhaber.kundennummer == kn
    ensures r.Some? ==> forall j :: 0 <= j < r.value ==> konten[j].inhaber.kundennummer != kn
  {
    if |konten| == 0 then None
    else if konten[0].inhaber.kundennummer == kn then Some(0)
    else
      match KundeIndex(konten[1..], kn)
      case None => None
      case Some(i) => Some(i + 1)
  }

  /** findKundenByKundennummer: the holder of the first account whose holder
      has that customer number, or None. */
  function FindKundenByKundennummer(b: Bank, kn: int): (r: Option<Holders.Person>)
    ensures r.None? <==> forall i :: 0 <= i < |b.konten| ==> b.konten[i].inhaber.kundennummer != kn
    ensures r.Some? ==> r.value.kundennummer == kn
    ensures r.Some? ==> exists i :: 0 <= i < |b.konten| && b.konten[i].inhaber == r.value &&
                          forall j :: 0 <= j < i ==> b.konten[j].inhaber.kundennummer != kn
  {
    match KundeIndex(b.konten, kn)
    case None => None
    case Some(i) => Some(b.konten[i].inhaber)
  }

  /** addKonto: the account goes at the end, duplicates included. */
  function AddKonto(b: Bank, k: Konto): (r: Bank)
    ensures r.blz == b.blz && r.name == b.name
    ensures |r.konten| == |b.konten| + 1
    ensures r.konten[..|b.konten|] == b.konten && r.konten[|b.konten|] == k
  {
    b.(konten := b.konten + [k])
  }

  /** removeKonto: the first equal account goes; an absent one changes
      nothing. */
  function RemoveKonto(b: Bank, k: Konto): (r: Bank)
    ensures r.blz == b.blz && r.name == b.name
    ensures k !in b.konten ==> r == b
    ensures k in b.konten ==> |r.konten| == |b.konten| - 1
    ensures k in b.konten ==>
              var i := JavaList.IndexOf(b.konten, k);
              r.konten == b.konten[..i] + b.konten[i + 1..]
    ensures multiset(r.konten) == multiset(b.konten) - multiset{k}
  {
    JavaList.RemoveMultiset(b.konten, k);
    b.(konten := JavaList.Remove(b.konten, k))
  }

  /** setBlz. The accounts hold a reference to this bank, so each now names
      the new BLZ as well; nothing else about them changes. */
  function SetBlz(b: Bank, blz: string): (r: Bank)
    ensures r.blz == blz && r.name == b.name
    ensures |r.konten| == |b.konten|
    ensures forall i :: 0 <= i < |b.konten| ==> r.konten[i] == b.konten[i].(bank := r.konten[i].bank)
    ensures Keyed(r)
  {
    Bank(blz, b.name, seq(|b.konten|, i requires 0 <= i < |b.konten| => b.konten[i].(bank := blz)))
  }

  /** setName: only the name changes. */
  function SetName(b: Bank, name: string): (r: Bank)
    ensures r.name == name
    ensures r.blz == b.blz && r.konten == b.konten
  {
    b.(name := name)
  }

  /** The account at position i with a new balance: how a transfer changes
      a bank. */
  function SetKontostand(b: Bank, i: nat, kontostand: real): (r: Bank)
    requires i < |b.konten|
    ensures r.blz == b.blz && r.name == b.name && |r.konten| == |b.konten|
    ensures r.konten[i] == b.konten[i].(kontostand := kontostand)
    ensures forall j :: 0 <= j < |b.konten| && j != i ==> r.konten[j] == b.konten[j]
  {
    b.(konten := b.konten[i := b.konten[i].(kontostand := kontostand)])
  }

  // ---------------------------------------------------------------------------
  // Properties

  /** After addKonto the new number is found; if it was already taken, the
      lookup still answers with the older account (it shadows the new one).
      Other numbers answer as before. */
  lemma AddKontoLookup(b: Bank, k: Konto, n: int)
    ensures n != k.kontonummer ==> GetKontoByKontonummer(AddKonto(b, k), n) == GetKontoByKontonummer(b, n)
    ensures n == k.kontonummer && GetKontoByKontonummer(b, n).None? ==>
              GetKontoByKontonummer(AddKonto(b, k), n) == Some(k)
    ensures GetKontoByKontonummer(b, n).Some? ==>
              GetKontoByKontonummer(AddKonto(b, k), n) == GetKontoByKontonummer(b, n)
  {
    KontoIndexAppend(b.konten, k, n);
  }

  lemma {:induction false} KontoIndexAppend(konten: seq<Konto>, k: Konto, n: int)
    ensures KontoIndex(konten, n).Some? ==> KontoIndex(konten + [k], n) == KontoIndex(konten, n)
    ensures KontoIndex(konten, n).None? && k.kontonummer == n ==> KontoIndex(konten + [k], n) == Some(|konten|)
    ensures KontoIndex(konten, n).None? && k.kontonummer != n ==> KontoIndex(konten + [k], n).None?
  {
    if |konten| > 0 {
      assert (konten + [k])[1..] == konten[1..] + [k];
      KontoIndexAppend(konten[1..], k, n);
    }
  }

  /** removeKonto undoes addKonto of an account the bank did not hold. */
  lemma RemoveAddKonto(b: Bank, k: Konto)
    requires k !in b.konten
    ensures RemoveKonto(AddKonto(b, k), k) == b
  {
    var s := b.konten + [k];
    assert JavaList.IndexOf(s, k) == |b.konten| by {
      assert s[|b.konten|] == k;
      assert forall j :: 0 <= j < |b.konten| ==> s[j] != k;
    }
    assert s[..|b.konten|] == b.konten;
  }

  /** A lookup by number after setBlz finds the same account, re-keyed. */
  lemma SetBlzLookup(b: Bank, blz: string, n: int)
    ensures GetKontoByKontonummer(SetBlz(b, blz), n).None? <==> GetKontoByKontonummer(b, n).None?
    ensures GetKontoByKontonummer(b, n).Some? ==>
              GetKontoByKontonummer(SetBlz(b, blz), n) == Some(GetKontoByKontonummer(b, n).value.(bank := blz))
  {
    var r := SetBlz(b, blz);
    assert forall i :: 0 <= i < |b.konten| ==> r.konten[i].kontonummer == b.konten[i].kontonummer;
    SameNumbersSameIndex(b.konten, r.konten, n);
  }

  lemma {:induction false} SameNumbersSameIndex(s: seq<Konto>, t: seq<Konto>, n: int)
    requires |s| == |t|
    requires forall i :: 0 <= i < |s| ==> s[i].kontonummer == t[i].kontonummer
    ensures KontoIndex(s, n) == KontoIndex(t, n)
  {
    if |s| > 0 {
      SameNumbersSameIndex(s[1..], t[1..], n);
    }
  }

  /** Changing a balance keeps every lookup by number and by customer pointing
      at the same position. */
  lemma SetKontostandLookup(b: Bank, i: nat, kontostand: real, n: int)
    requires i < |b.konten|
    ensures KontoIndex(SetKontostand(b, i, kontostand).konten, n) == KontoIndex(b.konten, n)
    ensures KundeIndex(SetKontostand(b, i, kontostand).konten, n) == KundeIndex(b.konten, n)
  {
    var r := SetKontostand(b, i, kontostand);
    SameNumbersSameIndex(b.konten, r.konten, n);
    SameOwnersSameIndex(b.konten, r.konten, n);
  }

  lemma {:induction false} SameOwnersSameIndex(s: seq<Konto>, t: seq<Konto>, kn: int)
    requires |s| == |t|
    requires forall i :: 0 <= i < |s| ==> s[i].inhaber == t[i].inhaber
    ensures KundeIndex(s, kn) == KundeIndex(t, kn)
  {
    if |s| > 0 {
      SameOwnersSameIndex(s[1..], t[1..], kn);
    }
  }
}
