/** The account holder, Geldautomat/src/main/java/com/geldautomat/model/Kontoinhaber.java.
    Personal data is a value (`Person`) that accounts carry; the holder's own
    account list keeps account numbers, the key an account is known by. */
module Holders {
  import JavaList

  /** The holder's personal data. The field order is the constructor's:
      (kundennummer, vorname, name, strasse, plz, ort). */
  datatype Person = Person(kundennummer: int, vorname: string, name: string,
                           strasse: string, plz: string, ort: string)

  /** A holder with the numbers of the accounts it holds, in the order they
      were added. A new holder is `Kontoinhaber(p, [])`. */
  datatype Kontoinhaber = Kontoinhaber(person: Person, konten: seq<int>)

  /** The five text fields that have a getter and a setter. */
  datatype TextField = Name | Vorname | Strasse | Plz | Ort

  function Get(p: Person, f: TextField): string
  {
    match f
    case Name => p.name
    case Vorname => p.vorname
    case Strasse => p.strasse
    case Plz => p.plz
    case Ort => p.ort
  }

  /** The five text fields agree: what the strict importer demands of two
      rows for the same customer in the same bank. */
  predicate SamePersonalData(p: Person, q: Person)
  {
    forall f: TextField :: Get(p, f) == Get(q, f)
  }

  /** Two people with the same number and the same text fields are equal. */
  lemma SamePersonalDataEqual(p: Person, q: Person)
    requires p.kundennummer == q.kundennummer && SamePersonalData(p, q)
    ensures p == q
  {
    assert Get(p, Name) == Get(q, Name);
    assert Get(p, Vorname) == Get(q, Vorname);
    assert Get(p, Strasse) == Get(q, Strasse);
    assert Get(p, Plz) == Get(q, Plz);
    assert Get(p, Ort) == Get(q, Ort);
  }

  /** setName, setVorname, setStrasse, setPlz, setOrt: the chosen field reads
      back the new value and every other field, the number and the account
      list read as before. */
  function Set(h: Kontoinhaber, f: TextField, v: string): (r: Kontoinhaber)
    ensures Get(r.person, f) == v
    ensures forall g :: g != f ==> Get(r.person, g) == Get(h.person, g)
    ensures r.person.kundennummer == h.person.kundennummer
    ensures r.konten == h.konten
  {
    var p := h.person;
    var q := match f
      case Name => p.(name := v)
      case Vorname => p.(vorname := v)
      case Strasse => p.(strasse := v)
      case Plz => p.(plz := v)
      case Ort => p.(ort := v);
    h.(person := q)
  }

  /** setKundennummer: only the number changes. */
  function SetKundennummer(h: Kontoinhaber, n: int): (r: Kontoinhaber)
    ensures r.person.kundennummer == n
    ensures SamePersonalData(r.person, h.person)
    ensures r.konten == h.konten
  {
    h.(person := h.person.(kundennummer := n))
  }

  /** addKonto: the account goes at the end; nothing else changes. */
  function AddKonto(h: Kontoinhaber, kontonummer: int): (r: Kontoinhaber)
    ensures |r.konten| == |h.konten| + 1
    ensures r.konten[..|h.konten|] == h.konten && r.konten[|h.konten|] == kontonummer
    ensures r.person == h.person
  {
    h.(konten := h.konten + [kontonummer])
  }

  /** removeKonto: the first occurrence goes, the rest keeps its order; an
      account the holder does not hold leaves it unchanged. */
  function RemoveKonto(h: Kontoinhaber, kontonummer: int): (r: Kontoinhaber)
    ensures kontonummer !in h.konten ==> r == h
    ensures kontonummer in h.konten ==>
              var i := JavaList.IndexOf(h.konten, kontonummer);
              r.konten == h.konten[..i] + h.konten[i + 1..]
    ensures r.person == h.person
  {
    h.(konten := JavaList.Remove(h.konten, kontonummer))
  }
}
